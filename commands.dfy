/**
 * The decisions the slash-command handlers of index.js take before and around
 * their store calls: who may run what, which user a command is about, and the
 * defaults for missing options. Replies are reduced to what they report; the
 * embeds and message texts around them are not modelled.
 */
module Commands {
  import opened Wrappers
  import opened Sorting
  import opened Ledger
  import opened Database

  const DefaultLeaderboardSize: nat := 10
  const MaxLeaderboardSize: nat := 25
  const HistorySize: nat := 10
  const NoReason := "No reason provided"

  /** `/leaderboard`'s `limit` option (an integer in 1..25 when given), `|| 10` when it is not. */
  function LeaderboardLimit(requested: Option<int>): (limit: nat)
    requires requested.Some? ==> 1 <= requested.value <= MaxLeaderboardSize
    ensures 1 <= limit <= MaxLeaderboardSize
    ensures requested.Some? ==> limit == requested.value
    ensures requested.None? ==> limit == DefaultLeaderboardSize
  {
    requested.GetOr(DefaultLeaderboardSize)
  }

  /** `getString('reason') || 'No reason provided'`: an absent or empty reason becomes the default, so none is ever empty. */
  function ReasonOrDefault(reason: Option<string>): (r: string)
    ensures r != ""
    ensures reason.Some? && reason.value != "" ==> r == reason.value
    ensures reason.None? || reason.value == "" ==> r == NoReason
  {
    if reason.Some? && reason.value != "" then reason.value else NoReason
  }

  /** What a handler reports back; `Refused` is the permission message. */
  datatype Reply =
    | Refused
    | Updated(user: User)
    | Failed(message: string)
    | RosterChanged

  /** `/miles [user]`: the balance shown for the target (the caller by default); a user without a row shows 0. */
  function HandleMiles(users: Users, callerId: string, target: Option<string>): (miles: int)
    ensures miles == Balance(users, target.GetOr(callerId))
    ensures (forall id :: id in users ==> users[id].miles >= 0) ==> miles >= 0
  {
    match GetUserMiles(users, target.GetOr(callerId))
    case Some(user) => user.miles
    case None => 0
  }

  /** `/leaderboard [limit]`: the top users by miles, ten unless asked for another number up to 25. */
  ghost function HandleLeaderboard(users: Users, requested: Option<int>): (board: seq<Standing>)
    requires requested.Some? ==> 1 <= requested.value <= MaxLeaderboardSize
    ensures |board| <= MaxLeaderboardSize
    ensures requested.None? ==> |board| <= DefaultLeaderboardSize
    ensures forall i :: 0 <= i < |board| ==> board[i].userId in users && board[i] == StandingOf(users, board[i].userId) && board[i].miles > 0
    ensures forall i, j :: 0 <= i < j < |board| ==> board[i].miles >= board[j].miles && board[i].userId != board[j].userId
    ensures forall id :: id in users && users[id].miles > 0 && (forall i :: 0 <= i < |board| ==> board[i].userId != id) ==>
              |board| == LeaderboardLimit(requested) && forall i :: 0 <= i < |board| ==> board[i].miles >= users[id].miles
  {
    Leaderboard(users, LeaderboardLimit(requested))
  }

  /**
   * `/history [user]`: refused when a target is named by a caller who is not
   * staff (anybody may see their own history); otherwise the ten most recent
   * transactions of the target (the caller by default), newest first.
   */
  function HandleHistory(staff: Roster, txs: seq<Tx>, callerId: string, target: Option<string>): (r: Option<seq<Tx>>)
    ensures r.None? <==> target.Some? && !IsStaff(staff, callerId)
    ensures r.Some? ==> |r.value| <= HistorySize
    ensures r.Some? ==> forall i :: 0 <= i < |r.value| ==> r.value[i] in txs && r.value[i].userId == target.GetOr(callerId)
    ensures r.Some? ==> forall i, j :: 0 <= i < j < |r.value| ==> r.value[i].timestamp >= r.value[j].timestamp
    ensures r.Some? ==> forall t :: t in txs && t.userId == target.GetOr(callerId) && t !in r.value ==>
              |r.value| == HistorySize && forall i :: 0 <= i < |r.value| ==> r.value[i].timestamp >= t.timestamp
    ensures r.Some? && Distinct(txs) ==> Distinct(r.value)
  {
    if target.None? || IsStaff(staff, callerId) then Some(UserTransactions(txs, target.GetOr(callerId), HistorySize)) else None
  }

  /** The figures `/stats` shows: `total_users || 0`, `total_miles || 0`, `max_miles || 0`. */
  datatype StatsView = StatsView(totalUsers: nat, totalMiles: int, maxMiles: int)

  /** `/stats`: staff only; a NULL sum or maximum (no users) shows as 0. */
  ghost function HandleStats(staff: Roster, users: Users, callerId: string): (r: Option<StatsView>)
    ensures r.None? <==> !IsStaff(staff, callerId)
    ensures r.Some? ==> r.value.totalUsers == |users| && r.value.totalMiles == TotalMiles(users)
    ensures r.Some? && users == map[] ==> r.value.maxMiles == 0
    ensures r.Some? && users != map[] ==>
              (exists id :: id in users && users[id].miles == r.value.maxMiles) &&
              forall id :: id in users ==> users[id].miles <= r.value.maxMiles
  {
    if !IsStaff(staff, callerId) then None
    else
      var stats := GetStats(users);
      Some(StatsView(stats.totalUsers, stats.totalMiles.GetOr(0), stats.maxMiles.GetOr(0)))
  }

  /** `/add`: staff only; otherwise `addMiles` with the caller as the actor and the defaulted reason. */
  method HandleAdd(db: MilesDatabase, callerId: string, callerName: string, targetId: string, targetName: string,
                   amount: int, reason: Option<string>) returns (reply: Reply)
    requires db.Valid() && amount >= 1
    modifies db
    ensures db.Valid()
    ensures !IsStaff(old(db.staff), callerId) ==> reply == Refused && db.Contents() == old(db.Contents())
    ensures IsStaff(old(db.staff), callerId) ==>
              && targetId in db.users && reply == Updated(db.users[targetId])
              && db.users[targetId].miles == Balance(old(db.users), targetId) + amount
              && db.users == old(db.users)[targetId := Touched(old(db.users), targetId, targetName, db.now)
                                                         .(miles := db.users[targetId].miles, updatedAt := db.now)]
              && db.transactions == old(db.transactions) +
                   [Tx(old(db.nextTxId), targetId, amount, Add, ReasonOrDefault(reason), callerId, callerName, db.now)]
              && db.nextTxId == old(db.nextTxId) + 1
              && db.staff == old(db.staff) && db.now == old(db.now)
  {
    if !IsStaff(db.staff, callerId) {
      return Refused;
    }
    var user := db.AddMiles(targetId, targetName, amount, ReasonOrDefault(reason), callerId, callerName);
    return Updated(user);
  }

  /** `/deduct`: staff only; an insufficient balance is reported with the store's message and changes nothing. */
  method HandleDeduct(db: MilesDatabase, callerId: string, callerName: string, targetId: string, targetName: string,
                      amount: int, reason: Option<string>) returns (reply: Reply)
    requires db.Valid() && amount >= 1
    modifies db
    ensures db.Valid()
    ensures !IsStaff(old(db.staff), callerId) ==> reply == Refused && db.Contents() == old(db.Contents())
    ensures IsStaff(old(db.staff), callerId) && Balance(old(db.users), targetId) < amount ==>
              && reply == Failed(InsufficientMiles(Balance(old(db.users), targetId), amount).Message())
              && db.Contents() == old(db.Contents())
    ensures IsStaff(old(db.staff), callerId) && Balance(old(db.users), targetId) >= amount ==>
              && targetId in db.users && reply == Updated(db.users[targetId])
              && targetId in old(db.users)
              && db.users[targetId].miles == Balance(old(db.users), targetId) - amount
              && db.users == old(db.users)[targetId := old(db.users)[targetId]
                                                         .(username := targetName, miles := db.users[targetId].miles, updatedAt := db.now)]
              && db.transactions == old(db.transactions) +
                   [Tx(old(db.nextTxId), targetId, amount, Deduct, ReasonOrDefault(reason), callerId, callerName, db.now)]
              && db.nextTxId == old(db.nextTxId) + 1
              && db.staff == old(db.staff) && db.now == old(db.now)
  {
    if !IsStaff(db.staff, callerId) {
      return Refused;
    }
    var result := db.DeductMiles(targetId, targetName, amount, ReasonOrDefault(reason), callerId, callerName);
    match result
    case Success(user) => return Updated(user);
    case Failure(e) => return Failed(e.Message());
  }

  /** `/set`: staff only; otherwise `setMiles` with the caller as the actor. */
  method HandleSet(db: MilesDatabase, callerId: string, callerName: string, targetId: string, targetName: string,
                   amount: int) returns (reply: Reply)
    requires db.Valid() && amount >= 0
    modifies db
    ensures db.Valid()
    ensures !IsStaff(old(db.staff), callerId) ==> reply == Refused && db.Contents() == old(db.Contents())
    ensures IsStaff(old(db.staff), callerId) ==>
              && targetId in db.users && reply == Updated(db.users[targetId])
              && db.users[targetId].miles == amount
              && db.users == old(db.users)[targetId := Touched(old(db.users), targetId, targetName, db.now)
                                                         .(miles := amount, updatedAt := db.now)]
              && db.transactions == old(db.transactions) +
                   [Tx(old(db.nextTxId), targetId, amount - Balance(old(db.users), targetId), Set,
                       SetReason(Balance(old(db.users), targetId), amount), callerId, callerName, db.now)]
              && db.nextTxId == old(db.nextTxId) + 1
              && db.staff == old(db.staff) && db.now == old(db.now)
  {
    if !IsStaff(db.staff, callerId) {
      return Refused;
    }
    var user := db.SetMiles(targetId, targetName, amount, callerId, callerName);
    return Updated(user);
  }

  /** `/addstaff`: decided by the Administrator permission alone, whatever the roster says about the caller. */
  method HandleAddStaff(db: MilesDatabase, isAdministrator: bool, targetId: string, targetName: string)
    returns (reply: Reply)
    requires db.Valid()
    modifies db
    ensures db.Valid()
    ensures !isAdministrator ==> reply == Refused && db.Contents() == old(db.Contents())
    ensures isAdministrator ==>
              && reply == RosterChanged
              && db.staff == old(db.staff)[targetId := StaffMember(targetId, targetName, db.now)]
              && db.users == old(db.users) && db.transactions == old(db.transactions)
              && db.nextTxId == old(db.nextTxId) && db.now == old(db.now)
  {
    if !isAdministrator {
      return Refused;
    }
    db.AddStaff(targetId, targetName);
    return RosterChanged;
  }

  /** `/removestaff`: decided by the Administrator permission alone; removing a non-member is a no-op. */
  method HandleRemoveStaff(db: MilesDatabase, isAdministrator: bool, targetId: string) returns (reply: Reply)
    requires db.Valid()
    modifies db
    ensures db.Valid()
    ensures !isAdministrator ==> reply == Refused && db.Contents() == old(db.Contents())
    ensures isAdministrator ==>
              && reply == RosterChanged
              && db.staff == old(db.staff) - {targetId}
              && db.users == old(db.users) && db.transactions == old(db.transactions)
              && db.nextTxId == old(db.nextTxId) && db.now == old(db.now)
  {
    if !isAdministrator {
      return Refused;
    }
    db.RemoveStaff(targetId);
    return RosterChanged;
  }
}
