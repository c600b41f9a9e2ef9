/**
 * The three tables of the miles ledger (`users`, `transactions`, `staff`) as
 * values, the invariants the store keeps on them, and the read-only queries of
 * `MilesDatabase` (database.js) as functions over those values.
 */
module Ledger {
  import opened Wrappers
  import opened Text
  import opened Sorting

  /** A row of `users`. Timestamps are readings of the store's clock. */
  datatype User = User(userId: string, username: string, miles: int, createdAt: nat, updatedAt: nat)

  /** The `type` column of `transactions`: 'add', 'deduct' or 'set'. */
  datatype TxType = Add | Deduct | Set

  /** A row of `transactions`; `staffId` and `staffUsername` name the actor. */
  datatype Tx = Tx(id: nat, userId: string, amount: int, kind: TxType, reason: string,
                   staffId: string, staffUsername: string, timestamp: nat)

  /** A row of `staff`. */
  datatype StaffMember = StaffMember(userId: string, username: string, addedAt: nat)

  /** A row of the leaderboard: `SELECT user_id, username, miles`. */
  datatype Standing = Standing(userId: string, username: string, miles: int)

  /** A row of the global feed: a transaction joined with its user's current username. */
  datatype FeedRow = FeedRow(tx: Tx, username: string)

  /** `getStats` without `avg_miles`; SUM and MAX over no rows are NULL. */
  datatype Stats = Stats(totalUsers: nat, totalMiles: Option<int>, maxMiles: Option<int>)

  type Users = map<string, User>
  type Roster = map<string, StaffMember>

  // ---------------------------------------------------------------------------
  // Table invariants

  /** Every user row is keyed by its id, holds a non-negative balance and was stamped no later than `now`. */
  ghost predicate UsersValid(users: Users, now: nat) {
    forall id :: id in users ==>
      && users[id].userId == id
      && users[id].miles >= 0
      && users[id].createdAt <= users[id].updatedAt <= now
  }

  /**
   * The log is in insertion order: ids strictly increase and stay below the next
   * id, timestamps never decrease and are no later than `now`, and every row
   * refers to an existing user (the foreign key).
   */
  ghost predicate LogValid(txs: seq<Tx>, users: Users, nextTxId: nat, now: nat) {
    && (forall i :: 0 <= i < |txs| ==> txs[i].id < nextTxId && txs[i].userId in users && txs[i].timestamp <= now)
    && (forall i, j :: 0 <= i < j < |txs| ==> txs[i].id < txs[j].id && txs[i].timestamp <= txs[j].timestamp)
  }

  ghost predicate RosterValid(staff: Roster, now: nat) {
    forall id :: id in staff ==> staff[id].userId == id && staff[id].addedAt <= now
  }

  /** How a logged transaction moved its user's balance ('set' stores the signed difference). */
  function Effect(t: Tx): int {
    match t.kind
    case Add => t.amount
    case Deduct => -t.amount
    case Set => t.amount
  }

  /** The summed effect of the logged transactions of `userId`. */
  function NetChange(txs: seq<Tx>, userId: string): int {
    if txs == [] then 0
    else NetChange(txs[..|txs| - 1], userId) + (if txs[|txs| - 1].userId == userId then Effect(txs[|txs| - 1]) else 0)
  }

  /** The log is a complete audit trail: replaying a user's transactions gives the user's balance. */
  ghost predicate LogAccountsForBalances(txs: seq<Tx>, users: Users) {
    forall id :: id in users ==> users[id].miles == NetChange(txs, id)
  }

  /** The user table and the log agree: rows well-formed, log in order, balances accounted for. */
  ghost predicate LedgerValid(users: Users, txs: seq<Tx>, nextTxId: nat, now: nat) {
    && UsersValid(users, now)
    && LogValid(txs, users, nextTxId, now)
    && LogAccountsForBalances(txs, users)
  }

  lemma NetChangeAppend(txs: seq<Tx>, t: Tx, userId: string)
    ensures NetChange(txs + [t], userId) == NetChange(txs, userId) + (if t.userId == userId then Effect(t) else 0)
  {
    assert (txs + [t])[..|txs|] == txs;
  }

  /** A user the log never mentions has no net change. */
  lemma {:induction false} NetChangeOfAbsent(txs: seq<Tx>, userId: string)
    requires forall i :: 0 <= i < |txs| ==> txs[i].userId != userId
    ensures NetChange(txs, userId) == 0
  {
    if txs != [] {
      NetChangeOfAbsent(txs[..|txs| - 1], userId);
    }
  }

  /** Ids strictly increase along the log, so no row is logged twice. */
  lemma LogValidDistinct(txs: seq<Tx>, users: Users, nextTxId: nat, now: nat)
    requires LogValid(txs, users, nextTxId, now)
    ensures Distinct(txs)
  {
  }

  /** Writing one well-formed row keeps the user table well-formed. */
  lemma UsersUpdate(users: Users, now: nat, user: User)
    requires UsersValid(users, now)
    requires user.miles >= 0 && user.createdAt <= user.updatedAt <= now
    ensures UsersValid(users[user.userId := user], now)
  {
  }

  /** Appending a row stamped `now` with the next id, for an existing user, keeps the log in order. */
  lemma LogAppend(txs: seq<Tx>, users: Users, users': Users, nextTxId: nat, now: nat, t: Tx)
    requires LogValid(txs, users, nextTxId, now)
    requires users'.Keys == users.Keys
    requires t.id == nextTxId && t.userId in users && t.timestamp == now
    ensures LogValid(txs + [t], users', nextTxId + 1, now)
  {
    var txs' := txs + [t];
    forall i | 0 <= i < |txs'| ensures txs'[i].id < nextTxId + 1 && txs'[i].userId in users' && txs'[i].timestamp <= now {
      if i < |txs| {
        assert txs'[i] == txs[i];
      }
    }
    forall i, j | 0 <= i < j < |txs'| ensures txs'[i].id < txs'[j].id && txs'[i].timestamp <= txs'[j].timestamp {
      assert txs'[i] == txs[i];
      if j < |txs| {
        assert txs'[j] == txs[j];
      }
    }
  }

  /** Logging `t` while moving its user's balance by `Effect(t)` keeps the log accounting for every balance. */
  lemma AccountsAppend(txs: seq<Tx>, users: Users, t: Tx, user: User)
    requires LogAccountsForBalances(txs, users)
    requires t.userId in users && user.miles == users[t.userId].miles + Effect(t)
    ensures LogAccountsForBalances(txs + [t], users[t.userId := user])
  {
    forall id | id in users[t.userId := user] ensures users[t.userId := user][id].miles == NetChange(txs + [t], id) {
      NetChangeAppend(txs, t, id);
    }
  }

  /**
   * One committed balance change, the row rewritten and the log entry appended
   * together, keeps every table invariant at once.
   */
  lemma CommitKeepsTables(users: Users, txs: seq<Tx>, nextTxId: nat, now: nat, t: Tx, user: User)
    requires LedgerValid(users, txs, nextTxId, now)
    requires t.id == nextTxId && t.userId in users && t.timestamp == now
    requires user == users[t.userId].(miles := user.miles, updatedAt := now)
    requires user.miles >= 0 && user.miles == users[t.userId].miles + Effect(t)
    ensures LedgerValid(users[t.userId := user], txs + [t], nextTxId + 1, now)
  {
    UsersUpdate(users, now, user);
    LogAppend(txs, users, users[t.userId := user], nextTxId, now, t);
    AccountsAppend(txs, users, t, user);
  }

  // ---------------------------------------------------------------------------
  // Point reads

  /**
   * `isStaff`: `SELECT ... WHERE user_id = ?` finds a row. On a roster keyed by
   * its rows' ids that is the same as some row holding the id.
   */
  predicate IsStaff(staff: Roster, userId: string)
    ensures (forall id :: id in staff ==> staff[id].userId == id) ==>
              (IsStaff(staff, userId) <==> exists m :: m in staff.Values && m.userId == userId)
  {
    assert userId in staff ==> staff[userId] in staff.Values;
    userId in staff
  }

  /**
   * `getUserMiles`: the row `SELECT * ... WHERE user_id = ?` finds, if any. On
   * a table keyed by its rows' ids that is the one row holding the id.
   */
  function GetUserMiles(users: Users, userId: string): (r: Option<User>)
    ensures (forall id :: id in users ==> users[id].userId == id) ==>
              (r.None? <==> forall u :: u in users.Values ==> u.userId != userId) &&
              (r.Some? ==> r.value in users.Values && r.value.userId == userId)
  {
    assert userId in users ==> users[userId] in users.Values;
    if userId in users then Some(users[userId]) else None
  }

  /** The balance the store holds for `userId`; a user without a row has none, which reads as 0. */
  function Balance(users: Users, userId: string): int {
    if userId in users then users[userId].miles else 0
  }

  // ---------------------------------------------------------------------------
  // Scans

  /** Some order in which a table scan visits the keys of a table. */
  ghost function ScanOrder(keys: set<string>): (r: seq<string>)
    ensures |r| == |keys| && Distinct(r)
    ensures forall k :: k in r <==> k in keys
    decreases |keys|
  {
    if keys == {} then []
    else
      var k :| k in keys;
      var rest := ScanOrder(keys - {k});
      [k] + rest
  }

  function StandingOf(users: Users, id: string): Standing
    requires id in users
  {
    Standing(id, users[id].username, users[id].miles)
  }

  /** `WHERE miles > 0`, over the users `ids` lists. */
  function Earners(users: Users, ids: seq<string>): (r: seq<Standing>)
    requires forall k :: k in ids ==> k in users
    ensures forall x :: x in r ==> x.userId in ids && x.userId in users && users[x.userId].miles > 0 && x == StandingOf(users, x.userId)
    ensures forall id :: id in ids && users[id].miles > 0 ==> StandingOf(users, id) in r
    ensures Distinct(ids) ==> Distinct(r)
  {
    if ids == [] then []
    else
      var rest := Earners(users, ids[1..]);
      if users[ids[0]].miles > 0 then [StandingOf(users, ids[0])] + rest else rest
  }

  /** `ORDER BY miles DESC`. */
  predicate MostMilesFirst(a: Standing, b: Standing) {
    a.miles >= b.miles
  }

  /**
   * `getLeaderboard(limit)`: at most `limit` users with a positive balance, most
   * miles first, each at most once and as the table holds it; a user with
   * positive miles left out means the board is full of users with at least as
   * many miles.
   */
  ghost function Leaderboard(users: Users, limit: nat): (r: seq<Standing>)
    ensures |r| <= limit
    ensures forall i :: 0 <= i < |r| ==> r[i].userId in users && r[i] == StandingOf(users, r[i].userId) && r[i].miles > 0
    ensures forall i, j :: 0 <= i < j < |r| ==> r[i].miles >= r[j].miles
    ensures forall i, j :: 0 <= i < j < |r| ==> r[i].userId != r[j].userId
    ensures forall id :: id in users && users[id].miles > 0 && (forall i :: 0 <= i < |r| ==> r[i].userId != id) ==>
              |r| == limit && forall i :: 0 <= i < |r| ==> r[i].miles >= users[id].miles
  {
    var earners := Earners(users, ScanOrder(users.Keys));
    MostMilesFirstIsTotalPreorder();
    var r := TopBy(earners, MostMilesFirst, limit);
    LeaderboardRows(users, earners, r, limit);
    LeaderboardOrder(earners, r, limit);
    LeaderboardComplete(users, earners, r, limit);
    r
  }

  lemma MostMilesFirstIsTotalPreorder()
    ensures TotalPreorder(MostMilesFirst)
  {
  }

  lemma LeaderboardRows(users: Users, earners: seq<Standing>, r: seq<Standing>, limit: nat)
    requires TotalPreorder(MostMilesFirst)
    requires earners == Earners(users, ScanOrder(users.Keys))
    requires r == TopBy(earners, MostMilesFirst, limit)
    ensures forall i :: 0 <= i < |r| ==> r[i].userId in users && r[i] == StandingOf(users, r[i].userId) && r[i].miles > 0
    ensures forall i, j :: 0 <= i < j < |r| ==> r[i].userId != r[j].userId
  {
    forall i | 0 <= i < |r|
      ensures r[i].userId in users && r[i] == StandingOf(users, r[i].userId) && r[i].miles > 0
    {
      assert r[i] in r;
    }
    forall i, j | 0 <= i < j < |r| ensures r[i].userId != r[j].userId {
      assert Distinct(r);
      assert r[i] in r && r[j] in r;
    }
  }

  lemma LeaderboardOrder(earners: seq<Standing>, r: seq<Standing>, limit: nat)
    requires TotalPreorder(MostMilesFirst)
    requires r == TopBy(earners, MostMilesFirst, limit)
    ensures forall i, j :: 0 <= i < j < |r| ==> r[i].miles >= r[j].miles
  {
    forall i, j | 0 <= i < j < |r| ensures r[i].miles >= r[j].miles {
      assert MostMilesFirst(r[i], r[j]);
    }
  }

  lemma LeaderboardComplete(users: Users, earners: seq<Standing>, r: seq<Standing>, limit: nat)
    requires TotalPreorder(MostMilesFirst)
    requires earners == Earners(users, ScanOrder(users.Keys))
    requires r == TopBy(earners, MostMilesFirst, limit)
    ensures forall id :: id in users && users[id].miles > 0 && (forall i :: 0 <= i < |r| ==> r[i].userId != id) ==>
              |r| == limit && forall i :: 0 <= i < |r| ==> r[i].miles >= users[id].miles
  {
    forall id | id in users && users[id].miles > 0 && (forall i :: 0 <= i < |r| ==> r[i].userId != id)
      ensures |r| == limit && forall i :: 0 <= i < |r| ==> r[i].miles >= users[id].miles
    {
      var x := StandingOf(users, id);
      assert x in earners;
      assert x !in r;
      forall i | 0 <= i < |r| ensures r[i].miles >= users[id].miles {
        assert r[i] in r;
        assert MostMilesFirst(r[i], x);
      }
    }
  }

  /** The rows of the log that belong to `userId`, in log order. */
  function TxsOf(txs: seq<Tx>, userId: string): (r: seq<Tx>)
    ensures forall t :: t in r <==> t in txs && t.userId == userId
    ensures Distinct(txs) ==> Distinct(r)
  {
    if txs == [] then []
    else
      var rest := TxsOf(txs[1..], userId);
      assert forall t :: t in txs <==> t == txs[0] || t in txs[1..];
      assert Distinct(txs) ==> txs[0] !in txs[1..] && Distinct(txs[1..]);
      if txs[0].userId == userId then [txs[0]] + rest else rest
  }

  /** `ORDER BY timestamp DESC`. */
  predicate NewestFirst(a: Tx, b: Tx) {
    a.timestamp >= b.timestamp
  }

  lemma NewestFirstIsTotalPreorder()
    ensures TotalPreorder(NewestFirst)
  {
  }

  /**
   * `getUserTransactions(userId, limit)`: at most `limit` of the user's logged
   * transactions, newest first; one left out means the page is full of rows at
   * least as recent.
   */
  function UserTransactions(txs: seq<Tx>, userId: string, limit: nat): (r: seq<Tx>)
    ensures |r| <= limit
    ensures forall i :: 0 <= i < |r| ==> r[i] in txs && r[i].userId == userId
    ensures forall i, j :: 0 <= i < j < |r| ==> r[i].timestamp >= r[j].timestamp
    ensures forall t :: t in txs && t.userId == userId && t !in r ==>
              |r| == limit && forall i :: 0 <= i < |r| ==> r[i].timestamp >= t.timestamp
    ensures Distinct(txs) ==> Distinct(r)
  {
    NewestFirstIsTotalPreorder();
    var r := TopBy(TxsOf(txs, userId), NewestFirst, limit);
    HistoryOrder(txs, userId, r, limit);
    HistoryComplete(txs, userId, r, limit);
    r
  }

  lemma HistoryOrder(txs: seq<Tx>, userId: string, r: seq<Tx>, limit: nat)
    requires TotalPreorder(NewestFirst)
    requires r == TopBy(TxsOf(txs, userId), NewestFirst, limit)
    ensures forall i, j :: 0 <= i < j < |r| ==> r[i].timestamp >= r[j].timestamp
  {
    forall i, j | 0 <= i < j < |r| ensures r[i].timestamp >= r[j].timestamp {
      assert NewestFirst(r[i], r[j]);
    }
  }

  lemma HistoryComplete(txs: seq<Tx>, userId: string, r: seq<Tx>, limit: nat)
    requires TotalPreorder(NewestFirst)
    requires r == TopBy(TxsOf(txs, userId), NewestFirst, limit)
    ensures forall t :: t in txs && t.userId == userId && t !in r ==>
              |r| == limit && forall i :: 0 <= i < |r| ==> r[i].timestamp >= t.timestamp
  {
    forall t | t in txs && t.userId == userId && t !in r
      ensures |r| == limit && forall i :: 0 <= i < |r| ==> r[i].timestamp >= t.timestamp
    {
      forall i | 0 <= i < |r| ensures r[i].timestamp >= t.timestamp {
        assert r[i] in r;
        assert NewestFirst(r[i], t);
      }
    }
  }

  /** `transactions JOIN users`: each row whose user exists, with that user's current username. */
  function Joined(users: Users, txs: seq<Tx>): (r: seq<FeedRow>)
    ensures forall row :: row in r <==> row.tx in txs && row.tx.userId in users && row.username == users[row.tx.userId].username
    ensures (forall i :: 0 <= i < |txs| ==> txs[i].userId in users) ==> |r| == |txs|
    ensures Distinct(txs) ==> Distinct(r)
  {
    if txs == [] then []
    else
      var rest := Joined(users, txs[1..]);
      assert forall t :: t in txs <==> t == txs[0] || t in txs[1..];
      assert Distinct(txs) ==> txs[0] !in txs[1..] && Distinct(txs[1..]);
      if txs[0].userId in users then [FeedRow(txs[0], users[txs[0].userId].username)] + rest else rest
  }

  predicate NewestRowFirst(a: FeedRow, b: FeedRow) {
    a.tx.timestamp >= b.tx.timestamp
  }

  lemma NewestRowFirstIsTotalPreorder()
    ensures TotalPreorder(NewestRowFirst)
  {
  }

  /**
   * `getAllTransactions(limit)`: the global feed, at most `limit` rows, newest
   * first, each with its user's current username; when every row's user exists
   * the join drops nothing.
   */
  function AllTransactions(users: Users, txs: seq<Tx>, limit: nat): (r: seq<FeedRow>)
    ensures |r| <= limit
    ensures forall i :: 0 <= i < |r| ==>
              r[i].tx in txs && r[i].tx.userId in users && r[i].username == users[r[i].tx.userId].username
    ensures forall i, j :: 0 <= i < j < |r| ==> r[i].tx.timestamp >= r[j].tx.timestamp
    ensures forall t :: t in txs && t.userId in users && (forall i :: 0 <= i < |r| ==> r[i].tx != t) ==>
              |r| == limit && forall i :: 0 <= i < |r| ==> r[i].tx.timestamp >= t.timestamp
    ensures (forall i :: 0 <= i < |txs| ==> txs[i].userId in users) ==> |r| == if |txs| <= limit then |txs| else limit
    ensures Distinct(txs) ==> forall i, j :: 0 <= i < j < |r| ==> r[i].tx != r[j].tx
  {
    var joined := Joined(users, txs);
    NewestRowFirstIsTotalPreorder();
    var r := TopBy(joined, NewestRowFirst, limit);
    FeedRows(users, txs, joined, r, limit);
    FeedComplete(users, txs, joined, r, limit);
    r
  }

  lemma FeedRows(users: Users, txs: seq<Tx>, joined: seq<FeedRow>, r: seq<FeedRow>, limit: nat)
    requires TotalPreorder(NewestRowFirst)
    requires joined == Joined(users, txs)
    requires r == TopBy(joined, NewestRowFirst, limit)
    ensures forall i :: 0 <= i < |r| ==>
              r[i].tx in txs && r[i].tx.userId in users && r[i].username == users[r[i].tx.userId].username
    ensures forall i, j :: 0 <= i < j < |r| ==> r[i].tx.timestamp >= r[j].tx.timestamp
  {
    forall i | 0 <= i < |r|
      ensures r[i].tx in txs && r[i].tx.userId in users && r[i].username == users[r[i].tx.userId].username
    {
      assert r[i] in r;
    }
    forall i, j | 0 <= i < j < |r| ensures r[i].tx.timestamp >= r[j].tx.timestamp {
      assert NewestRowFirst(r[i], r[j]);
    }
  }

  lemma FeedComplete(users: Users, txs: seq<Tx>, joined: seq<FeedRow>, r: seq<FeedRow>, limit: nat)
    requires TotalPreorder(NewestRowFirst)
    requires joined == Joined(users, txs)
    requires r == TopBy(joined, NewestRowFirst, limit)
    ensures forall t :: t in txs && t.userId in users && (forall i :: 0 <= i < |r| ==> r[i].tx != t) ==>
              |r| == limit && forall i :: 0 <= i < |r| ==> r[i].tx.timestamp >= t.timestamp
  {
    forall t | t in txs && t.userId in users && (forall i :: 0 <= i < |r| ==> r[i].tx != t)
      ensures |r| == limit && forall i :: 0 <= i < |r| ==> r[i].tx.timestamp >= t.timestamp
    {
      var row := FeedRow(t, users[t.userId].username);
      assert row in joined;
      assert row !in r;
      forall i | 0 <= i < |r| ensures r[i].tx.timestamp >= t.timestamp {
        assert r[i] in r;
        assert NewestRowFirst(r[i], row);
      }
    }
  }

  /** `ORDER BY username` (BINARY collation). */
  predicate ByUsername(a: StaffMember, b: StaffMember) {
    LexLeq(a.username, b.username)
  }

  lemma ByUsernameIsTotalPreorder()
    ensures TotalPreorder(ByUsername)
  {
    forall a: StaffMember, b: StaffMember ensures ByUsername(a, b) || ByUsername(b, a) {
      LexLeqTotal(a.username, b.username);
    }
    forall a: StaffMember, b: StaffMember, c: StaffMember | ByUsername(a, b) && ByUsername(b, c)
      ensures ByUsername(a, c)
    {
      LexLeqTransitive(a.username, b.username, c.username);
    }
  }

  /** The roster rows, one per listed id. */
  function RosterRows(staff: Roster, ids: seq<string>): (rows: seq<StaffMember>)
    requires forall k :: k in ids <==> k in staff
    ensures |rows| == |ids|
    ensures forall m :: m in rows <==> m in staff.Values
  {
    var rows := seq(|ids|, i requires 0 <= i < |ids| => staff[ids[i]]);
    assert forall m :: m in staff.Values ==> m in rows by {
      forall m | m in staff.Values ensures m in rows {
        var k :| k in staff && staff[k] == m;
        var i :| 0 <= i < |ids| && ids[i] == k;
        assert rows[i] == m;
      }
    }
    rows
  }

  /** `getAllStaff`: every roster row exactly once, ascending by username. */
  ghost function AllStaff(staff: Roster): (r: seq<StaffMember>)
    ensures |r| == |staff|
    ensures forall m :: m in r <==> m in staff.Values
    ensures forall i, j :: 0 <= i < j < |r| ==> LexLeq(r[i].username, r[j].username)
  {
    var rows := RosterRows(staff, ScanOrder(staff.Keys));
    ByUsernameIsTotalPreorder();
    var r := SortBy(rows, ByUsername);
    SameElements(rows, r);
    assert forall i, j :: 0 <= i < j < |r| ==> LexLeq(r[i].username, r[j].username) by {
      forall i, j | 0 <= i < j < |r| ensures LexLeq(r[i].username, r[j].username) {
        assert ByUsername(r[i], r[j]);
      }
    }
    r
  }

  // ---------------------------------------------------------------------------
  // Aggregates

  /** `SUM(miles)` over a non-empty table; 0 over an empty one. */
  ghost function TotalMiles(users: Users): int
    decreases |users|
  {
    if users == map[] then 0
    else
      var k :| k in users;
      assert (users - {k}).Keys < users.Keys;
      users[k].miles + TotalMiles(users - {k})
  }

  /** The sum does not depend on the order of the scan: any row can be taken first. */
  lemma {:induction false} TotalMilesRemove(users: Users, k: string)
    requires k in users
    ensures TotalMiles(users) == users[k].miles + TotalMiles(users - {k})
    decreases |users|
  {
    var j :| j in users && TotalMiles(users) == users[j].miles + TotalMiles(users - {j});
    if j != k {
      assert (users - {j}).Keys < users.Keys;
      assert (users - {k}).Keys < users.Keys;
      TotalMilesRemove(users - {j}, k);
      TotalMilesRemove(users - {k}, j);
      assert users - {j} - {k} == users - {k} - {j};
    }
  }

  /** Replacing one user's row moves the total by exactly the change in that user's balance. */
  lemma TotalMilesUpdate(users: Users, k: string, u: User)
    ensures TotalMiles(users[k := u]) == TotalMiles(users) - Balance(users, k) + u.miles
  {
    TotalMilesRemove(users[k := u], k);
    if k in users {
      TotalMilesRemove(users, k);
      assert users[k := u] - {k} == users - {k};
    } else {
      assert users[k := u] - {k} == users;
    }
  }

  /** With no negative balance the total covers every single balance. */
  lemma {:induction false} TotalMilesCovers(users: Users, k: string)
    requires forall id :: id in users ==> users[id].miles >= 0
    requires k in users
    ensures TotalMiles(users) >= users[k].miles >= 0
    decreases |users|
  {
    TotalMilesRemove(users, k);
    TotalMilesNonNegative(users - {k});
  }

  lemma {:induction false} TotalMilesNonNegative(users: Users)
    requires forall id :: id in users ==> users[id].miles >= 0
    ensures TotalMiles(users) >= 0
    decreases |users|
  {
    if users != map[] {
      var k :| k in users;
      TotalMilesRemove(users, k);
      assert (users - {k}).Keys < users.Keys;
      TotalMilesNonNegative(users - {k});
    }
  }

  /** `MAX(miles)`: NULL over no rows, otherwise a balance that no balance exceeds. */
  ghost function MaxMiles(users: Users): (r: Option<int>)
    ensures r.None? <==> users == map[]
    ensures r.Some? ==> (exists k :: k in users && users[k].miles == r.value)
    ensures r.Some? ==> forall k :: k in users ==> users[k].miles <= r.value
    decreases |users|
  {
    if users == map[] then None
    else
      var k :| k in users;
      assert (users - {k}).Keys < users.Keys;
      var rest := MaxMiles(users - {k});
      assert forall id :: id in users ==> id == k || id in users - {k};
      match rest
      case None => Some(users[k].miles)
      case Some(m) => Some(if users[k].miles >= m then users[k].miles else m)
  }

  /**
   * `getStats` without the average: the number of users, and the sum and the
   * maximum of their balances, both NULL when there are no users; with no
   * negative balance the sum is at least the maximum.
   */
  ghost function GetStats(users: Users): (s: Stats)
    ensures s.totalUsers == |users|
    ensures s.totalMiles.None? <==> users == map[]
    ensures s.totalMiles.Some? ==> s.totalMiles.value == TotalMiles(users)
    ensures s.maxMiles == MaxMiles(users)
    ensures (forall id :: id in users ==> users[id].miles >= 0) && s.totalMiles.Some? ==>
              s.maxMiles.Some? && s.totalMiles.value >= s.maxMiles.value >= 0
  {
    var max := MaxMiles(users);
    if users == map[] then Stats(0, None, max)
    else
      assert (forall id :: id in users ==> users[id].miles >= 0) ==> TotalMiles(users) >= max.value >= 0 by {
        if forall id :: id in users ==> users[id].miles >= 0 {
          var k :| k in users && users[k].miles == max.value;
          TotalMilesCovers(users, k);
        }
      }
      Stats(|users|, Some(TotalMiles(users)), max)
  }
}
