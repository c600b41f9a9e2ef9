/**
 * `MilesDatabase` (database.js): the store object. Its fields hold the three
 * tables, the next `AUTOINCREMENT` id and the clock that `CURRENT_TIMESTAMP`
 * reads. Each mutating operation body of the source runs inside
 * `db.transaction(...)`, so a thrown error undoes everything the body did; the
 * methods below model that as a failure result with the tables left as they were.
 */
module Database {
  import opened Wrappers
  import opened Text
  import opened Ledger

  /** The error `deductMiles` throws, carrying the balance found and the amount asked for. */
  datatype DeductError = InsufficientMiles(balance: int, requested: int) {
    function Message(): string {
      "Insufficient miles. User has " + IntToString(balance) + " miles but tried to deduct " + IntToString(requested) + "."
    }
  }

  /** The `reason` `setMiles` records: "Set from <old> to <new>". */
  function SetReason(oldMiles: int, newMiles: int): string {
    "Set from " + IntToString(oldMiles) + " to " + IntToString(newMiles)
  }

  /** The error text names both numbers recoverably: different errors read differently. */
  lemma DeductMessageInjective(e: DeductError, f: DeductError)
    requires e.Message() == f.Message()
    ensures e == f
  {
    var p, m, q := "Insufficient miles. User has ", " miles but tried to deduct ", ".";
    assert e.Message() == p + IntToString(e.balance) + m + IntToString(e.requested) + q;
    assert f.Message() == p + IntToString(f.balance) + m + IntToString(f.requested) + q;
    TwoNumbersInjective(p, m, q, e.balance, e.requested, f.balance, f.requested);
  }

  /** The logged reason of a 'set' determines both the old and the new balance. */
  lemma SetReasonInjective(oldMiles: int, newMiles: int, oldMiles': int, newMiles': int)
    requires SetReason(oldMiles, newMiles) == SetReason(oldMiles', newMiles')
    ensures oldMiles == oldMiles' && newMiles == newMiles'
  {
    var p, m := "Set from ", " to ";
    assert SetReason(oldMiles, newMiles) == p + IntToString(oldMiles) + m + IntToString(newMiles) + "";
    assert SetReason(oldMiles', newMiles') == p + IntToString(oldMiles') + m + IntToString(newMiles') + "";
    TwoNumbersInjective(p, m, "", oldMiles, newMiles, oldMiles', newMiles');
  }

  /** A second write to the same key replaces the first. */
  lemma UpdateTwice(m: Users, k: string, first: User, second: User)
    ensures m[k := first][k := second] == m[k := second]
  {
  }

  /** The row `getOrCreateUser` leaves for `userId`: the old row under the new username, or a new empty one. */
  function Touched(users: Users, userId: string, username: string, now: nat): User {
    if userId in users then users[userId].(username := username) else User(userId, username, 0, now, now)
  }

  /** Everything a `MilesDatabase` holds, as one value. */
  datatype Store = Store(users: Users, transactions: seq<Tx>, nextTxId: nat, staff: Roster, now: nat)

  class MilesDatabase {
    var users: Users
    var transactions: seq<Tx>
    var nextTxId: nat
    var staff: Roster
    /** The clock `CURRENT_TIMESTAMP` reads; it only moves forward. */
    var now: nat

    ghost function Contents(): Store
      reads this
    {
      Store(users, transactions, nextTxId, staff, now)
    }

    ghost predicate Valid()
      reads this
    {
      && LedgerValid(users, transactions, nextTxId, now)
      && RosterValid(staff, now)
    }

    /** A fresh database: empty tables, ids starting at 1. */
    constructor (start: nat)
      ensures Valid()
      ensures users == map[] && transactions == [] && staff == map[]
      ensures nextTxId == 1 && now == start
    {
      users, transactions, staff := map[], [], map[];
      nextTxId, now := 1, start;
    }

    /** An existing database file opened again: every stored row, and the id counter where it stopped. */
    constructor Open(stored: Store)
      requires LedgerValid(stored.users, stored.transactions, stored.nextTxId, stored.now)
      requires RosterValid(stored.staff, stored.now)
      ensures Valid()
      ensures Contents() == stored
    {
      users, transactions, nextTxId := stored.users, stored.transactions, stored.nextTxId;
      staff, now := stored.staff, stored.now;
    }

    /** Time passes between calls. */
    method Tick(elapsed: nat)
      requires Valid()
      modifies this
      ensures Valid()
      ensures now == old(now) + elapsed
      ensures users == old(users) && transactions == old(transactions) && nextTxId == old(nextTxId) && staff == old(staff)
    {
      now := now + elapsed;
    }

    /** `addStaff`: INSERT OR REPLACE, so the id ends up with one row holding the latest username and a new `added_at`. */
    method AddStaff(userId: string, username: string)
      requires Valid()
      modifies this
      ensures Valid()
      ensures staff == old(staff)[userId := StaffMember(userId, username, now)]
      ensures IsStaff(staff, userId)
      ensures users == old(users) && transactions == old(transactions) && nextTxId == old(nextTxId) && now == old(now)
    {
      staff := staff[userId := StaffMember(userId, username, now)];
    }

    /** `removeStaff`: DELETE by id; deleting an id with no row changes nothing. */
    method RemoveStaff(userId: string)
      requires Valid()
      modifies this
      ensures Valid()
      ensures staff == old(staff) - {userId}
      ensures !IsStaff(staff, userId)
      ensures !IsStaff(old(staff), userId) ==> staff == old(staff)
      ensures users == old(users) && transactions == old(transactions) && nextTxId == old(nextTxId) && now == old(now)
    {
      staff := staff - {userId};
    }

    /**
     * `getOrCreateUser`: a new id gets a row with 0 miles and the given
     * username; a known id keeps its miles and gets the given username. The row
     * returned is the one read before that update.
     */
    method GetOrCreateUser(userId: string, username: string) returns (user: User)
      requires Valid()
      modifies this
      ensures Valid()
      ensures users == old(users)[userId := Touched(old(users), userId, username, now)]
      ensures userId in old(users) ==> user == old(users)[userId]
      ensures userId !in old(users) ==> user == User(userId, username, 0, now, now)
      ensures user.miles == Balance(old(users), userId)
      ensures transactions == old(transactions) && nextTxId == old(nextTxId) && staff == old(staff) && now == old(now)
    {
      if userId in users {
        user := users[userId];
        users := users[userId := user.(username := username)];
      } else {
        NetChangeOfAbsent(transactions, userId);
        users := users[userId := User(userId, username, 0, now, now)];
        user := users[userId];
      }
    }

    /** The user row and the log entry that one committed balance change leaves. */
    method Commit(userId: string, miles: int, amount: int, kind: TxType, reason: string,
                  staffId: string, staffUsername: string) returns (user: User)
      requires Valid()
      requires userId in users && miles >= 0
      requires miles == users[userId].miles + Effect(Tx(nextTxId, userId, amount, kind, reason, staffId, staffUsername, now))
      modifies this
      ensures Valid()
      ensures user == old(users)[userId].(miles := miles, updatedAt := now)
      ensures users == old(users)[userId := user]
      ensures transactions == old(transactions) + [Tx(old(nextTxId), userId, amount, kind, reason, staffId, staffUsername, now)]
      ensures nextTxId == old(nextTxId) + 1
      ensures staff == old(staff) && now == old(now)
    {
      var t := Tx(nextTxId, userId, amount, kind, reason, staffId, staffUsername, now);
      user := users[userId].(miles := miles, updatedAt := now);
      CommitKeepsTables(users, transactions, nextTxId, now, t, user);
      users, transactions, nextTxId := users[userId := user], transactions + [t], nextTxId + 1;
    }

    /**
     * `addMiles`: the user (created if new) gains `amount` miles and the log
     * gains one 'add' row; nothing else changes. Amounts below 1 are refused
     * before the store is called.
     */
    method AddMiles(userId: string, username: string, amount: int, reason: string,
                    staffId: string, staffUsername: string) returns (user: User)
      requires Valid() && amount >= 1
      modifies this
      ensures Valid()
      ensures userId in users && user == users[userId]
      ensures user.miles == Balance(old(users), userId) + amount
      ensures users == old(users)[userId := Touched(old(users), userId, username, now).(miles := user.miles, updatedAt := now)]
      ensures transactions == old(transactions) + [Tx(old(nextTxId), userId, amount, Add, reason, staffId, staffUsername, now)]
      ensures nextTxId == old(nextTxId) + 1
      ensures staff == old(staff) && now == old(now)
      ensures TotalMiles(users) == TotalMiles(old(users)) + amount
    {
      var before := GetOrCreateUser(userId, username);
      ghost var touched := users[userId];
      assert touched == Touched(old(users), userId, username, now) && touched.miles == before.miles;
      user := Commit(userId, before.miles + amount, amount, Add, reason, staffId, staffUsername);
      assert user == touched.(miles := user.miles, updatedAt := now);
      UpdateTwice(old(users), userId, touched, user);
      TotalMilesUpdate(old(users), userId, user);
    }

    /**
     * `deductMiles`: with fewer miles than `amount` it fails with both numbers
     * and the rollback leaves every table as it was (no user row is created);
     * otherwise the balance drops by exactly `amount`, staying non-negative,
     * and the log gains one 'deduct' row holding the positive amount.
     */
    method DeductMiles(userId: string, username: string, amount: int, reason: string,
                       staffId: string, staffUsername: string) returns (result: Result<User, DeductError>)
      requires Valid() && amount >= 1
      modifies this
      ensures Valid()
      ensures result.Failure? <==> Balance(old(users), userId) < amount
      ensures result.Failure? ==>
                && result.error == InsufficientMiles(Balance(old(users), userId), amount)
                && Contents() == old(Contents())
      ensures result.Success? ==>
                && userId in old(users)
                && userId in users && result.value == users[userId]
                && result.value.miles == old(users)[userId].miles - amount >= 0
                && users == old(users)[userId := old(users)[userId].(username := username, miles := result.value.miles, updatedAt := now)]
                && transactions == old(transactions) + [Tx(old(nextTxId), userId, amount, Deduct, reason, staffId, staffUsername, now)]
                && nextTxId == old(nextTxId) + 1
                && TotalMiles(users) == TotalMiles(old(users)) - amount
      ensures staff == old(staff) && now == old(now)
    {
      var saved := users;
      var before := GetOrCreateUser(userId, username);
      if before.miles < amount {
        // The throw inside db.transaction rolls back the row getOrCreateUser wrote.
        users := saved;
        return Failure(InsufficientMiles(before.miles, amount));
      }
      ghost var touched := users[userId];
      assert touched == old(users)[userId].(username := username) && touched.miles == before.miles;
      var user := Commit(userId, before.miles - amount, amount, Deduct, reason, staffId, staffUsername);
      assert user == touched.(miles := user.miles, updatedAt := now);
      UpdateTwice(old(users), userId, touched, user);
      TotalMilesUpdate(old(users), userId, user);
      return Success(user);
    }

    /**
     * `setMiles`: the balance becomes exactly `amount` whatever it was, with no
     * balance check; the log gains one 'set' row holding the signed difference
     * and the reason "Set from <old> to <new>".
     */
    method SetMiles(userId: string, username: string, amount: int, staffId: string, staffUsername: string)
      returns (user: User)
      requires Valid() && amount >= 0
      modifies this
      ensures Valid()
      ensures userId in users && user == users[userId] && user.miles == amount
      ensures users == old(users)[userId := Touched(old(users), userId, username, now).(miles := amount, updatedAt := now)]
      ensures transactions == old(transactions) +
                [Tx(old(nextTxId), userId, amount - Balance(old(users), userId), Set,
                    SetReason(Balance(old(users), userId), amount), staffId, staffUsername, now)]
      ensures nextTxId == old(nextTxId) + 1
      ensures staff == old(staff) && now == old(now)
      ensures TotalMiles(users) == TotalMiles(old(users)) - Balance(old(users), userId) + amount
    {
      var before := GetOrCreateUser(userId, username);
      var oldMiles := before.miles;
      assert oldMiles == Balance(old(users), userId);
      ghost var touched := users[userId];
      assert touched == Touched(old(users), userId, username, now) && touched.miles == oldMiles;
      var reason := SetReason(oldMiles, amount);
      ghost var logged := Tx(nextTxId, userId, amount - oldMiles, Set, reason, staffId, staffUsername, now);
      assert logged == Tx(old(nextTxId), userId, amount - Balance(old(users), userId), Set,
                          SetReason(Balance(old(users), userId), amount), staffId, staffUsername, now);
      ghost var log := transactions;
      user := Commit(userId, amount, amount - oldMiles, Set, reason, staffId, staffUsername);
      assert transactions == log + [logged];
      assert user == touched.(miles := amount, updatedAt := now);
      UpdateTwice(old(users), userId, touched, user);
      TotalMilesUpdate(old(users), userId, user);
    }
  }
}
