# Miles ledger: a Dafny model

A model of the ledger behind a chat bot that keeps a "flying miles" balance per
user. It covers the `MilesDatabase` store (database.js) and the parts of the
command handlers (index.js) that decide what the store is asked to do.

The store keeps three tables:

- `users`: one row per user with an integer `miles` balance;
- `transactions`: an append-only audit log;
- `staff`: the staff roster.

Three operations change balances: `addMiles`, `deductMiles` and `setMiles`.
Each runs its whole body inside one SQLite transaction, so it either commits
completely or leaves nothing behind. The handlers gate these operations:

- staff membership gates `/add`, `/deduct`, `/set`, `/stats` and viewing another
  user's `/history`;
- the platform's Administrator flag alone gates `/addstaff` and `/removestaff`.

Files and modules:

- `wrappers.dfy` (`Wrappers`): `Option` and `Result`.
- `text.dfy` (`Text`): decimal rendering of numbers, as `toString` gives it.
  Also the lexicographic string order that `ORDER BY username` uses.
- `sorting.dfy` (`Sorting`): `ORDER BY … LIMIT n` as an insertion sort by a
  total preorder followed by a prefix. Includes the "top n" lemma.
- `ledger.dfy` (`Ledger`): the row types and the table invariants. Also the
  read-only queries, written as functions of the table values.
- `database.dfy` (`Database`): the class `MilesDatabase`. Its fields are the
  tables, the next transaction id and a clock. Its methods are the mutating
  operations.
- `format.dfy` (`Format`): `formatNumber`.
- `commands.dfy` (`Commands`): permission gates, option defaults and the
  handlers' store calls.

The object invariant `MilesDatabase.Valid()` holds these things:

- the users map and the roster map are keyed by their rows' ids, so a lookup
  by key finds the row carrying that id;
- every balance is non-negative;
- every row's timestamps are no later than the clock: a user's `created_at`
  is at most its `updated_at`, and no log row or roster row is stamped later
  than `now`;
- the log is in id and timestamp order, and every id is below the next id;
- every log row refers to an existing user;
- replaying a user's log rows gives exactly that user's balance.

For replay, 'add' counts `+amount`, 'deduct' counts `−amount` and 'set' counts
its stored signed difference. Every mutating method keeps this invariant. Every
method and every command handler also states its whole new state: all five
fields, on every branch. In particular, none of them rewrites or deletes a log
row: each one leaves `transactions` as it was or appends one row.

`CURRENT_TIMESTAMP` reads the field `now`. Only `Tick` changes it, and only
forward.

Points where the code's behaviour is easy to mistake:

- The store does not check amounts at all. Amounts are bounded only by the
  command options (≥ 1 for add and deduct, ≥ 0 for set, index.js:87-125).
  These bounds are `requires` clauses here.
- `ORDER BY miles DESC` fixes no order among equal balances. `ORDER BY timestamp
  DESC` fixes none among equal timestamps. The contracts promise only the
  ordering the SQL states: no insertion-order or id tie-break.
- `getOrCreateUser` on a known user returns the row as read before the username
  update. It does not return the refreshed row.
- A missing user is not an error. `getUserMiles` gives no row and `/miles`
  shows 0.

## Model

| member | source | states |
|---|---|---|
| `Database.MilesDatabase.constructor` | database.js:5-9 | A store opened on a new file has empty tables and transaction ids start at 1. |
| `Database.MilesDatabase.Open` | database.js:7-38 | A store opened on an existing file keeps every stored row and the id counter where it stopped (`CREATE TABLE IF NOT EXISTS`, AUTOINCREMENT), given any stored state that meets the invariant. |
| `Database.MilesDatabase.Tick` | database.js:30 | The clock behind `CURRENT_TIMESTAMP` only moves forward, and nothing else changes. |
| `Database.MilesDatabase.AddStaff` | database.js:49-55 | INSERT OR REPLACE: the id gets exactly one roster row with the latest username and a fresh `added_at`. `isStaff` then holds, and the other tables are unchanged. |
| `Database.MilesDatabase.RemoveStaff` | database.js:57-60 | The id's roster row is removed and `isStaff` no longer holds. Removing a non-member changes nothing. |
| `Database.MilesDatabase.GetOrCreateUser` | database.js:73-93 | An unknown id gets a row with 0 miles and the given username. A known id keeps its miles and takes the new username. The row returned is the one read before the update, and the log and roster are untouched. |
| `Database.MilesDatabase.Commit` | database.js:101-118 | One committed balance change: the row gets the new miles and `updated_at`, and exactly one log row is appended with the next id and the current time. |
| `Database.MilesDatabase.AddMiles` | database.js:96-122 | The balance becomes the old balance (0 for a new user) plus `amount`. Exactly one 'add' row with the reason and the actor is appended. Other users and the roster are unchanged, and the total of all balances rises by `amount`. |
| `Database.MilesDatabase.DeductMiles` | database.js:124-154 | It fails exactly when the balance is below `amount`, with an error carrying both numbers. On failure the rollback leaves the whole store as it was, so no row is created. On success the user already existed, the balance drops by exactly `amount` and stays ≥ 0, and one 'deduct' row holding the positive amount is appended. |
| `Database.MilesDatabase.SetMiles` | database.js:156-184 | The balance becomes exactly `amount` whatever it was, with no balance check. One 'set' row is appended holding `amount − old balance` and the reason "Set from <old> to <new>". |
| `Ledger.LogAppend` | database.js:110-114 | Appending a row with the next id and the current time, for an existing user, keeps the log in id and timestamp order and keeps the foreign key. |
| `Ledger.AccountsAppend` | database.js:101-114 | Moving a balance by a row's effect while appending that row keeps every balance equal to the replay of its user's log rows. |
| `Ledger.NetChangeAppend` | database.js:110-114 | Appending a row changes the replay of its own user by the row's effect and leaves other users' replay as it was. |
| `Ledger.NetChangeOfAbsent` | database.js:77-82 | A user the log never mentions replays to 0, the balance a new row starts with. |
| `Ledger.Leaderboard` | database.js:192-201 | At most `limit` rows. Every row is a user with miles > 0, as stored. Rows run in non-increasing miles and no user appears twice. A user with positive miles left out means the board is full of users with at least as many miles. |
| `Ledger.LeaderboardRows` | database.js:194-196 | Leaderboard rows are stored users with positive miles, each at most once. |
| `Ledger.LeaderboardOrder` | database.js:197 | Leaderboard rows run in non-increasing miles. |
| `Ledger.LeaderboardComplete` | database.js:196-198 | No user with positive miles is left out unless the board is full of users with at least as many. |
| `Ledger.Earners` | database.js:196 | `WHERE miles > 0`: exactly the listed users with positive miles, each once when the list has no repeats. |
| `Ledger.UserTransactions` | database.js:203-211 | At most `limit` rows, all the user's own log rows, in non-increasing timestamp order, none twice when the log has no repeats. A row of the user left out means the page is full of rows at least as recent. |
| `Ledger.HistoryOrder` | database.js:207 | History rows run in non-increasing timestamp order. |
| `Ledger.HistoryComplete` | database.js:206-208 | No row of the user is left out of the history unless the page is full of rows at least as recent. |
| `Ledger.TxsOf` | database.js:206 | `WHERE user_id = ?`: exactly the log rows of that user, each once when the log has no repeats. |
| `Ledger.AllTransactions` | database.js:213-222 | At most `limit` rows, newest first, each a logged row with its user's current username, no logged row twice when the log has no repeats. A left-out row means the feed is full of rows at least as recent. When every row's user exists, the join drops nothing. |
| `Ledger.Joined` | database.js:215-217 | The inner join keeps exactly the rows whose user exists, with that user's username. When every row's user exists it keeps them all, and it repeats none the log does not repeat. |
| `Ledger.LogValidDistinct` | database.js:23 | Ids strictly increase along the log, so no transaction is logged twice. |
| `Ledger.CommitKeepsTables` | database.js:101-114 | Rewriting one row by a transaction's effect and logging that transaction together keeps all the user and log invariants. |
| `Ledger.IsStaff` | database.js:62-65 | On a roster keyed by its rows' ids, `isStaff` holds exactly when some roster row carries the id. |
| `Ledger.GetUserMiles` | database.js:187-190 | On a table keyed by its rows' ids, the lookup gives no row exactly when no row carries the id, and otherwise a stored row carrying the id. |
| `Ledger.FeedRows` | database.js:215-218 | Feed rows are logged rows with their user's current username, newest first. |
| `Ledger.FeedComplete` | database.js:218-219 | No joinable row is left out of the feed unless the feed is full of rows at least as recent. |
| `Ledger.AllStaff` | database.js:67-70 | Every roster row exactly once, in ascending username order. |
| `Ledger.ByUsernameIsTotalPreorder` | database.js:68 | Ordering roster rows by username ranks every pair consistently, so sorting by it is well defined. |
| `Ledger.GetStats` | database.js:224-234 | `total_users` is the number of users. `total_miles` and `max_miles` are NULL exactly when there are none. With no negative balance the sum is at least the maximum, which is at least 0. |
| `Ledger.MaxMiles` | database.js:230 | `MAX(miles)` is NULL for no users. Otherwise it is the balance of some user, and no user has more. |
| `Ledger.TotalMilesRemove` | database.js:228 | `SUM(miles)` does not depend on scan order: any user's balance can be taken out first. |
| `Ledger.TotalMilesUpdate` | database.js:228 | Rewriting one user's row moves `SUM(miles)` by exactly the change in that user's balance. |
| `Ledger.TotalMilesCovers` | database.js:228-230 | With no negative balance, `SUM(miles)` is at least every single balance. |
| `Ledger.TotalMilesNonNegative` | database.js:228 | With no negative balance, `SUM(miles)` is non-negative. |
| `Sorting.TopBy` | database.js:197-198 | `ORDER BY … LIMIT n` gives `min(n, rows)` rows, sorted, all from the input, repeat-free when the input is. A row left out means the result is full of rows ranked no later. |
| `Text.NatToString` | index.js:49 | `toString` of a non-negative integer: at least one decimal digit and no leading zero. |
| `Text.NatToStringRoundTrip` | index.js:49 | Reading the printed digits back gives the number. |
| `Text.NatToStringLength` | index.js:49 | A number prints with at most k digits exactly when it is below 10^k. |
| `Text.IntToStringInjective` | database.js:176 | Different integers print differently, so a printed balance identifies it. |
| `Text.TwoWordsInjective` | database.js:130 | Two texts built from the same fixed parts around two space-free words, with a separator starting with a space, are equal only when the words are. |
| `Database.SetReasonInjective` | database.js:175-176 | The "Set from <old> to <new>" reason determines both the old and the new balance. |
| `Database.DeductMessageInjective` | database.js:130 | The insufficient-miles message determines both the balance found and the amount asked for. |
| `Text.LexLeqTotal` | database.js:68 | Any two usernames are ordered one way or the other. |
| `Text.LexLeqTransitive` | database.js:68 | The username order is transitive. |
| `Text.LexLeqAntisymmetric` | database.js:68 | Two usernames each sorting no later than the other are equal. |
| `Format.GroupRemoveCommas` | index.js:49 | The regex replace only inserts commas into a run of digits. |
| `Format.GroupWellGrouped` | index.js:49 | A run of digits comes out in groups: no leading or trailing comma, 1–3 digits first, then exactly 3 after each comma. |
| `Format.FormatNumber` | index.js:48-50 | `formatNumber(n)` with the commas removed is `n.toString()`, negative numbers included. For n ≥ 0 the output is well grouped: first group 1–3 digits, every later group exactly 3, no leading or trailing comma. |
| `Format.FormatNumberSmall` | index.js:48-50 | For n ≥ 0 the output equals `n.toString()` exactly when n < 1000. |
| `Format.WellGroupedUnique` | index.js:49 | Two well-grouped strings with the same digits are equal. |
| `Format.FormatNumberIsTheGrouping` | index.js:48-50 | For n ≥ 0, `formatNumber(n)` is the only well-grouped string whose digits are `n.toString()`. |
| `Commands.LeaderboardLimit` | index.js:65-70 | The limit is the option's value (1..25) when given and 10 when not, so it always lies in 1..25. |
| `Commands.ReasonOrDefault` | index.js:317 | An absent or empty reason becomes 'No reason provided', so no stored reason is empty. |
| `Commands.HandleMiles` | index.js:234-240 | `/miles` shows the target's balance, the caller by default. A user with no row shows 0, and the read creates nothing. |
| `Commands.HandleLeaderboard` | index.js:250-252 | `/leaderboard` shows at most 25 rows, at most 10 without a limit option. The rows are users with positive miles, each once, most miles first. A user with positive miles is left out only when the board is full of users with at least as many. |
| `Commands.HandleHistory` | index.js:268-288 | Refused exactly when a target is named by a non-staff caller; anybody may see their own history. Otherwise it shows at most 10 rows, all of the target (the caller by default), newest first and none twice. A row is left out only when the page is full of rows at least as recent. |
| `Commands.HandleStats` | index.js:477-492 | Refused exactly for non-staff callers. Otherwise it shows the user count, the sum of balances, and the maximum balance (0 with no users). |
| `Commands.HandleAdd` | index.js:307-341 | A non-staff caller is refused and nothing changes. Otherwise the target's row (created if new) gains `amount` and takes the target's username and a new `updated_at`. The log gains one 'add' row naming the caller with the defaulted reason, and the next id moves on by one. Other users, the roster and the clock are unchanged. |
| `Commands.HandleDeduct` | index.js:343-377 | A non-staff caller is refused and nothing changes. An insufficient balance is reported with the store's message and nothing changes. Otherwise the target, who already had a row, loses `amount`. The target's row takes the new username and `updated_at`, and the log gains one 'deduct' row naming the caller. Other users, the roster and the clock are unchanged. |
| `Commands.HandleSet` | index.js:379-409 | A non-staff caller is refused and nothing changes. Otherwise the target's row (created if new) holds exactly `amount` with the new username and `updated_at`. The log gains one 'set' row with the signed difference and the "Set from" reason, naming the caller. Other users, the roster and the clock are unchanged. |
| `Commands.HandleAddStaff` | index.js:411-434 | Gated only on the Administrator flag, never on roster membership. Without it nothing changes. With it the target gets a roster row, and the users, the log, the next id and the clock are unchanged. |
| `Commands.HandleRemoveStaff` | index.js:436-459 | Gated only on the Administrator flag. Without it nothing changes. With it the target's roster row is removed, which is a no-op for a non-member, and nothing else changes. |

## Left out

- Discord client setup, command registration, the interaction dispatch and all
  embed and reply text (index.js:1-46, 53-231, 527-590): platform I/O. Replies
  are reduced to what they report.
- `handleStaff` and `handleHelp`: they only display data. The roster listing
  they show is `Ledger.AllStaff`.
- The Express keep-alive server, signal handlers and `close()`: process
  plumbing.
- SQLite itself: the DDL, indexes and engine. The tables are a map, a sequence
  and a map, and `db.transaction` is modelled as all-or-nothing.
- Storage failures: no `StorageUnavailable` path is modelled. So the `catch`
  branches of `/add` and `/set`, which only storage errors reach, are absent.
- Concurrency: better-sqlite3 is synchronous, so each method is one atomic step.
- `AVG(miles)` and `Math.round` in `/stats`: floating point. Only the count,
  sum and maximum are modelled.
- Wall-clock time and `toLocaleString`. `CURRENT_TIMESTAMP` is an abstract
  natural-number clock, not SQLite's one-second text stamps.
- Integer width. Balances are unbounded integers. SQLite's 64-bit `INTEGER`,
  JavaScript's 53-bit-exact numbers, and exponent notation in `toString` for
  numbers ≥ 1e21 are not modelled.
- Tie order. Among equal miles, timestamps or usernames, the model's sort picks
  some order. The source's SQL fixes none, so no contract depends on it.
- Default `limit` arguments of the store queries (10, 10, 50). The model passes
  every limit explicitly; the handlers supply 10 for `/leaderboard` and
  `/history`.
- The `reason` column is nullable, but the model's reasons are strings. Every
  caller in index.js passes a string.
- admin-utils.js: a console tool of raw SQL and a file copy. It has an
  unfiltered, unlimited user list, a `LIKE` search on usernames, a wipe of
  all three tables by three `DELETE` statements behind a confirmation prompt
  on stdin, and a backup that copies the database file. None of these is
  reachable from the bot's commands.
