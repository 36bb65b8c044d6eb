# Classroom points tracker: the points and rewards core in Dafny

A teacher keeps a list of students. Each student has a running point total, a reward
counter and a history of adjustments. When the total crosses a multiple of the reward
threshold on the way up, the student earns a reward. A card shows the points as progress
in the current cycle (`points % threshold`). The same records are kept in three places,
and this project models each one:

- **The browser client's offline branch** (`app.js`). The list lives in local storage. It
  changes in place by adding, adjusting and removing a student. The threshold is 1000.
- **The SQLite server** (`server.js`). A `students` table of owned rows and an
  append-only `history` table. The threshold is 1000 and the list is ordered by id,
  newest first.
- **The hosted-store server** (`server-sqlite.js`). The same handlers, but the threshold
  is 10 and the list is ordered by creation time, newest first.

Modules:

- `Accounting` (`accounting.dfy`). The shared reward rule, stated once for any threshold
  and used with 1000 and with 10.
- `Common` (`common.dfy`). The offline record, `Student`, and the history entry, `Entry`.
- `Text` (`text.dfy`). Decimal rendering and ASCII lower-casing, as used by the client's
  string templates.
- `Sorting` (`sorting.dfy`). `ORDER BY` as a stable sort on an integer key.
- `HistoryView` (`history_view.dfy`). What the client computes from the records for
  display: the change column of the history dialog and the header totals.
- `OfflineStore` (`offline_store.dfy`). Class `Roster`, the offline record list. Its
  methods mirror the offline branches of `addStudent`, `adjustPoints` and `removeStudent`.
- `ServerStore` (`server_store.dfy`). Class `Server`, the tables of one server. A
  `Variant` constant selects the threshold and the list order. Its methods are the list,
  create, delete and adjust handlers, with their error replies.

Three facts about the code that shape the model:

- **History window.** A student's history is served by `ORDER BY t ASC LIMIT 64`, so it
  holds the 64 entries with the earliest times, not the latest. `Recent` states this for
  any history table. `RecentIsOldest` and `RecentIgnoresNewest` add the consequence: once
  a student has 64 time-ordered entries, later adjustments are never served.
- **Several crossings at once.** From 5 points, +25 at threshold 10 earns
  `floor(30/10) - floor(5/10)` = 3 rewards, one each for 10, 20 and 30 (`HostedExamples`).
- **Two thresholds.** The two servers use different thresholds: 1000 in server.js and 10
  in server-sqlite.js. The signed-in client always tests a server's reply against 1000.
  Against the hosted server, its reward dialog stays closed below 1000 points
  (`HostedRewardsUnnoticed`).

## Model

| member | source | states |
|---|---|---|
| Accounting.Clamp | server.js:137 | the new total is the least non-negative value not below `before + delta`: either the raw sum or 0 |
| Accounting.Earned | server.js:140-146 | a positive reward count only comes from an increase that ends at or above the threshold |
| Accounting.Apply | server.js:136-146 | one adjustment: points clamped at zero, rewards never decrease, and rewards grow only for a positive delta that raised the points |
| Accounting.Crossings | server.js:141-146 | the reference count of multiples of the threshold in (before, after]: none unless the total rises, and never more than the rise |
| Accounting.CycleLocal | server.js:149 | the stored history value is below the threshold and is the remainder of the total after its completed cycles |
| Accounting.CrossingsAreCycleDifference | server.js:142-144 | the difference of the completed cycles counts the multiples of the threshold in (before, after] |
| Accounting.EarnedCountsCrossings | server.js:141-146 | the guarded rule earns exactly the crossed multiples for an increase and nothing otherwise, so the `after >= threshold` and `newlyEarned > 0` guards change no result |
| Accounting.ApplyEarnsCrossings | app.js:262-274 | one adjustment adds exactly the crossed multiples to the reward counter |
| Accounting.ApplySplitsUpward | server-sqlite.js:165-175 | two increases in a row leave the same totals as one increase by their sum, so no reward is lost or doubled by splitting |
| Accounting.UndoRestoresPoints | server.js:136-137 | an adjustment followed by its opposite restores the points when nothing was clamped, and keeps the rewards earned |
| Accounting.HostedExamples | server-sqlite.js:165-175 | with threshold 10, 5 + 25 gives 30 points and 3 new rewards, and 3 - 10 gives 0 points and no reward |
| Accounting.JsRem | app.js:249 | JavaScript `%` truncates toward zero: it agrees with the mathematical remainder for non-negative operands and is non-positive for negative ones |
| Accounting.CycleWrap | app.js:249-251 | a step up smaller than the threshold completes a cycle exactly when the cycle-local value wraps around |
| Accounting.NoticeMatchesEarned | app.js:248-253 | when the client and the server use the same threshold, as the client and server.js do (1000), then for 0 < delta < threshold the signed-in client opens the reward dialog exactly when the server's counter grew |
| Accounting.NoticeMissesWholeCycle | app.js:248-253 | a delta of exactly one threshold earns a reward, yet the signed-in client's test does not open the dialog |
| Accounting.RewardNotice | app.js:248-251 | the signed-in client's dialog test on the server's reply: it can only hold for a positive delta no larger than the new points, with a non-zero reward counter |
| Text.Decimal | app.js:186 | `String(n)`: a non-empty run of digits, with a leading `0` only for 0 |
| Text.DecimalRoundTrip | app.js:186 | reading the rendering of a number back gives the number |
| Text.Lower | app.js:231 | `toLowerCase` keeps the length and lower-cases each character |
| Text.LowerIdempotent | app.js:231 | lower-casing an already lower-cased name changes nothing |
| Common.RewardsOf | app.js:179 | a missing counter reads as 0: a stored counter is used as it is, and the result is 0 exactly when the counter is missing or 0 |
| Common.HistoryOf | app.js:139 | a missing history reads as empty: a stored history is used as it is, and the result is empty exactly when the history is missing or empty |
| Sorting.SortBy | server.js:96 | `ORDER BY`: the result is ordered by the key and is a permutation of the rows |
| Sorting.SortBySorted | server.js:98 | ordering rows that are already in key order leaves them as they are |
| HistoryView.ChangeColumn | app.js:144-150 | one change per entry: its points minus the previous entry's, or minus 0 for the first |
| HistoryView.ChangesAddUpToPoints | app.js:144-150 | the changes shown for the first k + 1 entries add up to entry k's points |
| HistoryView.ChangesAddUpToLast | app.js:144-150 | all the changes shown add up to the last entry's points |
| HistoryView.ChangeText | app.js:150 | a change is written with `+` exactly when positive, with `-` exactly when negative, and as `0` exactly when zero |
| HistoryView.ChangeTextRoundTrip | app.js:150 | the written change can be read back to the change itself |
| HistoryView.DisplayPoints | app.js:186 | a card's points are the cycle-local value: below the threshold, the remainder of the total after its completed cycles, and equal to the total before the first reward |
| HistoryView.TotalPoints | app.js:178 | the header's points total is at most the number of students times (threshold - 1) |
| HistoryView.TotalRewards | app.js:179 | the header's reward total is at least every student's counter |
| HistoryView.TotalRewardsAfterUpdate | app.js:179 | replacing one record changes the header's reward total by the difference of the two counters |
| HistoryView.TotalRewardsAppend | app.js:179 | appending a record adds its counter to the header's reward total |
| OfflineStore.IndexOf | app.js:258 | `findIndex`: -1 exactly when no record has the id, otherwise the first record that has it |
| OfflineStore.NameTaken | app.js:231 | `some` over the records: a name is taken exactly when some record's name equals it after lower-casing both |
| OfflineStore.NameTakenIgnoresCase | app.js:231 | the name-collision test gives the same answer for a name and for its lower-cased form |
| OfflineStore.NewName | app.js:234 | the new name starts with the typed name, and differs from it exactly when that name is taken |
| OfflineStore.Created | app.js:232-238 | a new record has the given id and name, no points, no rewards, and one history entry holding its cycle-local points |
| OfflineStore.NewNameFacts | app.js:231-234 | a free name is kept; a taken name gets a space and the two-digit suffix, which no longer collides, ignoring case, with any name it matched |
| OfflineStore.Adjusted | app.js:262-277 | an adjusted record keeps its id and name, never loses rewards, and keeps its history with one entry appended that holds the new cycle-local points |
| OfflineStore.AdjustedFacts | app.js:262-277 | one offline adjustment keeps id and name, clamps points at zero, adds the crossed cycles to the counter (written only when it grows) and appends one entry holding the cycle-local points |
| OfflineStore.Without | app.js:289 | `filter`: exactly the records whose id differs are kept |
| OfflineStore.WithoutAbsent | app.js:289 | removing an id that no record has changes nothing |
| OfflineStore.WithoutIdempotent | app.js:289 | removing an id twice is the same as removing it once |
| OfflineStore.WithoutConcat | app.js:289 | removal keeps the order of the records that remain |
| OfflineStore.WithoutDistinct | app.js:289 | removal keeps ids distinct |
| OfflineStore.ReplaceKeepsValid | app.js:278 | writing back a record with the same id and a non-empty history keeps ids distinct and every history non-empty |
| OfflineStore.Roster.constructor | app.js:67-78 | the roster holds the records loaded from storage |
| OfflineStore.Roster.AddStudent | app.js:230-239 | appends exactly one new record (no points, no rewards, one seed entry, renamed when the name is taken); the reward total is unchanged and ids stay distinct |
| OfflineStore.Roster.AdjustPoints | app.js:257-278 | an unknown id changes nothing; otherwise only that record is replaced by its adjusted form; the reward dialog shows exactly when the counter grew; the reward total moves by the same amount |
| OfflineStore.Roster.RemoveStudent | app.js:288-290 | the list becomes exactly the records with a different id, in order |
| ServerStore.ThresholdOf | server-sqlite.js:155 | every server's threshold is positive, so the rule's divisions are defined (it is defined as 1000 for server.js and 10 for server-sqlite.js) |
| ServerStore.StatusCode | server.js:119 | NotFound is sent as 404 and every other error as 400 |
| ServerStore.ReasonOrDefault | server.js:149 | a missing or empty reason becomes `Point adjustment`, a non-empty one is kept, so the stored reason is never empty |
| ServerStore.AcceptableDelta | server.js:130 | a delta is accepted exactly when it is an integer between -100000 and 100000 |
| ServerStore.NameMissing | server.js:107 | a name is accepted exactly when it is present and non-empty |
| ServerStore.ListKey | server.js:96 | the list key puts a higher id first on the SQLite server, and a later creation time first on the hosted server |
| ServerStore.Owned | server.js:96 | the caller's rows: no more rows than the table has, each owned by the caller |
| ServerStore.OwnedMembers | server.js:96 | `WHERE owner_id = ?` keeps exactly the caller's rows |
| ServerStore.FindOwned | server.js:133 | -1 exactly when no row has both the id and the caller as owner, otherwise a row that has both |
| ServerStore.RemoveRow | server.js:121 | `DELETE FROM students WHERE id = ?` leaves no more rows than there were |
| ServerStore.RemoveRowMembers | server.js:121 | the rows left after the delete are exactly the rows with another id |
| ServerStore.TailIdsIncreasing | server.js:29 | the AUTOINCREMENT order of the rows after the first is kept, all above the first |
| ServerStore.RemoveRowAt | server.js:121 | `DELETE FROM students WHERE id = ?` takes out exactly the one row with that id when ids are unique |
| ServerStore.RemoveRowAbsent | server.js:121 | deleting an id that no row has changes nothing |
| ServerStore.RemoveAtKeepsIds | server.js:121 | taking out one row keeps ids increasing and removes only its id |
| ServerStore.UpdateKeepsIds | server.js:148 | an `UPDATE` of points and rewards keeps the ids |
| ServerStore.EntriesOf | server.js:151 | a student's history rows number at most the history table's rows |
| ServerStore.DropHistory | server.js:120 | the history left after the delete has no more rows than before and none of the deleted student |
| ServerStore.DropHistoryMembers | server.js:120 | `DELETE FROM history WHERE student_id = ?` keeps exactly the other students' rows |
| ServerStore.Limit | server.js:151 | `LIMIT n` keeps a prefix: all the rows when there are at most n, exactly n otherwise |
| ServerStore.Recent | server.js:151 | the served history is drawn from that student's entries, holds all of them or exactly 64, is in ascending time, and no entry left out is earlier than one served |
| ServerStore.EarliestWindow | server.js:151 | the first n entries by time are drawn from the entries, are in time order, and no entry left out is earlier than one kept |
| ServerStore.LimitKeepsEarliest | server.js:151 | cutting a time-ordered list keeps a time-ordered part of it, and everything cut off is at least as late as everything kept |
| ServerStore.EntriesOfAppend | server.js:149 | inserting a history row adds its entry to that student's history only |
| ServerStore.EntriesOfDrop | server.js:120 | deleting a student's history empties it and keeps every other student's history |
| ServerStore.EntriesOfDropAll | server.js:120 | after the delete, the deleted student's history is empty and every other student's history is unchanged |
| ServerStore.RecentIsOldest | server.js:151 | for a time-ordered log, the served history is its first 64 entries, the oldest |
| ServerStore.RecentIgnoresNewest | server.js:149-151 | once a time-ordered history has 64 entries, a newer adjustment does not change what is served |
| ServerStore.HostedRewardsUnnoticed | server-sqlite.js:155 | against the hosted server, a positive delta that stays below 1000 points never opens the client's reward dialog, whatever it earned |
| ServerStore.HostedRewardUnnoticedExample | server-sqlite.js:165-175 | from 5 points, +5 on the hosted server earns one reward that the client does not announce |
| ServerStore.AdjustedRowFacts | server.js:136-148 | an adjusted row changes only points and rewards; points are clamped; rewards grow by the crossed cycles; a decrease earns nothing |
| ServerStore.AdjustedRow | server.js:136-148 | an adjusted row keeps id, owner, name and creation time, and its points and rewards are at least what the raw sum and the old counter give |
| ServerStore.AdjustKeepsTablesValid | server.js:148-149 | an update that keeps the id, plus a cycle-local history row, keeps ids unique and every history row attached to an existing student |
| ServerStore.CreateKeepsTablesValid | server.js:108-110 | inserting a row with the next id and its seed history row keeps the tables valid |
| ServerStore.DeleteKeepsTablesValid | server.js:120-121 | deleting a row together with its history rows keeps the tables valid and leaves no orphan history |
| ServerStore.Server.constructor | server.js:21-45 | the tables start empty, valid, with the id counter at 1 |
| ServerStore.Server.List | server.js:94-102 | the caller's rows and only those, each row once, in the server's list order (id or creation time, descending), each with its served history |
| ServerStore.Server.Create | server.js:104-113 | a missing or empty name is refused with nothing changed; otherwise exactly one row with the next id and one seed history row are added, and the reply carries the seed entry |
| ServerStore.Server.Delete | server.js:115-123 | an id the caller does not own is NotFound with nothing changed; otherwise exactly that row and all of its history go, and every other history stays |
| ServerStore.Server.Adjust | server.js:125-153 | an invalid delta or an id the caller does not own changes nothing; otherwise the row gets the rule's points and rewards, exactly one cycle-local entry with the reason or its default is appended, and the reply is the row and its served history |

## Left out

- Authentication is not modelled: bootstrap registration, login, JWT signing and
  verification, and bcrypt. Each handler takes the caller's user id as a parameter.
- Routing, JSON parsing and HTTP plumbing are not modelled. A request body becomes the
  handler's parameters. The missing body (`req.body || {}`) becomes `None`, and a
  non-integer `delta` becomes `NotInteger`.
- Storage plumbing is not modelled: `localStorage` reads and writes, `JSON.parse` failures
  and SQL execution. The offline roster is the loaded array. Each server is its two tables
  and an id counter.
- The DOM is not modelled: cards, modals, toasts, the sparkline canvas and the progress
  percentage, which is floating point. The header totals and the history change column are
  modelled as values.
- Clocks and randomness become parameters: `Date.now()` is `now` (and `replyNow` for
  create's second read), `uid()` is `newId`, and the random suffix is `suffix`.
- The signed-in client branches of `addStudent`, `adjustPoints` and `removeStudent` are
  not modelled, because they only forward to the server. The dialog test they run on the
  server's reply is modelled as `RewardNotice`.
- The seeding of three example students into an empty offline store is not modelled.
- Concurrent requests are not modelled. Each handler runs as one atomic step.
- Text.Lower: lower-cases ASCII letters only, not all of Unicode as `toLowerCase` does.
- OfflineStore.Roster.AddStudent: requires a suffix in 10..99 and a fresh id. These are
  the ranges of `Math.random` and `uid()`; an id collision is not modelled.
- Stored points are assumed to be non-negative integers. The client and the servers only
  ever store such values.
- server-sqlite.js lists students through a hosted client. Its other handlers call a
  `db` object that the file never defines. The model gives both servers the same tables,
  as if that object existed.
- ServerStore.Server.List: `ORDER BY` and `LIMIT` leave ties open. The model breaks ties
  by table order, through a stable sort.
- The `history || []` fallback of the hosted list is not modelled separately, because an
  absent history is the empty sequence in the model.
- ServerStore.Server.Create: stores the handler's clock reading `now` as `createdAt`. In
  the source, `created_at` is filled by the database default, `datetime('now')`, a text
  value with one-second resolution. The model does not capture that two students created
  in the same second tie in the hosted server's list order.
