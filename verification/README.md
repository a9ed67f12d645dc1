# Button contest, modelled in Dafny

This project models the "push the button" contest of the King Myco bot, which lives in
`src/services/buttoncontest.ts`.

Users push a button. A push is accepted at most once every 30 minutes per user. Each
accepted push adds one to the user's total and daily counts and awards 10 spores. The
service ranks users by total pushes and picks each day's winner by daily pushes. It
archives that winner, resets the daily counts, and reports two views of the archive:
the recent history, and a leaderboard of users by number of days won.

The model has three layers.

- **`JsMap`, `JsArray`, `JsSort`, `JsString`** state the JavaScript behaviour the
  service relies on:
  - `Map` is an ordered map that keeps insertion order. `set` on an existing key keeps
    that key's position.
  - `slice` is modelled with its clamping of negative and out-of-range positions,
    including `slice(-0)`, which returns the whole array.
  - `reverse` and `findIndex` are modelled as defined.
  - `Array.prototype.sort` is modelled as a stable insertion sort.
  - String `<` is modelled, along with the decimal rendering of an integer in a
    template literal.
- **`Ledger`** holds the pusher records as a value, `Pushers`, and defines every
  operation on them as a function:
  - cooldown status and a push;
  - the daily reset;
  - the leaderboard and a user's rank;
  - the daily leader.

  The contest's properties are proved here as lemmas.
- **`Archive`** holds the archive of daily winners as a `seq<DailyWinner>`. It covers:
  - the date part of the save timestamp;
  - the in-memory history view;
  - the in-memory "daily wins" aggregation, with its stable sort and cut.
- **`ButtonContest.ButtonContestService`** is the service object. It has two fields:
  the `pushers` map and the `dailyWinnersHistory` sequence. Its methods follow the
  source step by step:
  - `addClick` replaces one map entry;
  - `resetDailyStats` updates each record in a loop;
  - `saveDailyWinner` appends to the archive;
  - `getDailyWinner` scans with running maximum variables;
  - `getDailyWinsLeaderboard` folds the archive into a map in a loop.

  Each method is proved against the functions of `Ledger` and `Archive`.

`getLeaderboard`, `getUserRank`, `getCooldownStatus` and the history view only compute
a value. They are modelled as functions of the service's state (`Ledger.GetLeaderboard`,
`Ledger.GetUserRank`, `Ledger.GetCooldownStatus`, `Archive.GetDailyWinnersHistory`), not
as methods.

## Model

| member | source | states |
|---|---|---|
| Ledger.MinutesLeft | src/services/buttoncontest.ts:145 | `Math.ceil` of the remaining cooldown in minutes. The result m is at least 1 and (m-1)·60000 < remaining ≤ m·60000. For a non-negative elapsed time it is at most 30. |
| Ledger.GetCooldownStatus | src/services/buttoncontest.ts:136-147 | A user can push exactly when they have no record or 30 minutes have passed since their last push. In that case minutesLeft is 0. Otherwise minutesLeft is the rounded-up wait. |
| Ledger.DisplayName | src/services/buttoncontest.ts:79 | The stored name is never empty. A non-empty given name is kept. |
| Ledger.PlaceholderNamesDiffer | src/services/buttoncontest.ts:79 | Different users without a name get different placeholder names (`User <id>`). |
| Ledger.Click | src/services/buttoncontest.ts:60-101 | A push keeps every stored record well formed: keyed by its user id, at least one push, daily ≤ total, spores = 10 × total. |
| Ledger.ClickFollowsCooldownStatus | src/services/buttoncontest.ts:64-74 | A push is accepted exactly when the cooldown status says it can be. A rejection reports the status's minutes (≥ 1) and leaves the map unchanged. |
| Ledger.AcceptedClick | src/services/buttoncontest.ts:76-100 | An accepted push does the following:<br>• total +1, daily +1, spores +10, each counted from 0 for a new user;<br>• time set to now, display name stored;<br>• reply carries 10 spores and the new total;<br>• a new user is appended at the end of the insertion order;<br>• every other record is unchanged. |
| Ledger.CooldownWindow | src/services/buttoncontest.ts:64-74 | After an accepted push at t0, the same user's push at t1 ≥ t0 is accepted iff t1 − t0 ≥ 30 minutes. Otherwise the wait is between 1 and 30 minutes. |
| Ledger.ReplayCountsPushes | src/services/buttoncontest.ts:76-86 | Over any sequence of attempts, a user's total grows by their accepted attempts, and their spores by 10 per accepted attempt. |
| Ledger.ResetDaily | src/services/buttoncontest.ts:307-310 | The reset keeps the keys and their order, keeps the same users, and leaves every daily count at 0. |
| Ledger.ResetKeepsEverythingElse | src/services/buttoncontest.ts:307-310 | The reset zeroes every daily count. It keeps the keys, their order, and every other field of every record. |
| Ledger.ResetIsIdempotent | src/services/buttoncontest.ts:307-310 | Resetting twice is the same as resetting once. |
| Ledger.SortedRecords | src/services/buttoncontest.ts:104-105 | A sorted rearrangement of the records has these properties:<br>• it lists stored records, each user once;<br>• it is ordered by total pushes, most first;<br>• no record has more pushes than one listed before it. |
| Ledger.GetLeaderboard | src/services/buttoncontest.ts:103-107 | Its length is `slice(0, limit)`'s length. It is ordered by total pushes, holds stored records with distinct users, and is top-k: any user with more pushes than the i-th row is listed before it. Row i is held by the user whose rank is i + 1. So the `#index+1` of a printed board is `getUserRank`'s rank, and of users tied at the cut the earlier-inserted ones are kept. |
| Ledger.TieAtCutKeepsEarlier | src/services/buttoncontest.ts:103-107 | Two users with one push each, inserted as 1 then 2: `getLeaderboard(1)` is user 1's record. |
| Ledger.BoardPlaceIsRank | src/services/buttoncontest.ts:104-105 | In the full sorted board, the record at index i belongs to a stored user whose closed-form rank is i + 1. |
| Ledger.GetUserRank | src/services/buttoncontest.ts:126-134 | The result is null exactly for users without a record. Otherwise it is the stored total and 1 + (users with more pushes) + (users with as many pushes inserted earlier). The rank lies between 1 and the number of users. |
| Ledger.RankPosition | src/services/buttoncontest.ts:130-131 | The user's index in the full leaderboard is (users with more pushes) + (users with equal pushes inserted earlier). |
| Ledger.RankFollowsClicks | src/services/buttoncontest.ts:126-134 | Ranks depend only on the insertion order and the total pushes. |
| Ledger.ResetKeepsRanks | src/services/buttoncontest.ts:307-310 | The daily reset changes nobody's rank. |
| Ledger.SoleUserRanksFirst | src/services/buttoncontest.ts:130-133 | The only user with a record has rank 1. |
| Ledger.DailyLeaderUnique | src/services/buttoncontest.ts:157-163 | At most one user leads the day. The leader has a positive count no one exceeds, and is strictly above everyone inserted before them. |
| Ledger.DailyLeaderExists | src/services/buttoncontest.ts:157-165 | If any record has daily pushes, a leader exists. |
| Ledger.ResetLeavesNoLeader | src/services/buttoncontest.ts:307-310 | After the reset nobody leads the day. |
| Ledger.AcceptedPushMakesLeader | src/services/buttoncontest.ts:83 | After an accepted push the day has a leader. |
| Ledger.OneUserPushes | src/services/buttoncontest.ts:60-101 | For one user:<br>• a push at minute 0 is accepted;<br>• a push at minute 10 is told to wait 20 minutes;<br>• a push at minute 31 is accepted.<br>This leaves one record with 2 pushes and 20 spores. |
| Ledger.OneUserStandings | src/services/buttoncontest.ts:126-134 | With that record, the user has rank 1 with 2 pushes and leads the day. After the reset nobody leads. |
| JsMap.Empty | src/services/buttoncontest.ts:20 | `new Map()` is well formed, has size 0 and answers `get` with undefined for every key. |
| JsMap.OrderedMap.Get | src/services/buttoncontest.ts:62 | `get` answers undefined exactly for a key not in the map, and otherwise the value stored under it. |
| JsMap.OrderedMap.Set | src/services/buttoncontest.ts:86 | `set` stores the value under the key and changes no other key's value. A key already present keeps its position; a new key goes last. |
| JsMap.OrderedMap.Values | src/services/buttoncontest.ts:104 | `values()` lists one value per key, in the keys' insertion order. |
| JsString.StrLess | src/services/buttoncontest.ts:253 | `a < b` holds exactly when a is a proper prefix of b, or at the first position where they differ a has the smaller character. |
| JsString.IntToString | src/services/buttoncontest.ts:79 | `${n}` is non-empty, starts with '-' exactly when n is negative, and is otherwise decimal digits. |
| JsString.IntRoundTrip | src/services/buttoncontest.ts:79 | Parsing `${n}` gives n back, so different ids render differently. |
| JsArray.FindIndex | src/services/buttoncontest.ts:131 | `findIndex` returns the first matching index, or −1 when nothing matches. |
| JsArray.SliceTo | src/services/buttoncontest.ts:106 | `slice(0, end)` is a prefix of length min(end, n). A negative end gives length max(n + end, 0). |
| JsArray.SliceFrom | src/services/buttoncontest.ts:231 | `slice(start)` is a suffix. For start < 0 its length is min(−start, n). |
| JsArray.Reverse | src/services/buttoncontest.ts:231 | Element k of the result is element n−1−k of the input. |
| JsSort.SortDesc | src/services/buttoncontest.ts:105 | The sort is a permutation (multiset equal) and is ordered by key, largest first. |
| JsSort.SortedPosition | src/services/buttoncontest.ts:105 | After the stable sort, an element sits after every larger key and after every equal key that came before it. |
| JsSort.StableOrder | src/services/buttoncontest.ts:267 | Elements with equal keys keep their relative order. |
| JsString.StrLessTransitive | src/services/buttoncontest.ts:253 | String `<` is transitive, which the "latest date" argument relies on. |
| Archive.LatestDateIsGreatest | src/services/buttoncontest.ts:253-255 | Because string `<` is total, the kept latest date is the greatest: every other winning date of the user is smaller. |
| Archive.DatePart | src/services/buttoncontest.ts:188 | `split('T')[0]` returns a prefix without 'T', ending where the first 'T' is. |
| Archive.IsoTimestampDate | src/services/buttoncontest.ts:188 | An ISO timestamp yields its `YYYY-MM-DD` part. |
| Archive.GetDailyWinnersHistory | src/services/buttoncontest.ts:231 | Lengths follow `slice(-limit)`: min(limit, n) for limit ≥ 1, n for limit 0, max(n + limit, 0) for limit < 0. The newest entry comes first. |
| Archive.SavedWinnerFirst | src/services/buttoncontest.ts:193 | After appending w:<br>• the view with limit 1 is [w];<br>• the view with limit L ≥ 2 is w followed by the earlier view with limit L−1. |
| Archive.AddWin | src/services/buttoncontest.ts:249-261 | One loop turn keeps the map well formed. It appends a key only for a user not yet in the map. |
| Archive.TallyWins | src/services/buttoncontest.ts:246-263 | The fold over the archive gives a well-formed map with at most one key per archived day. |
| Archive.TallyOfUser | src/services/buttoncontest.ts:248-261 | The map holds exactly the users who won. For each it holds the number of days won and the name from the user's first archived win. |
| Archive.TallyLatestDate | src/services/buttoncontest.ts:253-255 | The kept date is one of the user's dates, and none of their dates is greater under string `<`. |
| Archive.TallyKeysByFirstWin | src/services/buttoncontest.ts:246-263 | The map lists users in the order of their first archived win. |
| Archive.TallySum | src/services/buttoncontest.ts:246-263 | The wins in the map add up to the number of archived days. |
| Archive.Rows | src/services/buttoncontest.ts:265-266 | One row per key of the map, in insertion order, each carrying the key as `userId` and that key's name, wins and last date. |
| Archive.SortedRowsListed | src/services/buttoncontest.ts:265-267 | The sorted rows have these properties:<br>• each is its user's aggregate;<br>• users are distinct;<br>• ordered by days won, with equal counts in first-win order;<br>• top-k: a user with more days won than row i, or as many and an earlier first win, is listed before row i. |
| Archive.SortedRowsTies | src/services/buttoncontest.ts:267 | Rows with equal days won keep the order of their users' first wins. |
| Archive.SortedRowsTieAbove | src/services/buttoncontest.ts:265-267 | A winner with as many days won as the sorted row i and an earlier first win is listed before row i. |
| Archive.HeadWonFirst | src/services/buttoncontest.ts:265-268 | Of the users with as many wins as the first row, the first row's user has the earliest first win. |
| Archive.TieAtCutKeepsFirstWinner | src/services/buttoncontest.ts:246-268 | An archive of user 1 then user 2, one day each: the wins board cut to one row is user 1's row, with their name, one win and their date. |
| Archive.FullBoard | src/services/buttoncontest.ts:265-267 | Uncut, the rows list exactly the users who won, and their wins add up to the archive's length. |
| Archive.WinsLeaderboard | src/services/buttoncontest.ts:246-268 | Its length is `slice(0, limit)` of the number of distinct winners. It is listed by wins as above, including the tie rule at the cut: of users with equal wins, those who won first are kept. With a limit covering every winner, every winner appears and the wins add up to the archive's length. |
| ButtonContest.ButtonContestService.constructor | src/services/buttoncontest.ts:20-21 | A new service has an empty map and an empty archive. |
| ButtonContest.ButtonContestService.AddClick | src/services/buttoncontest.ts:60-101 | The new map and the reply are those of `Ledger.Click`. The push is accepted iff the prior cooldown status allowed it. A rejection changes nothing. The archive is untouched. |
| ButtonContest.ButtonContestService.GetDailyWinner | src/services/buttoncontest.ts:150-179 | The result is null iff no record has daily pushes. Otherwise it is the unique daily leader, with its name, daily pushes and total, and the rank `getUserRank` gives it. |
| ButtonContest.ButtonContestService.SaveDailyWinner | src/services/buttoncontest.ts:182-193 | Exactly one entry is appended, dated with the date part of the timestamp. The map is unchanged. |
| ButtonContest.ButtonContestService.ResetDailyStats | src/services/buttoncontest.ts:307-310 | The new map is `Ledger.ResetDaily` of the old one (see the reset lemmas). The archive is untouched. |
| ButtonContest.CountWin | src/services/buttoncontest.ts:248-262 | The `forEach` callback computes exactly one turn of the aggregation, `Archive.AddWin`: a known user gains a win and keeps the greater date, a new user starts with one win. |
| ButtonContest.ButtonContestService.GetDailyWinsLeaderboard | src/services/buttoncontest.ts:246-268 | The loop's map is `Archive.TallyWins` of the archive. The result is `Archive.WinsLeaderboard`, listed by wins. |

### Behaviour the code does not have

- **One archive entry per date.** The in-memory archive appends on every save, so two
  saves on one date give two entries (`SaveDailyWinner`, `SavedWinnerFirst`).
  De-duplication by date would belong to the external store, which is not modelled.
- **Ties in the wins leaderboard broken by latest win date.** The code sorts by wins
  only, with a stable sort. Equal counts therefore keep the map's insertion order, which
  is the order of first archived win (`SortedRowsTies`, `SortedRowsTieAbove`).
- **The most recent name in the wins leaderboard.** The code keeps the name of the
  first archived win (`TallyOfUser`).
- **Rank as 1 + (users with more pushes).** With the stable sort, users with the same
  total who were inserted earlier also count (`GetUserRank`, `RankPosition`).
- **An 8-hour cooldown.** The code uses 30 minutes, and so does the model.

## Left out

- **The external store (Supabase).** The model covers the service without a store:
  - the store calls in `addClick` and `saveDailyWinner`;
  - the store-first branches of `getDailyWinnersHistory` and `getDailyWinsLeaderboard`;
  - `loadDailyWinnersHistory` and the constructor's store argument.

  Only the in-memory paths are modelled. The remote functions are not part of this model.
- **`dailyResetTime` and `historyLoaded`.** They are written but never read by the
  modelled operations.
- **Clocks.** `Date.now()` and `new Date().toISOString()` become the parameters `now`
  and `isoNow`.
- **Text output.** These are not modelled: `formatLeaderboard`,
  `formatDailyWinnersHistory`, `formatDailyWinsLeaderboard`, the reply messages, and
  console logging. Only the numbers the messages carry are modelled (`cooldownMinutes`,
  `sporesAwarded`, the new total).
- **Async behaviour.** `async`/`Promise` wrapping and the fire-and-forget `.catch`
  handlers are left out.
- **Numbers.** JavaScript numbers are modelled as unbounded integers. Floating-point
  rounding, `NaN` and non-integer ids or times are not modelled.
- **Missing counters.** `sporesEarned` and `dailyPushes` are optional in the record
  type, but every stored record has them. They are modelled as `nat`, so the `|| 0`
  fallback for a missing value is not modelled.
- **Aliasing of record objects.** `resetDailyStats` sets `dailyPushes` to 0 on the
  stored record objects in place. A caller still holding an array returned earlier by
  `getLeaderboard` holds those same objects and would see the reset. The model stores
  records as values, so a returned leaderboard is a snapshot. (The wins loop changes
  only the tally objects it created itself, and its rows are fresh copies, so nothing
  is lost there.)
- **Unknown fields of the archive.** Entries loaded from the store are not modelled.
  The history holds only what `saveDailyWinner` appended.
- **String order beyond U+FFFF.** JavaScript compares strings by UTF-16 code units;
  `JsString.StrLess` compares Unicode scalar values. The two orders agree on characters
  below U+10000, which covers ISO dates, but differ for a character above U+FFFF against
  one in U+E000–U+FFFF. `SaveDailyWinner` takes any `isoNow`, so a date part holding such
  characters could be ordered differently by the code.
- **Default arguments.** `getLeaderboard(limit = 10)`, `getDailyWinnersHistory(limit = 30)`
  and `getDailyWinsLeaderboard(limit = 10)` have defaults; the model always takes the
  limit explicitly, so a call without one is the call with 10, 30 or 10.
