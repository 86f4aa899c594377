# SEO automation core: crawl pacing, keyword store and content scheduling

This project models three parts of an SEO automation toolkit.

- **The crawler's rate controller** (`CrawlerController`). It admits at most
  `rate_limit_per_minute` callers in any trailing 60-second window. The
  controller is a class with the quota, the admission deque and the pause
  flag as fields. One admission attempt (`TryAdmit`) is proved equal to a
  pure step function `RateWindow.Step`. `WaitForSlot` repeats that step,
  moving the clock forward by the wait time, until the caller is admitted.
  For any sequence of calls (admission attempts with a non-decreasing clock,
  quota changes, pause, resume), every admission sees at most its quota of
  admissions, itself included, in the minute that ends at it
  (`RateWindow.AdmissionsRespectWindow`).
- **The keyword crawl** (`KeywordCrawler.crawl_keywords`). For each keyword it
  takes one slot from the controller, stores the client's reply with
  `INSERT OR REPLACE`, and returns one result, in keyword order.
- **The content publication workflow** (`ContentScheduler`) over the three
  SQLite tables of `Database`. The tables are modelled as in-memory
  sequences of rows in rowid order:
  - `AUTOINCREMENT` ids come from a counter;
  - `INSERT OR REPLACE` deletes the row with the same
    `(keyword, fetched_at)` key and appends the new one;
  - `UPDATE … WHERE id = ?` rewrites one status;
  - each `SELECT … WHERE … ORDER BY` is a filter followed by a sort on the
    TEXT column under SQLite's BINARY collation, i.e. lexicographic order
    on characters (`Text.LexLe`).

  Publish times are naive `datetime` values (no time zone), rendered by
  `isoformat(timespec="seconds")` as strings of 19 characters.
  `IsoTime.IsoOrderIsChronological` proves that for such values string order
  is chronological order to the second. So, for naive datetimes,
  `due_posts(now)`, which compares strings in SQL, returns exactly the posts
  whose publish time has come.

Modules:
- `Wrappers`: `Option`.
- `Text`: `LexLe`, the string order SQLite uses for TEXT.
- `Ordering`: filter, and insertion sort by a string key, ascending or
  descending.
- `IsoTime`: calendar date-times and their ISO rendering.
- `Storage`: the tables and the `Database` class.
- `RateWindow`: the pure sliding-window controller and its theorems.
- `Crawler`: the `CrawlerController` and `KeywordCrawler` classes.
- `Scheduler`: the `ContentScheduler` class and the `run_due` properties.

Clock readings (`time.time()`, `datetime.utcnow()`) are parameters: `now`
for an admission attempt, `arrivals` for the moments the crawl asks for each
slot, and `now` for `due_posts`/`run_due`. The search client is replaced by
its replies, `responses`, one per keyword.

## Model

| member | source | states |
|---|---|---|
| RateWindow.ClampQuota | crawler/bot.py:18 | the kept quota is at least 1 and at least the requested limit; it is exactly 1 for a request below 1 and equals the request whenever that is positive |
| RateWindow.Purge | crawler/bot.py:43-45 | purging never lengthens the deque |
| RateWindow.PurgeCutsStalePrefix | crawler/bot.py:43-45 | the purged deque is a suffix of the old one, every removed entry is at least 60 s old at `now`, and the new front entry (if any) is younger |
| RateWindow.PurgeRemovesLongestStalePrefix | crawler/bot.py:43-45 | the purge removes exactly the longest prefix of entries that are at least 60 s old, and keeps the rest unchanged and in order |
| RateWindow.PurgeLeavesOnlyRecent | crawler/bot.py:43-45 | on a chronologically ordered deque, no entry left by the purge is 60 s old or more, and the order is kept |
| RateWindow.PurgeCompose | crawler/bot.py:43-45 | purging at one clock value and then at a later one is the same as purging once at the later one |
| RateWindow.PurgeIdempotent | crawler/bot.py:43-45 | a second purge at the same instant removes nothing |
| RateWindow.Step | crawler/bot.py:39-54 | one admission attempt: the outcome is `BlockedPaused` exactly when paused, and then nothing changes; otherwise the caller is admitted iff fewer than quota entries survive the purge, and then `now` is appended, giving at most quota entries; else (a full window) it must wait exactly until the front entry turns 60 s old, a positive time; the quota and flag never change |
| RateWindow.WaitAtMostWindow | crawler/bot.py:49-52 | when no entry is later than `now`, a full window never asks for a wait longer than 60 s |
| RateWindow.StepKeepsSorted | crawler/bot.py:44-47 | with a clock that does not run backwards, admissions and purges keep the deque in chronological order |
| RateWindow.CountRecentAppend | crawler/bot.py:37-54 | the number of admissions inside a window is additive over concatenated histories |
| RateWindow.CountRecentOfStale | crawler/bot.py:43-45 | admissions that are all 60 s old or more count for nothing in the window |
| RateWindow.CountRecentAtMostLength | crawler/bot.py:37-54 | a history holds at most as many admissions in the window as it has entries |
| RateWindow.TracksLater | crawler/bot.py:43-45 | once the deque is the tail of the admission history with only stale entries before it, this stays true at any later clock value |
| RateWindow.StaleCut | crawler/bot.py:43-45 | cutting a stale prefix off a tail of the history leaves a tail with only stale entries before it |
| RateWindow.TracksPurge | crawler/bot.py:43-45 | the purge keeps the deque tracking the admission history |
| RateWindow.TracksAdmit | crawler/bot.py:46-47 | appending `now` to both the deque and the history keeps the tracking |
| RateWindow.TracksCount | crawler/bot.py:37-54 | the admissions of the history inside the window are at most the entries of the deque |
| RateWindow.StepRespectsWindow | crawler/bot.py:39-54 | an admission leaves at most quota admissions in the trailing minute, counting the new one, and every step keeps the tracking |
| RateWindow.ControlKeepsTracks | crawler/bot.py:23-35 | changing the quota or the pause flag keeps the deque tracking the history |
| RateWindow.Times | crawler/bot.py:47 | the admission times of a run, one per admission |
| RateWindow.Replay | crawler/bot.py:17-54 | a sequential run of calls keeps the quota at least 1 |
| RateWindow.WindowRespectedSnoc | crawler/bot.py:46-48 | a new admission that keeps its own window within its quota extends a run in which every admission did |
| RateWindow.ClockIsLastAcquire | crawler/bot.py:42 | the latest clock value of a run is its start or the clock of one of its admission attempts |
| RateWindow.ClockBeforeNextAcquire | crawler/bot.py:42 | under a monotone clock the next attempt never sees a clock earlier than the run's latest |
| RateWindow.ReplayTracks | crawler/bot.py:17-54 | in every sequential run from an empty deque, the deque tracks the admission history and every admission stayed within its quota |
| RateWindow.AdmissionsRespectWindow | crawler/bot.py:17-54 | for any calls with a non-decreasing clock, every admission sees at most the quota in force when it was admitted of admissions in the 60 s that end at it |
| RateWindow.FirstTwoCallersAdmitted | crawler/bot.py:46-48 | with quota 2 and an empty deque, two callers at t = 0 are both admitted |
| RateWindow.ThirdCallerWaitsFullWindow | crawler/bot.py:49-52 | a third caller at t = 0 is told to wait exactly 60 s |
| RateWindow.ThirdCallerAdmittedAfterWindow | crawler/bot.py:43-48 | at t = 60 both earlier entries are purged and the third caller is admitted |
| RateWindow.RaisedQuotaAdmitsAtOnce | crawler/bot.py:23-26 | a caller blocked under quota 1 is admitted at once after the limit is raised to 10 |
| RateWindow.PausedControllerAdmitsNobody | crawler/bot.py:40-41 | while paused, nobody is admitted and the deque is left alone |
| Crawler.CrawlerController.constructor | crawler/bot.py:17-21 | quota is `max(1, n)`, the deque is empty and the controller is not paused |
| Crawler.CrawlerController.SetRateLimit | crawler/bot.py:23-26 | the quota becomes `max(1, n)`; deque and flag are unchanged |
| Crawler.CrawlerController.Pause | crawler/bot.py:28-30 | sets the flag and nothing else, so a second call changes nothing |
| Crawler.CrawlerController.Resume | crawler/bot.py:32-35 | clears the flag and nothing else, so a second call changes nothing |
| Crawler.CrawlerController.TryAdmit | crawler/bot.py:39-54 | the in-place purge loop and admission produce exactly the state and outcome of `RateWindow.Step`, and an admission is recorded in the history |
| Crawler.CrawlerController.WaitForSlot | crawler/bot.py:37-54 | no slot while paused, and then nothing changes; otherwise the caller is admitted at some `t >= now` at which the purged deque had room, the deque becomes the purge at `t` plus `t`, admission is immediate when there was room at `now`, the purged deque was full at every clock value in `[now, t)` so `t` is the first moment with room, and `t <= now + 60` when no entry is later than `now` |
| Crawler.PurgeStopsAtFreshFront | crawler/bot.py:44 | the purge loop stops at a front entry younger than 60 s |
| Crawler.PurgeShrinks | crawler/bot.py:44-45 | a purge at a clock at which the front is stale drops at least one entry |
| Crawler.PurgeSuffixBounded | crawler/bot.py:44-45 | the purge keeps any upper bound on the entries |
| Crawler.ResultOf | crawler/bot.py:57-64 | a crawl result carries the client's six metrics field by field |
| Crawler.ResultsOf | crawler/bot.py:79-86 | one result per reply |
| Crawler.ResultsOfInOrder | crawler/bot.py:79-86 | the i-th result is built from the i-th reply |
| Crawler.ResultsOfOneMore | crawler/bot.py:85 | one more keyword appends exactly one result |
| Crawler.AfterGrants | crawler/bot.py:44-47 | the deque after a run of admissions; its newest entry is the latest grant |
| Crawler.GrantsAdmitSnoc | crawler/bot.py:80-81 | a grant that admits the next caller on the deque the earlier grants left extends the run, and the deque becomes its purge plus the grant |
| Crawler.GrantsFollowArrivals | crawler/bot.py:80-81 | in a crawl every admission comes no earlier than its request and found room in the purged window |
| Crawler.CrawledInTurnSnoc | crawler/bot.py:80-81 | one more keyword's admission extends the controller's state after the crawl by one grant |
| Crawler.CrawlStoresEveryReply | tests/test_workflow.py:21-25 | when the replies have distinct keys, the table built by the crawl from an empty store holds exactly the replies, as the workflow test expects |
| Crawler.KeywordCrawler.constructor | crawler/bot.py:67-76 | the given controller is used, and without one a fresh controller with quota 60 is created |
| Crawler.KeywordCrawler.CrawlKeyword | crawler/bot.py:81-85 | while paused there is no slot and nothing changes; otherwise the slot is granted at a time `t` no earlier than the request that is the first moment from the request on at which the purged window had room (at once if it had room on arrival, within 60 s if no entry was later than the request), the deque becomes its purge at `t` plus `t`, the reply is upserted and its result returned |
| Crawler.KeywordCrawler.CrawlKeywords | crawler/bot.py:78-86 | no results iff paused with keywords to crawl (nothing changes then); otherwise one result per keyword in order, the table is the old one upserted with every reply in turn, and exactly one admission per keyword, each granted as `wait_for_slot` grants it, at the first moment from its arrival with room in the deque the earlier ones left, with the final deque what those admissions leave |
| Storage.WithoutKey | storage/database.py:113 | the rows kept are exactly those whose `(keyword, fetched_at)` key differs from the new row's |
| Storage.WithoutKeyKeepsKeysUnique | storage/database.py:78 | deleting rows keeps the primary key unique |
| Storage.Upsert | storage/database.py:109-118 | the new row is the last row of the table |
| Storage.UpsertReplacesKey | storage/database.py:109-118 | after `INSERT OR REPLACE` the table holds the new row and exactly the old rows with other keys, and the key stays unique |
| Storage.UpsertLeavesOneRowForKey | storage/database.py:109-118 | exactly one row has the new row's key, and it is the new row |
| Storage.UpsertAll | crawler/bot.py:84 | the table after one upsert per reply in turn always stores the last reply given |
| Storage.UpsertAllOneMore | storage/database.py:109-118 | one more ranking is one more upsert |
| Storage.UpsertAllStoresLatest | storage/database.py:109-118 | a run of upserts keeps keys unique, stores only old or given rows, and stores the last ranking given for each key |
| Storage.ContentIdsIdentify | storage/database.py:85 | two rows with the same id are the same row |
| Storage.SetStatus | storage/database.py:144-149 | only the status of the row with that id changes; every other row and field stays |
| Storage.SetStatusMissingId | storage/database.py:144-149 | an update naming an id no row has is a no-op |
| Storage.IsDue | storage/database.py:168 | the due condition; a post whose publish time is exactly `now` is due unless Posted, since the comparison is `<=` |
| Storage.DueStaysDue | storage/database.py:168 | a post due at `now` stays due at every later instant until it is Posted |
| Storage.Given | storage/database.py:153 | Python truthiness of the optional filter: `None` and `""` both mean no filter, and every non-empty string is a filter |
| Storage.Database.constructor | storage/database.py:67-106 | the three tables are created empty and their AUTOINCREMENT counters start at 0 |
| Storage.Database.UpsertKeywordRanking | storage/database.py:109-118 | the keyword table becomes the upsert of the ranking, with keys still unique; other tables are untouched |
| Storage.Database.FetchKeywordRankings | storage/database.py:120-130 | exactly the rows of keyword `k` (all rows when `k` is None or empty), each at most as often as stored, newest `fetched_at` first |
| Storage.Database.AddContent | storage/database.py:133-142 | AUTOINCREMENT: the returned id is one more than the last issued and above every existing id; exactly one row is appended; other tables are unchanged |
| Storage.Database.UpdateContentStatus | storage/database.py:144-149 | the content table becomes `SetStatus` of the old one, and nothing else changes |
| Storage.Database.FetchContent | storage/database.py:151-161 | exactly the rows with that status (all rows when none or empty is given), ordered by `publish_at` ascending |
| Storage.Database.FetchDueContent | storage/database.py:163-174 | exactly the rows with `publish_at <= now` as TEXT and status not Posted, ordered by `publish_at`; empty iff no row is due |
| Storage.Database.InsertReport | storage/database.py:177-194 | AUTOINCREMENT: the returned id is one more than the last issued and above every existing id; exactly one report is appended |
| Storage.Database.FetchReports | storage/database.py:196-200 | a permutation of all reports, latest `end_date` first |
| Text.LexLe | storage/database.py:168 | TEXT `<=` under the BINARY collation; a prefix sorts no later than any extension of it |
| Text.LexLeReflexive | storage/database.py:168 | every string is `<=` itself under TEXT comparison |
| Text.LexLeTotal | storage/database.py:124 | any two strings are comparable, so `ORDER BY` on a TEXT column is well defined |
| Text.LexLeAntisymmetric | storage/database.py:168 | strings each `<=` the other are equal |
| Text.LexLeTransitive | storage/database.py:168 | TEXT `<=` is transitive |
| Text.LexLeSamePrefixChar | storage/database.py:168 | a common first character does not change the comparison |
| Text.LexLeAppend | storage/database.py:168 | comparing equal-length heads then tails is comparing the concatenations |
| Ordering.InOrderTotal | storage/database.py:124 | any two keys are in order one way or the other |
| Ordering.InOrderTransitive | storage/database.py:124 | key order is transitive, ascending or descending |
| Ordering.Filter | storage/database.py:155 | the `WHERE` filter keeps exactly the matching rows, with their multiplicities |
| Ordering.Insert | storage/database.py:159 | inserting a row into a result adds exactly that row |
| Ordering.InsertSorted | storage/database.py:159 | inserting into a sorted result keeps it sorted |
| Ordering.Sort | storage/database.py:159 | `ORDER BY` returns a permutation of its rows, sorted by the key |
| IsoTime.DaysInMonth | scheduler/content_scheduler.py:26 | months have 28 to 31 days, and February has 29 exactly in leap years |
| IsoTime.InRange | scheduler/content_scheduler.py:26 | the field ranges a `datetime` accepts; each field then fits its zero-padded width in the ISO rendering |
| IsoTime.Digits | scheduler/content_scheduler.py:30 | a zero-padded field has its fixed width |
| IsoTime.DigitsOrder | scheduler/content_scheduler.py:30 | zero-padded fields of one width are equal, or ordered as text, exactly as their numbers are |
| IsoTime.IsoSeconds | scheduler/content_scheduler.py:30 | the rendering to the second is always 19 characters long |
| IsoTime.FieldThen | scheduler/content_scheduler.py:30 | comparing two renderings compares the leading field first, then the rest |
| IsoTime.IsoOrderIsChronological | scheduler/content_scheduler.py:30 | the `publish_at <= ?` TEXT comparison of the due query is chronological: one rendering is `<=` the other iff the first instant is no later, to the second |
| IsoTime.IsoSecondsEqual | scheduler/content_scheduler.py:30 | two renderings are equal iff the instants agree to the second |
| IsoTime.ChronologicalImpliesIsoOrder | scheduler/content_scheduler.py:30 | an earlier instant renders to a text that is not greater |
| Scheduler.DueMeansPublishTimeReached | scheduler/content_scheduler.py:39-42 | a scheduled post is due at `now` iff its publish time is no later than `now`, to the second, and it is not Posted |
| Scheduler.ContentScheduler.constructor | scheduler/content_scheduler.py:23-24 | the scheduler works on the given store |
| Scheduler.ContentScheduler.SchedulePost | scheduler/content_scheduler.py:26-33 | stores and returns a Scheduled post with the given title, author and ISO publish time, under the fresh id the store issued, which becomes the store's AUTOINCREMENT counter; nothing else changes |
| Scheduler.ContentScheduler.ListPosts | scheduler/content_scheduler.py:35-37 | exactly the posts with that status (all when none or empty is given), by publish time |
| Scheduler.ContentScheduler.DuePosts | scheduler/content_scheduler.py:39-42 | exactly the posts due at `now`, earliest publish time first |
| Scheduler.ContentScheduler.MarkPosted | scheduler/content_scheduler.py:44-45 | only the status of that post becomes Posted |
| Scheduler.ContentScheduler.RunDue | scheduler/content_scheduler.py:47-51 | returns the posts that were due, marks exactly them Posted, leaves every other post as it was, and nothing is due afterwards |
| Scheduler.PublishDue | scheduler/content_scheduler.py:47-51 | due rows become Posted; other rows and every other field stay unchanged |
| Scheduler.NothingDueAfterPublish | scheduler/content_scheduler.py:47-51 | after publishing at `now` no row is due at `now`, so a second `run_due(now)` returns nothing |
| Scheduler.PublishDueIdempotent | scheduler/content_scheduler.py:47-51 | publishing twice at one instant is publishing once |
| Scheduler.MarkAll | scheduler/content_scheduler.py:49-50 | the `run_due` loop's marking of each post in turn changes statuses only: every row keeps its id, title, author and publish time |
| Scheduler.MarkAllOneMore | scheduler/content_scheduler.py:49-50 | one more iteration is one more `mark_posted` |
| Scheduler.MarkAllMarksIds | scheduler/content_scheduler.py:49-50 | marking a run of posts marks exactly the rows whose id one of them carries |
| Scheduler.MarkingDueIdsPublishesDue | scheduler/content_scheduler.py:47-51 | since AUTOINCREMENT ids identify rows, marking the due posts' ids marks exactly the due rows |
| Scheduler.PublishPastOnly | tests/test_workflow.py:34-38 | of one due and one not-due post, only the due one is published |
| Scheduler.OnlyPastDue | tests/test_workflow.py:37-38 | with one past and one future post, the due list is the past post alone |
| Scheduler.OnlyFutureStillScheduled | tests/test_workflow.py:40-41 | once the past post is Posted, only the future post is listed as Scheduled |
| Scheduler.IdList | tests/test_workflow.py:38 | the ids of a list of posts, in order |
| Scheduler.PublishesOnlyPastPosts | tests/test_workflow.py:29-41 | a post before `now` and one after: the ids of the posts `run_due` returns are exactly `[past.id]`, and the ids of the posts still Scheduled are exactly `[future.id]` |

## Left out

- Threads, the lock and the condition variable of `CrawlerController`
  (`wait`, `notify_all`) are not modelled. Every call runs alone, and the
  window theorem is about a sequential run of calls in lock order.
- Crawler.CrawlerController.WaitForSlot: a paused controller returns `None`
  instead of blocking until another thread resumes it, and a full window
  advances the clock by exactly the wait time, since no other thread can
  wake the waiter early.
- Crawler.KeywordCrawler.CrawlKeywords: while paused it returns `None`
  instead of blocking (an empty keyword list still returns no results).
- `time.time()` and `datetime.utcnow()` are clock parameters. The default
  `now` of `due_posts`/`run_due` (`now or datetime.utcnow()`) is therefore
  not modelled: the caller always gives `now`.
- The `popleft` fallback of `wait_for_slot` (`wait_time <= 0`) is not
  modelled as a step. It is unreachable, because the purge and the wait
  time use the same clock reading, and `TryAdmit` asserts this.
- The SQLite connection, cursor, commit, database path, directory creation
  and `close` are left out; only the tables' contents are modelled.
- The search client is not modelled; its replies are the `responses`
  parameter. So the workflow test's `impressions >= clicks`, which depends on
  the client's mock data, is not stated.
- REAL columns (`position`, `average_position`) are opaque `real` values that
  are stored and returned, never computed. No floating-point rounding is
  modelled.
- Storage.Database.FetchKeywordRankings, Storage.Database.FetchContent,
  Storage.Database.FetchDueContent and Storage.Database.FetchReports: the
  relative order of rows with equal sort keys is not stated, since SQLite
  does not promise it. `FetchReports` states a permutation; the filtered
  queries state membership and that no row is repeated more often than
  stored.
- The `KeywordRanking(**metrics)` and `CrawlResult(**metrics)` errors for a
  reply with missing or extra keys are left out. A reply is modelled as a
  well-formed ranking.
- Time-zone-aware `datetime` values are left out. Their `isoformat` adds an
  offset such as `+02:00`, and then the TEXT `<=` of the due query is not
  chronological across different offsets, or against a naive `now`. The
  model takes publish times and `now` as naive datetimes.
- `time.time()` returns a float; the model's clock values are exact `real`s.
  For realistic clock magnitudes `now - t` in the purge test is exact in
  floating point too (Sterbenz's lemma), but float rounding is not modelled.
- `insert_report` fails with a `ProgrammingError` when the report dict lacks
  one of the named parameters; the model takes a `ReportFields` value with
  every field present, so that error path is left out.
- SQLite's INTEGER columns, ids and AUTOINCREMENT counters are 64-bit; the
  model's integers are unbounded, so exhaustion of the id space is not
  modelled.
- The per-call clamp of `max(1, n)` is modelled over unbounded integers;
  Python's integers are unbounded too.
