# Quote site: batch copy and moderation store, in Dafny

This project models the two pieces of sequential logic at the heart of a small quote-sharing site.

- **The browser's batch-copy controller** (`static/script.js`).
  - `startBatchCopy` checks the requested count (1 to 50). It requests that many random approved quotes and receives up to that many (fewer when fewer are approved), then copies them one at a time to the clipboard.
  - It keeps a counter and a percentage on screen and pauses one second between quotes.
  - `cancelBatchCopy` can stop it at any suspension point.
  - Every exit path goes through `finally`, which leaves the controller idle.
  - Beside it are small pure helpers: the font-size bucket of the quote card, the status badge text, the pending count and the approve-all button of the dashboard, and the empty-keyword guard of the search box.
- **The server's moderation store** (`app.py`).
  - Users submit quotes. Submissions are validated and deduplicated, and start out pending.
  - An administrator reviews, adds, deletes and approves all pending quotes. Each admin handler first checks the session flag and refuses with 401 without it.
  - The public endpoints serve random approved quotes, with the batch size clamped to 1 to 50.
  - A leaderboard ranks named authors by their number of approved quotes.
  - Two tables count page views and API calls per day.

The model is functional. The store is a `Store` value: a sequence of `Row`s plus the autoincrement counter. Each handler is a pure function from the store, the session's `admin` flag and the request to the new store and a reply. The batch-copy run is a pure function of these inputs:
- the parsed count;
- the fetch outcome;
- an `Env` that says what each clipboard write did and whether the shared `batchCopyActive` flag was still set when the script resumed after each `await`.

The run produces the final screen state, the trace of observable effects (fetch, writes, progress updates, pauses, alerts) and how the run ended.

Modules:
- `Wrappers`: `Option` and `Result`.
- `Text`: Python's `str.strip` and JavaScript's `String.prototype.trim`, which strip different white-space sets, and JavaScript's UTF-16 `length`.
- `BatchCopy`: `startBatchCopy` and `cancelBatchCopy`.
- `ClientViews`: `adjustFontSize`, `getStatusText`, the pending count and `updateApproveAllButton`, the search guard.
- `Moderation`: the store, `check_duplicate`, `submit_sentence`, the admin endpoints.
- `Sampling`: the two random-quote endpoints.
- `Counters`: `update_page_view` and `update_api_usage`.
- `Leaderboard`: `get_leaderboard`.
- `EndToEnd`: what the browser does with what the server returns.

Behaviour kept as the code has it:
- The cancel flag *is* the active flag. The flag a suspended run reads on waking is derived from the clicks that arrived while it slept, as long as no other run reaches its `finally` in between: a cancel click clears it, and an accepted start click sets it (`BatchCopy.AfterClicks`). A cancel with no later accepted start stops the loop at its next check (`BatchCopy.CancelDuringPauseStops`). Cancelling and then starting again while the first run sleeps in its pause sets the flag back, so the first run wakes up and writes the next quote too (`BatchCopy.CancelThenRestartRevivesLoop`). The code therefore does not guarantee a single active run.
- The percentage divides by the requested count, not by the number of quotes received. A run that received fewer quotes never shows 100% (`BatchCopy.ShortFetchNeverShowsFull`).
- On the fallback path, `execCommand('copy')` returning false counts as a copied quote (`BatchCopy.DeclinedCountsAsCopied`).
- `cancelBatchCopy` hides the progress display immediately, before the loop notices the cancel.
- The admin add endpoint checks duplicates on the stripped content but stores the unstripped content's key. Adding padded content twice is therefore stopped only by the UNIQUE constraint, as a server error (`Moderation.AddingPaddedContentTwiceFails`). The stripped copy can later be submitted as a new quote (`Moderation.SubmittingStrippedCopyOfPaddedContent`).
- The delete endpoint treats an id of 0 like a missing id.
- The dashboard computes its pending count from the rows listed under the current filter. With the "approved" or "rejected" filter, the approve-all button is disabled even while quotes are pending (`EndToEnd.FilteredListingDisablesButton`).

## Model

| member | source | states |
|---|---|---|
| `Text.LeadingSpaces` | app.py:219 | the white-space prefix length: all of the prefix is white space and the next character is not |
| `Text.TrailingSpaces` | app.py:219 | the mirror image: the white-space suffix length |
| `Text.Strip` | app.py:219 | the result has no white space at either end; it is empty iff the input is all white space; it is the input with a white-space prefix and suffix removed |
| `Text.StripTrimmed` | app.py:219 | stripping text without surrounding white space returns it unchanged |
| `Text.StripIdempotent` | app.py:219 | stripping twice equals stripping once, so a stripped value's key is itself |
| `Text.Utf16Length` | static/script.js:47 | JavaScript's `length` is between the number of code points and twice that, and equals it for text in the Basic Multilingual Plane |
| `BatchCopy.Percentage` | static/script.js:248 | the percentage shown is never negative and at most 100 while no more were copied than requested; it is exact half-up rounding except at 23 of 40, where the double computation shows 57 |
| `BatchCopy.DoubleRoundingAt23Of40` | static/script.js:248 | at 23 of 40 the bar shows 57% while exact rounding would give 58%; its neighbours 22 and 24 of 40 show 55% and 60% either way |
| `BatchCopy.HalfUp` | static/script.js:248 | exact half-up rounding of copied/count·100 stays within 0..100 while no more were copied than requested |
| `BatchCopy.PercentageFullIffAllCopied` | static/script.js:248 | for counts 1 to 50 the bar reads 100% exactly when every requested quote was copied |
| `BatchCopy.PercentageBelowFull` | static/script.js:248 | with fewer quotes copied than requested (1 to 50) the rounded percentage stays below 100 |
| `BatchCopy.PercentageFull` | static/script.js:248 | copying as many quotes as requested rounds to exactly 100 |
| `BatchCopy.PercentageOfNone` | static/script.js:208-210 | no quote copied shows 0%, the value `Begin` displays |
| `BatchCopy.PercentageMonotone` | static/script.js:248 | copying more never lowers the percentage shown, the 23-of-40 exception included |
| `BatchCopy.Begin` | static/script.js:205-211 | the state set before the fetch: active, button disabled, progress shown, counter and percentage zero, total the count |
| `BatchCopy.Release` | static/script.js:265-269 | `finally` clears the flag, re-enables the button, hides the progress, and leaves the displayed numbers as they are |
| `BatchCopy.CancelBatchCopy` | static/script.js:272-276 | cancel leaves the controller idle with the button enabled and the progress hidden, touching no displayed number, whether or not a run is active |
| `BatchCopy.FiltersAppend` | static/script.js:224-256 | the write, progress and pause projections of a trace distribute over concatenation |
| `BatchCopy.FiltersSingle` | static/script.js:224-256 | the projections of a one-effect trace |
| `BatchCopy.ExpectedReports` | static/script.js:246-250 | the progress updates owed for copying quotes lo+1..hi: one per quote |
| `BatchCopy.Loop` | static/script.js:226-256 | the loop from index i copies between i and all of the quotes; it finishes exactly when it copies all of them; a cleared flag at the loop top stops it with no further effect |
| `BatchCopy.Copied` | static/script.js:242-255 | one successful iteration reports progress i+1 with its percentage |
| `BatchCopy.LoopWrites` | static/script.js:226-244 | the loop writes the quotes in fetch order, from index i up to the last one it attempted |
| `BatchCopy.WritesStep` | static/script.js:232-246 | a copied quote puts its own write in front of the writes of the rest of the loop |
| `BatchCopy.WritesStop` | static/script.js:226-233 | a loop that stops at index i wrote nothing (cleared flag or end of batch) or only the quote whose write threw |
| `BatchCopy.LoopReports` | static/script.js:246-250 | the loop reports copied counts i+1, i+2, … with their percentages, one per copied quote |
| `BatchCopy.ReportsStep` | static/script.js:246-250 | a copied quote puts the report for count i+1 in front of the reports of the rest of the loop |
| `BatchCopy.LoopPauses` | static/script.js:253-255 | the loop pauses at most once per copied quote, never after the last one, and exactly len−1 times when it finishes |
| `BatchCopy.NoNoticeInLoop` | static/script.js:226-256 | the loop itself never shows the success notice |
| `BatchCopy.LoopFacts` | static/script.js:213-264 | the whole-run trace: the fetch first, the writes a prefix of the quotes, one report per copied quote, the notice exactly when the loop finished with the flag still set |
| `BatchCopy.LoopFilters` | static/script.js:213-264 | the writes of the whole trace are the quotes up to the last one attempted; one report per copied quote; at most one pause per copied quote, and len−1 pauses when the loop finished |
| `BatchCopy.LoopNotice` | static/script.js:258-260 | the whole trace holds the success notice iff the loop finished with the flag still set |
| `BatchCopy.LoopThrowNamesStep` | static/script.js:232-233 | a loop that ended by a throw stopped at the quote whose write threw, and carries that write's exception |
| `BatchCopy.LoopEnding` | static/script.js:253-264 | the whole trace pauses fewer times than quotes were fetched; after a throwing write the alert with that write's message is the last effect |
| `BatchCopy.StartBatchCopy` | static/script.js:196-270 | a click while active is a no-op; a NaN or out-of-range count alerts before any state change or fetch; otherwise the run fetches first and every exit leaves the controller idle with the requested total shown |
| `BatchCopy.CopyRun` | static/script.js:213-269 | every ending is one of five outcomes; a fetch error and an empty fetch are recognised exactly; writes follow fetch order; the notice shows iff the run completed; a completed run wrote every quote with len−1 pauses; a failed write is the last write; the counter and percentage match the reports |
| `BatchCopy.CopyItems` | static/script.js:224-269 | the same facts for a non-empty fetch, with the counter equal to the copied writes (one fewer when the last write threw); fewer pauses than quotes; a failed write is the quote at the counter's index, and its message is in the last alert |
| `BatchCopy.RunEndsWithItsAlert` | static/script.js:213-264 | a failed fetch leaves exactly the fetch and an alert with the fetch's error; an empty batch leaves the fetch and the "no items" alert; a failed write ends the trace with the alert carrying that write's message; a run that fetched quotes pauses fewer times than it fetched |
| `BatchCopy.AlertRun` | static/script.js:213-269 | a failed fetch or an empty batch leaves a trace of just the fetch and its alert: no write, no report, no pause, no notice; `finally` leaves the controller idle with the counter at 0 |
| `BatchCopy.UndisturbedLoop` | static/script.js:226-256 | with no cancel and no thrown write, the loop copies every quote and ends with the flag set |
| `BatchCopy.UndisturbedFrom` | static/script.js:226-256 | the same from any index before the end of the batch |
| `BatchCopy.UndisturbedStep` | static/script.js:227-255 | an undisturbed iteration hands a set flag to the next one, so the loop finishes with the flag set if the rest does |
| `BatchCopy.LoopAtEnd` | static/script.js:226 | at the end of the batch the loop does nothing and keeps the flag as it was |
| `BatchCopy.HappyPath` | static/script.js:196-270 | an undisturbed run completes, writes every quote in order, reports each, pauses between them, and shows 100% exactly when as many quotes came back as were requested |
| `BatchCopy.ThreeItemScenario` | static/script.js:246-255 | requesting 3 and getting three quotes reports 33%, 67% and 100%, with two pauses |
| `BatchCopy.ShortFetchNeverShowsFull` | static/script.js:248 | a run that received fewer quotes than requested never shows 100% |
| `BatchCopy.AfterClick` | static/script.js:196-211 | a cancel click (lines 272-276) leaves the flag cleared, the progress hidden and the button enabled; a start click leaves the flag set iff it was set or the count passes its check |
| `BatchCopy.StartClickAgrees` | static/script.js:196-215 | a refused start click leaves the controller exactly as the whole handler does; an accepted one sets the flag, and its run fetches the requested count first |
| `BatchCopy.CancelStands` | static/script.js:272-276 | after a cancel click with no accepted start click later, the flag is cleared |
| `BatchCopy.StartStands` | static/script.js:205 | after an accepted start click with no cancel click later, the flag is set |
| `BatchCopy.QuietClicksKeepFlag` | static/script.js:196-203 | clicks that are neither a cancel nor an accepted start leave the flag as it was |
| `BatchCopy.CancelDuringWriteStops` | static/script.js:227-255 | a cancel click during a clipboard write, with no accepted start after it, makes that write the last one, with no pause after it |
| `BatchCopy.CancelDuringPauseStops` | static/script.js:227-255 | a cancel click during the pause after a quote, with no accepted start after it, makes that quote the last one written, and the loop breaks |
| `BatchCopy.DeclinedCountsAsCopied` | static/script.js:242 | an `execCommand` that returns false leaves the run exactly as a successful write would |
| `BatchCopy.CancelThenRestartRevivesLoop` | static/script.js:196-276 | a cancel click and then an accepted start click during the pause after quote i set the flag again, so the paused loop writes quote i+1 as well, continuing in fetch order |
| `ClientViews.AdjustFontSize` | static/script.js:46-59 | exactly one of the four size classes is set, chosen by length ≤20, ≤50, ≤100 or more, and every other class is kept |
| `ClientViews.SizeClassMonotone` | static/script.js:50-58 | a longer quote never gets a smaller bucket |
| `ClientViews.StatusText` | static/script.js:592-599 | the three known statuses get their labels; any other status is shown as is |
| `ClientViews.StatusTextDistinguishesKnownStatuses` | static/script.js:592-599 | the three labels differ from each other and from every status name |
| `ClientViews.PendingCount` | static/script.js:444 | the number of listed statuses equal to 'pending'; zero iff none is |
| `ClientViews.ApproveAllButtonFor` | static/script.js:543-556 | the button is disabled iff the pending count is 0, and otherwise shows that count |
| `ClientViews.ApproveAllDisabledIffNonePending` | static/script.js:543-556 | after a listing, the button is disabled iff no listed quote is pending |
| `ClientViews.SearchKeyword` | static/script.js:149-153 | the search stops before any request iff the input is all white space; otherwise it sends the input trimmed by JavaScript's `trim`, which is non-empty |
| `ClientViews.SearchKeywordStable` | static/script.js:149 | trimming the accepted keyword again changes nothing |
| `Moderation.CheckDuplicate` | app.py:107-117 | true iff some row's key equals the stripped content |
| `Moderation.Insert` | app.py:24-33 | an insert fails iff its key is already present (the UNIQUE constraint); otherwise it appends a row with the next id and keeps the store's invariants |
| `Moderation.SubmitErrors` | app.py:223-237 | each of the four errors is reported iff its condition holds, the duplicate check only for non-empty content |
| `Moderation.SubmitSentence` | app.py:215-259 | a row is inserted iff there is no error; it is pending, keyed by the stripped content, and signed '匿名' when the author is blank; a rejected submission changes nothing; on a valid store it never crashes and keeps the invariants |
| `Moderation.ResubmissionRefused` | app.py:236-245 | after a successful submission the same content is a duplicate, so resubmitting it with any author is refused and changes nothing |
| `Moderation.ListSentences` | app.py:296-326 | without the session flag the reply is 401; otherwise the listing holds exactly the rows whose status equals the filter, or all rows; the store is unchanged |
| `Moderation.Keep` | app.py:310 | the rows kept are exactly those whose status text equals the filter |
| `Moderation.SetStatus` | app.py:342-347 | only the row with the given id changes: it gets the new status and the reviewer 'admin' |
| `Moderation.ReviewSentence` | app.py:329-351 | 401 without the session flag; otherwise success always; approve and reject set the status of the matching row only; any other action changes nothing; the invariants hold |
| `Moderation.AddSentence` | app.py:354-378 | 401 without the session flag; empty content refused; a stripped duplicate refused; an unstripped key clash is a server error; otherwise an approved row keyed by the unstripped content is appended |
| `Moderation.RemoveId` | app.py:397 | the rows left are exactly those with another id |
| `Moderation.RemoveKeepsDistinctIds` | app.py:397 | deleting rows keeps ids distinct |
| `Moderation.RemoveKeepsDistinctKeys` | app.py:397 | deleting rows keeps content keys distinct |
| `Moderation.DeleteSentence` | app.py:381-403 | 401 without the session flag; a missing or zero id is refused; otherwise exactly the rows with that id are removed and the reply is success |
| `Moderation.CountPending` | app.py:489-490 | the number of pending rows; zero iff none is pending |
| `Moderation.ApprovePending` | app.py:497-498 | every pending row becomes approved with reviewer 'admin'; every other row is unchanged |
| `Moderation.ApproveAllPending` | app.py:479-506 | 401 without the session flag; the reply counts the rows pending before; afterwards none is pending; other rows are unchanged; with nothing pending the store is untouched |
| `Moderation.AddingPaddedContentTwiceFails` | app.py:365-373 | adding " x" twice passes the duplicate check both times and the second insert fails on the UNIQUE constraint |
| `Moderation.SubmittingStrippedCopyOfPaddedContent` | app.py:368 | after an admin adds " x", submitting "x" is accepted as a second row |
| `Moderation.PaddedKeys` | app.py:109 | the stripped key of " x" and of "x" is "x" |
| `Counters.InsertOrIgnore` | app.py:86 | a zero row is added for the day unless one exists; existing days keep their counts |
| `Counters.Bump` | app.py:86-87 | the day's count rises by exactly 1, from 0 if absent; other days are unchanged |
| `Counters.RecordPageView` | app.py:79-90 | a page view bumps today's page-view count and leaves API usage alone |
| `Counters.RecordApiCall` | app.py:93-104 | an API call bumps today's API count and leaves page views alone |
| `Counters.InsertOrIgnoreIdempotent` | app.py:100 | seeding a day twice is seeding it once |
| `Counters.BumpTimesCounts` | app.py:100-101 | n calls on one day raise its count by exactly n and touch no other day |
| `Counters.BumpsCommute` | app.py:86-87 | calls on two days can be recorded in either order |
| `Sampling.ClampCount` | app.py:156-159 | the count is clamped into 1..50 and left alone inside that range |
| `Sampling.ClampStable` | app.py:156-159 | clamping is idempotent and monotone |
| `Sampling.ApprovedRows` | app.py:163 | the rows selected are exactly the approved ones |
| `Sampling.Pick` | app.py:163-172 | the first n quotes in shuffled order |
| `Sampling.GetMultipleRandomSentences` | app.py:150-177 | records an API call; returns min(clamped count, number approved) quotes of distinct approved rows; `count` equals the number returned |
| `Sampling.GetRandomSentence` | app.py:127-147 | records an API call; returns an approved quote, or the placeholder signed '系统' when none is approved |
| `Leaderboard.Authors` | app.py:428-437 | the groups: every author of an approved row not signed '匿名' or '系统', each once |
| `Leaderboard.Submissions` | app.py:429 | the count of approved rows signed by an author is at most the row count |
| `Leaderboard.SubmissionsPositive` | app.py:429-437 | an author in a group has at least one approved quote |
| `Leaderboard.Tallies` | app.py:429-437 | one (author, count) pair per group |
| `Leaderboard.InsertByCount` | app.py:438 | inserting into a descending list keeps it descending; the result is a permutation of the list plus the new pair (equal multisets) |
| `Leaderboard.InsertStep` | app.py:438 | putting the head in front of the insertion into the rest keeps the order descending and the multiset right |
| `Leaderboard.InsertKeepsDistinct` | app.py:437-438 | inserting a new author keeps authors distinct |
| `Leaderboard.DistinctStep` | app.py:437-438 | the head's author differs from every author of the insertion into the rest |
| `Leaderboard.SortByCount` | app.py:438 | the sorted list is a permutation of its input (equal multisets) and is in descending order of count |
| `Leaderboard.SortKeepsDistinct` | app.py:437-438 | sorting keeps authors distinct |
| `Leaderboard.Take` | app.py:439 | `LIMIT`: a prefix of length min(limit, n), or everything for a negative limit |
| `Leaderboard.Ranked` | app.py:444-450 | ranks run 1..n in list order with authors and counts carried over |
| `Leaderboard.Standings` | app.py:428-442 | as many pairs as groups and none for anyone but a named author with approved quotes; each pair carries that author's true count of approved quotes; descending by count; authors distinct |
| `Leaderboard.StandingsCoverAuthors` | app.py:428-438 | every named author with approved quotes has a pair in the standings |
| `Leaderboard.Shown` | app.py:439-450 | `LIMIT` then `enumerate(..., 1)`: the first min(limit, n) standings (all for a negative limit), numbered 1, 2, … with their authors and counts |
| `Leaderboard.ShownFacts` | app.py:438-450 | the shown entries are ranked from 1, descending by count, with distinct authors each carrying a true count, and as many as the limit allows |
| `Leaderboard.GetLeaderboard` | app.py:419-476 | ranks 1..n; counts non-increasing; authors distinct, each a group with its true count; length min(limit, authors), or all for a negative limit, with limit 20 by default; totals of approved rows and of authors; `top_submissions` the first count or 0 |
| `Leaderboard.EntriesAreNamedAuthors` | app.py:432-435 | no entry is '匿名' or '系统', and every entry counts at least one quote |
| `Leaderboard.TopIsMaximum` | app.py:462-464 | with a limit other than 0, the top figure is at least every named author's count |
| `Leaderboard.LeftOffRankNoHigher` | app.py:438-439 | an author left off a board whose limit is not 0 has no more quotes than the last entry shown |
| `Leaderboard.ZeroLimitHidesTop` | app.py:462-464 | with limit 0 the board is empty and the top figure is 0 |
| `EndToEnd.Contents` | static/script.js:223 | the contents of the served quotes, in order |
| `EndToEnd.StatusNames` | app.py:318 | the status text of each listed row |
| `EndToEnd.PendingCountAgrees` | static/script.js:444 | the browser's count of 'pending' statuses equals the server's count of pending rows |
| `EndToEnd.ServedItems` | static/script.js:215-223 | a batch served for an accepted count has min(count, number approved) quotes, each an approved row's content |
| `EndToEnd.ServedBatchFitsProgressBar` | static/script.js:213-256 | on a served batch the bar stays within 0..100%; the no-quotes alert shows iff nothing is approved; every write copies an approved quote; an undisturbed run reaches 100% iff at least count quotes are approved |
| `EndToEnd.ServedBarAndEnding` | static/script.js:213-250 | on a served batch the bar stays within 0..100% and the no-quotes alert shows iff nothing is approved |
| `EndToEnd.ServedWritesApproved` | static/script.js:223-233 | on a served batch every write copies an approved quote's content |
| `EndToEnd.ServedUndisturbedFull` | static/script.js:246-250 | an undisturbed run on a served batch reaches 100% iff at least count quotes are approved |
| `EndToEnd.ApproveAllButtonMatchesServer` | static/script.js:543-556 | under the "all" filter the button is disabled iff approve-all would approve none, and otherwise shows the number it approves |
| `EndToEnd.FilteredListingDisablesButton` | static/script.js:444 | under a filter other than "all" and "pending" the button is disabled, whatever is pending |

## Left out

- DOM updates, `alert`, `innerHTML` templates, CSS, `escapeHtml` and modal or tab wiring are user interface only. Alerts and the success notice are trace effects.
- `fetch`, Flask routing, templates, sessions and the SQL text are input and output. The session is a boolean, the tables are a sequence of rows, and a fetch is a `Result`.
- `navigator.clipboard.writeText` and `document.execCommand` are foreign calls. Each write is an outcome in `Env`.
- `setTimeout`, `datetime.now()` and `date.today()` are clocks. Pauses are counted trace effects, and the day is a parameter. `submitted_at` and `reviewed_at` are not stored.
- `ORDER BY RANDOM()` is randomness. It is a shuffle parameter: any permutation of the approved rows.
- MD5 is a hash function. The stored key is the hashed string itself. This is exact as long as MD5 does not collide.
- `parseInt` is not modelled as such. The parsed count is an `Option<int>`, with `None` for NaN.
- `BatchCopy.Percentage`: the double arithmetic of `Math.round((copied / count) * 100)` is modelled as exact half-up rounding plus its one difference in the reachable range, 23 of 40 (57% rather than 58%). With more copied than requested, which a served batch never gives, the doubles differ again (41 of 40 shows 102%, the model 103%); those inputs are not special-cased.
- Two overlapping runs of `startBatchCopy` sharing one flag are a concurrency race. Only one run's view of the flag is modelled, as observations in `Env`. The flag writers modelled are the clicks; a second run's own `finally` (static/script.js:266), which clears the flag when that run's fetch fails, its batch is empty or it finishes, is not among them.
- `init_db`, `admin_login`, `check_admin_login`, `admin_logout` and `get_stats` are setup, a hard-coded password check and read-only queries.
- The listing's `ORDER BY submitted_at DESC` is left out because timestamps are not modelled. The listing returns table order.
- Keyword management, search on the server and the page routes are not part of this model.
- `Moderation.AddSentence`: a JSON `null` author is taken as the default '匿名' instead of SQL NULL, and content that is not a string is not modelled.
- `Moderation.ReviewSentence`: a JSON id that is not an integer is not modelled; `None` matches no row.
- `ClientViews.StatusText`: property names inherited from `Object.prototype` (such as "constructor") are not modelled; they would map to a function's text.
- `Leaderboard.GetLeaderboard`: the order among authors with equal counts is left to the database; the model fixes one order.
