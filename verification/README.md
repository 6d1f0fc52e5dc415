# tapedeck — a verified model of the download queue and its parsers

tapedeck is a self-hosted web front end for `get_iplayer`. Users search the
BBC catalogue and add programmes to a persistent download queue. A bounded
worker pool runs one `get_iplayer` process per queue item, retrying with
exponential backoff. Progress, status changes and errors are broadcast to
WebSocket subscribers.

This project models the core of that system in Dafny and proves properties
of the model:

- **The queue lifecycle.**
  - `Worker` models the download task, `run_download`.
  - `Startup` models the crash-recovery pass (`requeue_interrupted`) and the minute tick (`enqueue_scheduled`).
  - `QueueRoutes` models the queue handlers: list, add, remove, retry and reorder.
  - `Scenarios` proves what happens when handlers and the worker act on the same row.
- **The `get_iplayer` glue.**
  - `DownloadArgs` models the command line.
  - `LineReader` models the chunk-to-line splitter.
  - `DownloadOutput` models the output-draining loop and the failure message.
  - `OutputPath` models the recorded-path extractor.
- **The text parsers.**
  - `Listing` models the cache listing.
  - `Episodes` models the `--pid-recursive` listing.
  - `Pid` models PID extraction.
  - `HtmlText` models tag stripping.
  - `Redux` models the embedded-JSON brace scanner.
  - `SearchPage` models the BBC search page.
  - `Duration` models the duration formatter.
- **The codecs and validators.**
  - `Models` covers the status codec and request defaults.
  - `Errors` covers the error-to-response map.
  - `Auth` covers tokens, bearer extraction, login and authentication.
  - `Users` covers the user handlers.
  - `Settings` covers the settings handlers.

The supporting modules are `Wrappers` (Option and Result), `Seqs` (filtering
and a stable insertion sort), `Text` (trimming, searching, splitting and
decimal conversion) and `QueueTable` (SQL selects over the queue table).

Modelling conventions:

- **Tables.**
  - The queue table is a `map<string, Item>` keyed by id.
  - A `SELECT` without `ORDER BY` returns rows in table order. That order is an explicit `scan` argument: every id exactly once.
  - `ORDER BY` is a stable sort of that scan: rows of equal rank keep their scan order (`Seqs.SortStable`), and a sort whose rows all tie returns the scan unchanged (`Seqs.SortOfTiesIsIdentity`).
- **Database failures.** A statement that can fail is named by its position in the handler, and a `Fault(step, detail)` makes that statement fail.
- **The worker.**
  - The worker is a pure function from its environment to the *trace* of effects it performs: row writes, published events, downloader calls, sleeps and file removals.
  - The environment holds everything another task could change meanwhile: the row as fetched, the status seen at the re-check after a success, and the outcome of each downloader call.
  - It also says whether each write succeeds: the mark, the two writes before each retry, and the final done or failed write. The task ignores the result of every write but the mark. Each write in the trace records whether it took effect.
- **Timestamps** are integers. SQLite compares RFC 3339 text, whose order agrees with time order for the UTC timestamps the code writes.
- **Subprocess output** is characters. `'\r'` and `'\n'` never occur inside a multi-byte UTF-8 sequence, so splitting bytes and splitting characters agree.
- **Primitives.** SHA-256 and Base64 are function values. The lemmas that need Base64 to be invertible assume `Auth.Lawful`.

Two behaviours of the code that are easy to misread:

- **Restart re-submission order.** Priority plays no part in either re-submission path:
  - the restart pass submits queued items ordered by `added_at` only (`queue.rs:125-129`);
  - the minute tick's query has no `ORDER BY`, so it submits in table order (`main.rs:114-117`).
- **Status events on a run that fails twice then succeeds.** The task publishes four status changes: `downloading` when it starts, `downloading` again before each of the two retries, then `done` (`Scenarios.FailTwiceThenSucceed`).

## Model

| member | source | states |
|---|---|---|
| Models.Display | backend/src/models.rs:37-47 | every status prints as a non-empty lower-case word |
| Models.FromStr | backend/src/models.rs:50-62 | parsing accepts exactly the five printed names; any other text fails with "unknown status: " followed by the text |
| Models.FromStrDisplay | backend/src/models.rs:37-62 | parsing a printed status gives the status back |
| Models.DisplayInjective | backend/src/models.rs:37-47 | two different statuses never print alike |
| Models.FromStrRejects | backend/src/models.rs:50-62 | a string outside the five names is rejected |
| Models.WithDefaults | backend/src/models.rs:100-130 | a missing media type, priority, quality or subtitles flag becomes tv, 5, best or true; the other fields are copied unchanged |
| Errors.IntoResponse | backend/src/error.rs:36-63 | each error kind maps to its HTTP status; database, internal and other errors are 500; a database error's detail is replaced by "database error" |
| Errors.DbDetailHidden | backend/src/error.rs:39-45 | two database errors give the same response whatever their details |
| Errors.StatusIdentifiesKind | backend/src/error.rs:36-63 | each of 400, 401, 403, 404 and 409 comes from exactly one error kind |
| Errors.AuthRejectionResponse | backend/src/auth.rs:140-151 | the extractor's rejection is the same response as the Unauthorized error |
| Auth.VerifyToken | backend/src/auth.rs:57-71 | a token that does not decode, or whose text has fewer than two colons, is rejected; an accepted token's text is signed for the returned id |
| Auth.SignedTextAccepted | backend/src/auth.rs:57-71 | a token decoding to "id:ts:mac", where the mac is the keyed hash of "id:ts", is accepted for id |
| Auth.VerifyTokenExactly | backend/src/auth.rs:57-71 | verification accepts a token for id exactly when its decoded text is signed for id (both directions) |
| Auth.TokenRoundTrip | backend/src/auth.rs:40-71 | a token made for a colon-free user id verifies to that id under the same secret |
| Auth.ColonInIdIsCut | backend/src/auth.rs:40-71 | a token made for an id containing a colon never verifies to that id |
| Auth.HeaderText | backend/src/auth.rs:135-138 | header bytes convert to text exactly when every byte is visible ASCII or a tab, and the text has those bytes |
| Auth.ExtractBearer | backend/src/auth.rs:135-138 | a token is found exactly when the authorization header is visible text beginning with "Bearer "; the token is the rest of the header |
| Auth.TokenFromHeaders | backend/src/auth.rs:112-121 | the bearer token wins; otherwise the X-Auth-Token header is used; otherwise there is no token |
| Auth.LowercaseBearerFallsBack | backend/src/auth.rs:112-138 | "bearer " in lower case is not recognised, so X-Auth-Token is used instead |
| Auth.FindUser | backend/src/auth.rs:125-131 | the row found is the first one in table order that matches the lookup, and there is none exactly when no row matches |
| Auth.Authenticate | backend/src/auth.rs:105-133 | a user is returned exactly when there is a token, it verifies, the lookup succeeds and a row has the token's id; that user's id is signed by the token |
| Auth.Login | backend/src/auth.rs:75-98 | a database failure is a database error; an unknown name or a wrong password is Unauthorized; a stored hash the verifier cannot read is an internal error; success returns a token for the user's id with the user's id and name |
| Auth.LoginDoesNotRevealUsernames | backend/src/auth.rs:75-98 | an unknown user name and a wrong password give the same response |
| Auth.LoginThenAuthenticate | backend/src/auth.rs:40-133 | the token a successful login returns, sent as a bearer header, authenticates as the user who logged in |
| Settings.Upsert | backend/src/routes/settings.rs:54-62 | the row for the key is (re)written; no other row changes |
| Settings.GetSetting | backend/src/routes/settings.rs:27-38 | a failed SELECT is a database error with the driver's message; otherwise a missing key is NotFound and a present key returns its stored row |
| Settings.SetSetting | backend/src/routes/settings.rs:46-70 | a failed upsert is a database error and changes nothing; otherwise the table is the upserted one and later reads see the new row while other keys read as before; a failed read-back is a database error although the row is already written; success returns the new row |
| Settings.SetSettingLastWins | backend/src/routes/settings.rs:46-70 | setting a key twice is the same as setting it once to the second value |
| Settings.BulkUpdate | backend/src/routes/settings.rs:73-91 | every entry is upserted in iteration order; a failing statement stops the loop with its error, and the entries before it stay written |
| Settings.UpsertAllFrame | backend/src/routes/settings.rs:73-91 | after a bulk update every key in the body reads its new value and every other key reads as before |
| Settings.ListSettings | backend/src/routes/settings.rs:16-24 | a failed SELECT is a database error; otherwise every row appears exactly once, in strictly increasing key order |
| Settings.KeyOrder | backend/src/routes/settings.rs:20 | `ORDER BY key` yields every row of the table exactly once, in strictly increasing key order |
| Users.View | backend/src/routes/users.rs:15-30 | the public view copies id, name and creation time |
| Users.ViewHidesPassword | backend/src/routes/users.rs:15-30 | the view does not depend on the password hash |
| Users.ListUsers | backend/src/routes/users.rs:33-41 | a failed SELECT is a database error; otherwise the listing is a permutation of the users' views, oldest first |
| Users.ByAge | backend/src/routes/users.rs:37-40 | `ORDER BY created_at` gives a permutation of the views sorted by creation time |
| Users.CreateUser | backend/src/routes/users.rs:49-92 | the checks run in order: blank name, then a password under 8 bytes, then a duplicate name (Conflict); success appends the new row and returns 201 with its view |
| Users.CreatedUserIsFound | backend/src/routes/users.rs:49-92 | after a successful create, a lookup by the untrimmed name finds the new row |
| Users.DeleteUser | backend/src/routes/users.rs:95-114 | deleting oneself is refused; a missing id is NotFound; success removes every row with the id |
| Users.ChangePassword | backend/src/routes/users.rs:122-148 | only the caller's own password can be changed, and it needs at least 8 bytes; success rewrites that row's hash; failures change nothing |
| Users.ChangePasswordKeepsViews | backend/src/routes/users.rs:122-148 | a password change leaves every user's public view unchanged |
| Users.LengthCountsBytes | backend/src/routes/users.rs:53-57 | with a non-blank name, `create_user` rejects the password as short exactly when its UTF-8 encoding has fewer than 8 bytes; such a password has fewer than 8 characters, and for ASCII the byte and character counts agree |
| Users.FourTwoByteChars | backend/src/routes/users.rs:57 | four two-byte characters make an 8-byte password, so the rule accepts it |
| Text.Utf8LenIsCountIffAscii | backend/src/routes/users.rs:57 | `len()` equals the character count exactly when every character is ASCII |
| QueueTable.Select | backend/src/queue.rs:87-88 | a select returns exactly the scanned ids whose rows match, each once |
| QueueTable.OrderBy | backend/src/queue.rs:125-129 | ordering is a permutation sorted by the key |
| QueueTable.SelectCount | backend/src/routes/queue.rs:36-56 | the number of selected rows equals `COUNT(*)` with the same condition |
| Worker.BackoffDelay | backend/src/queue.rs:292 | the delay fits in 64 bits |
| Worker.BackoffDelayValues | backend/src/queue.rs:292 | the delay before retry n is 2^n seconds for n < 64 (double the previous one), and 0 once 2^n wraps |
| Worker.RetryCeiling | backend/src/queue.rs:203-212 | the ceiling is a u32; it is the configured fallback when the settings row cannot be read or is missing |
| Worker.CeilingAfterSet | backend/src/queue.rs:203-212 | storing a number as `max_download_retries` makes it the ceiling |
| Worker.CeilingIgnoresNegative | backend/src/queue.rs:203-212 | a value with a minus sign does not parse as a u32, so the fallback is used |
| Worker.RetryLoop | backend/src/queue.rs:215-322 | the loop always starts with a call for the starting attempt |
| Worker.LoopCalls | backend/src/queue.rs:215-322 | the loop calls the downloader for consecutive attempts, every call but the last fails, it stops at the first success or after the call at the ceiling, and it sleeps 2^n seconds before call n |
| Worker.RetryStepOrder | backend/src/queue.rs:288-320 | after a failure below the ceiling the order is: write the error, publish it, sleep, clear the error, publish downloading, call again; each write records whether that retry's statement succeeded |
| Worker.Fetched | backend/src/queue.rs:162-175 | the row is available exactly when the read succeeds and the id exists |
| Worker.Finish | backend/src/queue.rs:324-389 | after a success, a cancellation seen at the re-check only removes a non-empty output file; otherwise the task publishes done; after a failure it publishes the error, then failed |
| Worker.RunDownload | backend/src/queue.rs:155-390 | the task does nothing when the row is missing or unreadable, is cancelled, or cannot be marked; otherwise it writes downloading, publishes it, then calls the downloader |
| Worker.Decompose | backend/src/queue.rs:155-390 | a started task is its opening, the retry loop and the finish; all calls and sleeps come from the loop |
| Worker.InvocationCount | backend/src/queue.rs:215-322 | a task makes between 1 and ceiling + 1 calls, numbered 0, 1, …; every call before the last fails; a downloader that always fails is called exactly ceiling + 1 times |
| Worker.NoCallAfterSuccess | backend/src/queue.rs:285-286 | no call is made after a successful one |
| Worker.SleepSchedule | backend/src/queue.rs:288-310 | a task sleeps once between consecutive calls, 2^j seconds before call j |
| Worker.MarkKeepsStaleFields | backend/src/queue.rs:182-199 | marking a row downloading sets status, start time and progress only; the completion time, error and output path of an earlier run survive |
| Worker.LoopKeepsStatus | backend/src/queue.rs:288-320 | whichever of the retry loop's writes succeed, they touch only the error column, so the row's status and completion time never change |
| Worker.ApplyRetrySteps | backend/src/queue.rs:297-315 | after the writes before a retry the error column is cleared when the clearing succeeds, else holds the retry message when that write succeeds, else is unchanged; nothing else changes |
| Worker.FinishRow | backend/src/queue.rs:324-389 | when the final write succeeds, a success leaves the row done at 100% with no error and the output path (absent when empty), and a failure leaves it failed with the last error; a failed final write or a cancelled success leaves the row as it was |
| Worker.FinalRow | backend/src/queue.rs:155-390 | with the final write succeeding, the task's writes leave the row done, or failed with the final error, whichever loop writes succeeded; with it failing, the row stays marked downloading with this run's start time; after a cancelled success the task writes nothing more, so any row it finds is left as it is |
| Worker.PublishedEvents | backend/src/queue.rs:155-390 | a task's first event is downloading; its last is done after an uncancelled success, or the final error followed by failed |
| Startup.ResetEach | backend/src/queue.rs:104-119 | each listed row whose reset succeeds becomes queued with no start time and zero progress; other rows are untouched |
| Startup.Announce | backend/src/queue.rs:115-118 | one queued announcement per reset row, in order |
| Startup.ResumeOrder | backend/src/queue.rs:121-140 | the resumed ids are exactly the queued rows that are unscheduled or due, each once, oldest first |
| Startup.ResetPass | backend/src/queue.rs:86-119 | the reset pass announces queued for exactly the downloading rows whose reset succeeded, and resets exactly those rows |
| Startup.RequeueInterrupted | backend/src/queue.rs:81-151 | a failed first query changes nothing; interrupted rows are reset and announced; a failed second query submits nothing; otherwise exactly the resumable rows are submitted, each once, oldest first |
| Startup.RestartLeavesNothingDownloading | backend/src/queue.rs:81-151 | when every reset succeeds, no row is left downloading, and every interrupted row that is unscheduled or due is resubmitted |
| Startup.FailedResetIsStuck | backend/src/queue.rs:104-114 | a row whose reset fails stays downloading; neither the restart nor the tick ever submits it |
| Startup.EnqueueScheduled | backend/src/main.rs:111-127 | the tick submits exactly the queued rows with a schedule that has passed; a failed query submits nothing |
| Startup.TickResubmits | backend/src/main.rs:111-127 | a row the tick submits is submitted again by every later tick until its status changes |
| Startup.StartupAndTickOverlap | backend/src/queue.rs:121-140 | a tick taken at the restart's own time submits exactly the scheduled rows the restart pass submitted, so each of them is submitted twice |
| Startup.LaterTickSubmitsNewlyDue | backend/src/main.rs:111-127 | a queued row scheduled after the restart's time is not submitted by the restart pass, and the tick at its scheduled time submits it |
| QueueRoutes.WrapI64 | backend/src/routes/queue.rs:24 | the result is an i64 equal to the input modulo 2^64 |
| QueueRoutes.EffectivePage | backend/src/routes/queue.rs:22 | a missing or non-positive page becomes 1; other pages are kept |
| QueueRoutes.EffectivePerPage | backend/src/routes/queue.rs:23 | the page size defaults to 25 and is clamped to 1..100 |
| QueueRoutes.Listing | backend/src/routes/queue.rs:26-56 | the listing holds exactly the matching rows, each once, in priority-then-age order, as many as `COUNT(*)` |
| QueueRoutes.ListQueue | backend/src/routes/queue.rs:17-64 | the corrected listing returns the effective page and size, the total count and matching rows in order, and exactly the rows that fall on the requested page |
| QueueRoutes.ListQueueAsWritten | backend/src/routes/queue.rs:17-64 | the listing as written fails only on a database error; it reports the effective page and size and the total count, with at most a page of matching rows in order |
| QueueRoutes.AsWrittenAgreesWithoutWrap | backend/src/routes/queue.rs:22-24 | whenever (page - 1) * per_page fits in an i64, the handler as written equals the corrected one |
| QueueRoutes.NegativeWrapIsFirstPage | backend/src/routes/queue.rs:22-24 | an offset that wraps negative returns the rows of page 1, while the page reported is the one asked for |
| QueueRoutes.PageData | backend/src/routes/queue.rs:24-56 | page p holds the ordered listing from position (p - 1) * per_page |
| QueueRoutes.ConsecutivePages | backend/src/routes/queue.rs:24-56 | pages p and p + 1 together are one double-size window, so paging neither skips nor repeats rows |
| QueueRoutes.OffsetWrapReturnsFirstPage | backend/src/routes/queue.rs:22-24 | page 2^62 with size 4 wraps the offset to -4, and the code returns the first row instead of an empty page |
| QueueRoutes.AddToQueue | backend/src/routes/queue.rs:81-143 | a pid with a queued or downloading row is a Conflict; otherwise the new row is queued with the request's fields, ItemAdded is published, and the id is submitted exactly when there is no schedule |
| QueueRoutes.AddTwiceConflicts | backend/src/routes/queue.rs:87-99 | adding the same pid twice: the second add is a Conflict |
| QueueRoutes.FinishedItemsDoNotBlock | backend/src/routes/queue.rs:87-99 | a pid whose rows are all done, failed or cancelled can be added again |
| QueueRoutes.RemoveFromQueue | backend/src/routes/queue.rs:146-183 | a missing id is NotFound; a downloading row is marked cancelled and kept; any other row is deleted along with its non-empty output file; ItemRemoved is published |
| QueueRoutes.Retry | backend/src/routes/queue.rs:186-208 | a failed or cancelled row is reset to queued; any existing row is returned and submitted, whatever its status; a missing id is NotFound |
| QueueRoutes.ReorderLastWins | backend/src/routes/queue.rs:217-230 | after a reorder, each row has the priority of the last entry naming it, or its old priority |
| QueueRoutes.Reorder | backend/src/routes/queue.rs:217-230 | entries are applied in order; a failing statement returns its error with the entries before it applied |
| Scenarios.RetryOfDoneItemDownloadsAgain | backend/src/routes/queue.rs:186-208 | retrying a done item leaves the row unchanged, yet the worker downloads it again |
| Scenarios.SecondSubmissionDownloadsAgain | backend/src/queue.rs:155-199 | a row submitted twice is downloaded twice: the second task starts over |
| Scenarios.CancelThenSuccessStaysCancelled | backend/src/queue.rs:330-346 | cancelling a running download and then succeeding leaves the row cancelled; the output file is removed when there is one |
| Scenarios.CancelThenFailureBecomesFailed | backend/src/queue.rs:368-389 | a cancelled download that then fails ends as failed, since the failure path has no re-check |
| Scenarios.RemoveTwiceDeletes | backend/src/routes/queue.rs:146-183 | removing a running item keeps its row cancelled; removing it again deletes the row |
| Scenarios.ScheduledAddIsPickedUpByTick | backend/src/routes/queue.rs:135-138 | a scheduled add is not submitted at once, but the first tick at or after its time submits it |
| Scenarios.FailTwiceThenSucceed | backend/src/queue.rs:155-390 | with ceiling 3 and two failures, whichever writes succeed: calls 0, 1 and 2; sleeps of 2 and 4 seconds; events downloading, error, downloading, error, downloading, done; the row ends done with no error when the done write succeeds, and stays downloading when it fails |
| DownloadArgs.Preset | backend/src/iplayer.rs:136-150 | each preset expands to a non-empty list of the medium's quality levels |
| DownloadArgs.QualityValue | backend/src/iplayer.rs:136-150 | a preset name is replaced by its comma-joined levels; any other value passes through unchanged |
| DownloadArgs.BuildCommand | backend/src/iplayer.rs:100-161 | the command has the fixed arguments, then the type and quality flags (radio exactly when the media type is "radio"), `--subtitles` when asked, and `--proxy` when the proxy is non-empty |
| DownloadArgs.OnlyRadioIsRadio | backend/src/iplayer.rs:117-130 | any media type other than "radio" downloads as tv |
| DownloadArgs.TvPresets | backend/src/iplayer.rs:144-148 | the tv presets are "fhd,hd,sd,web,mobile", "hd,sd,web,mobile" and "mobile,web" |
| DownloadArgs.RadioPresets | backend/src/iplayer.rs:137-141 | the radio presets are "high,standard,low", "standard,low" and "low" |
| DownloadArgs.EmptyProxyIgnored | backend/src/iplayer.rs:157-161 | an empty proxy gives the same command as no proxy |
| LineReader.ReadLines | backend/src/iplayer.rs:173-210 | the lines read from a stream depend only on its bytes, not on how they arrived in chunks |
| LineReader.LinesAreClean | backend/src/iplayer.rs:181-207 | every emitted line is non-empty, trimmed and free of '\r' and '\n' |
| LineReader.SplitAtBreak | backend/src/iplayer.rs:181-207 | a '\r' or '\n' splits the stream into independently read parts |
| LineReader.BreaksAddNothing | backend/src/iplayer.rs:181-207 | repeated or trailing breaks emit no blank lines |
| LineReader.TrailingFragmentKept | backend/src/iplayer.rs:181-207 | an unterminated non-blank tail is still emitted, trimmed, at the end of the stream |
| DownloadOutput.Drain | backend/src/iplayer.rs:217-276 | the drained output path is the last path found on stdout, and the buffer is the last 50 non-progress lines |
| DownloadOutput.LastN | backend/src/iplayer.rs:244-247 | the buffer keeps the most recent lines, at most the cap |
| DownloadOutput.LastPath | backend/src/iplayer.rs:238-243 | there is no path exactly when no non-progress stdout line names one |
| DownloadOutput.DetailLines | backend/src/iplayer.rs:279-308 | the detail is the buffered lines that mention an error, warning, failure or abort and are not the licence advisory; when there are none, the last five lines |
| DownloadOutput.FailureMessage | backend/src/iplayer.rs:309-314 | the message is the status/PID header, a newline, then the detail; when the PID has no newline, the first newline ends the header |
| DownloadOutput.Outcome | backend/src/iplayer.rs:278-317 | a successful exit yields the last path the code's extractor found on stdout (or ""); a failed exit yields the failure message over the buffer |
| DownloadOutput.OutcomeCorrected | backend/src/iplayer.rs:278-317 | with the corrected extractor a successful exit yields the last path it found; a failed exit is reported as the code does |
| DownloadOutput.RecordedPathIsOutput | backend/src/iplayer.rs:240-243 | as written, a successful download whose last path-naming stdout line is "INFO: Recorded <path>" reports "Recorded <path>" as its output |
| DownloadOutput.RecordedPathIsOutputCorrected | backend/src/iplayer.rs:240-243 | with the corrected extractor the same download reports the path itself |
| OutputPath.ExtractOutputPathAsWritten | backend/src/iplayer.rs:320-325 | the pattern matches exactly when some position starts a keyword, whitespace and a path with a media extension |
| OutputPath.ExtractedPathEndsWithExt | backend/src/iplayer.rs:320-325 | every extracted path ends with one of the six media extensions |
| OutputPath.EpisodeExample | backend/src/iplayer.rs:320-325 | on "INFO: Recorded /downloads/Episode.mp4" the code as written yields "Recorded /downloads/Episode.mp4"; the corrected extractor yields the path |
| OutputPath.RecordedLineKeepsKeyword | backend/src/iplayer.rs:320-325 | as written, every "INFO: Recorded" line yields the path with "Recorded " in front |
| OutputPath.ExtractOutputPath | backend/src/iplayer.rs:320-325 | the corrected extractor finds a path exactly when the pattern matches |
| OutputPath.RecordedLineGivesPath | backend/src/iplayer.rs:240-243 | the corrected extractor returns the recorded path itself |
| Listing.Field | backend/src/iplayer.rs:1089-1112 | an optional field is absent exactly when it is missing or empty |
| Listing.ParseLine | backend/src/iplayer.rs:1070-1115 | header lines are skipped; a kept line has a non-empty, separator-free pid and the requested media type |
| Listing.ParseFormatted | backend/src/iplayer.rs:1070-1115 | a line built from eight separator-free fields parses back to those fields, trimmed, with empty optional fields absent |
| Listing.ParsedAreProgrammes | backend/src/iplayer.rs:1069-1116 | every result of a listing has a non-empty, separator-free pid and the requested media type |
| Listing.ParseLinesAppend | backend/src/iplayer.rs:1069-1116 | the results of two runs of lines, one after the other, are the results of each in turn |
| Listing.NoSeparatorNoResult | backend/src/iplayer.rs:1078-1081 | a line without '\|' gives no result |
| Listing.BlankFieldIsEmptyText | backend/src/iplayer.rs:1089-1112 | a field of only spaces is present, as empty text (the emptiness test precedes the trim) |
| Listing.StreamsParsedSeparately | backend/src/iplayer.rs:1066-1070 | when stdout ends with a newline, parsing stdout followed by stderr is parsing each in turn |
| Episodes.SplitLine | backend/src/iplayer.rs:389 | a split line has a valid PID, a non-empty name and a comma-free channel part after whitespace |
| Episodes.SplitShaped | backend/src/iplayer.rs:389 | a line shaped "name, channel, pid" splits into exactly those parts, the name taken greedily |
| Episodes.SplitSound | backend/src/iplayer.rs:389 | every split line has that shape |
| Episodes.SeriesLabelled | backend/src/iplayer.rs:433 | "Series N - E" and "Season N: E" split into the label and the episode |
| Episodes.SplitName | backend/src/iplayer.rs:436-468 | without ": " or " - " the whole name is the title; otherwise there is an episode; a series comes with an episode |
| Episodes.ColonSeries | backend/src/iplayer.rs:436-450 | "Show: Series N - Ep" gives title Show, series "Series N" and episode Ep |
| Episodes.ColonSplit | backend/src/iplayer.rs:436-450 | the first ": " separates the show from the rest |
| Episodes.DashEpisode | backend/src/iplayer.rs:451-465 | "Show - Ep" gives title Show and episode Ep, with no series |
| Episodes.ParseLine | backend/src/iplayer.rs:401-482 | header lines and lines that do not match are skipped; results carry a valid PID, a channel and the media type |
| Episodes.PlainName | backend/src/iplayer.rs:466-468 | a name without a separator becomes the title alone |
| Episodes.FirstPerPid | backend/src/iplayer.rs:398-421 | the loop keeps the first result for each PID, in order |
| Episodes.ParsePidRecursive | backend/src/iplayer.rs:382-486 | the results are the first parsed result per PID over the lines of stdout followed by stderr |
| Episodes.FirstOccurrencesDistinct | backend/src/iplayer.rs:417-421 | no PID appears twice in the results |
| Episodes.FirstOccurrencesFirst | backend/src/iplayer.rs:417-421 | each result is the earliest candidate with its PID, and every candidate's PID is represented |
| Episodes.CandidatesValid | backend/src/iplayer.rs:401-482 | every candidate has a valid PID, a channel and the requested media type |
| Pid.ExtractPid | backend/src/iplayer.rs:489-493 | a PID is found exactly when one stands after a slash or at the start and before a terminator or the end; the leftmost one is returned |
| Pid.BarePid | backend/src/iplayer.rs:489-493 | a bare PID is returned as itself |
| Pid.PidAfterSlash | backend/src/iplayer.rs:489-493 | the PID in a URL path segment is found |
| Pid.NotAtWordEnd | backend/src/iplayer.rs:491 | eight PID characters followed by another word character are not a PID |
| HtmlText.StripNormalized | backend/src/iplayer.rs:498-506 | the stripped text is single-spaced with no leading or trailing space |
| HtmlText.NoTagLeft | backend/src/iplayer.rs:500-502 | no "<…>" tag survives the replacement |
| HtmlText.StripJoinedWords | backend/src/iplayer.rs:498-506 | text that is already single-spaced and tag-free is unchanged |
| HtmlText.WordsOfJoin | backend/src/iplayer.rs:503-505 | splitting single-spaced words gives the words back |
| Redux.ScanObject | backend/src/iplayer.rs:522-549 | the scanner stops just after the brace that closes the object at depth zero, outside strings; it gives 0 when none does |
| Redux.ReduxJson | backend/src/iplayer.rs:514-549 | there is no object without the marker; otherwise the object is the balanced span after the marker and leading whitespace |
| Redux.SpanIsClosed | backend/src/iplayer.rs:522-546 | the span ends with the first balanced closing brace |
| Redux.SpanIgnoresRest | backend/src/iplayer.rs:522-546 | text after a complete object does not change the span |
| Redux.QuotedHidesBraces | backend/src/iplayer.rs:533-537 | braces inside a string do not change the depth |
| Redux.EscapedQuote | backend/src/iplayer.rs:529-535 | an escaped quote does not end a string |
| Redux.FlatObject | backend/src/iplayer.rs:522-546 | "{body}" with a plain body is exactly one object |
| Duration.ToClock | backend/src/iplayer.rs:975-978 | hours, minutes and seconds recompose to the input, with minutes and seconds below 60 |
| Duration.FormatDuration | backend/src/iplayer.rs:974-985 | an hour or more prints three colon fields; less prints two |
| Duration.ParseFormat | backend/src/iplayer.rs:974-985 | the printed duration reads back as the original number of seconds |
| Duration.FormatInjective | backend/src/iplayer.rs:974-985 | different durations print differently |
| Duration.UnderAnHour | backend/src/iplayer.rs:982-983 | under an hour the format is minutes, then two-digit seconds |
| SearchPage.DurationOf | backend/src/iplayer.rs:614-639 | a duration is reported exactly when the pattern matches |
| SearchPage.DurationToken | backend/src/iplayer.rs:614-642 | "Duration: v" gives v, and removing it leaves the text around it |
| SearchPage.NoDurationWithoutKey | backend/src/iplayer.rs:639-642 | text without the key has no duration and is unchanged |
| SearchPage.TrimEndDots | backend/src/iplayer.rs:650-656 | the result is the input without its trailing dots |
| SearchPage.TrimStartMatches | backend/src/iplayer.rs:651 | the result is a suffix that no longer starts with the pattern |
| SearchPage.SplitTitleAsWritten | backend/src/iplayer.rs:646-661 | the title as written has no leading or trailing whitespace |
| SearchPage.TitleKeepsStop | backend/src/iplayer.rs:653-658 | as written, "T. D" gives title "T." and description D |
| SearchPage.TitleBeforeStop | backend/src/iplayer.rs:653-658 | corrected, "T. D" gives title T and description D |
| SearchPage.TitleBeforeDescription | backend/src/iplayer.rs:647-652 | "T Description: D" gives title T and description D |
| SearchPage.Entry | backend/src/iplayer.rs:635-680 | a link gives a result exactly when the as-written split leaves a non-empty title; the result has the link's PID, that title, trimmed, the thumbnail found for the PID and the link text's duration |
| SearchPage.EntryCorrected | backend/src/iplayer.rs:635-680 | with the corrected split, a link gives a result exactly when that split leaves a non-empty title, with the link's PID and duration |
| SearchPage.EntriesAgreeWithoutStop | backend/src/iplayer.rs:646-661 | the two entries agree whenever the text has a " Description: " label or no ". " |
| SearchPage.EntryKeepsStop | backend/src/iplayer.rs:653-658 | for link text "T. D", the code lists title "T." and the corrected entry "T" |
| SearchPage.ParseSearchPage | backend/src/iplayer.rs:599-684 | the results are the as-written entries of the links, in order, skipping PIDs already seen, with no PID repeated and the requested media type |
| SearchPage.EmptyTitleBlocksPid | backend/src/iplayer.rs:626-665 | a PID whose first link has an empty title never appears, even when later links have titles |
| SearchPage.FirstLinkListed | backend/src/iplayer.rs:626-633 | the first link for a PID with a title is listed |

## Left out

- Progress parsing (`parse_progress_line`, iplayer.rs:22-80): it works on floating-point percentages and regexes over ffmpeg output. The model takes "is this a progress line" as a parameter.
- Progress side effects: the progress-row writes, progress events and 30-second heartbeats happen from detached tasks, so they are not in the worker's trace.
- Process management: spawning, `select!` over the two streams, and waiting for the exit status. The model takes the interleaved message sequence and the exit outcome as inputs.
- The worker pool's concurrency, because a pure model cannot express it:
  - the semaphore and the mpsc intake channel;
  - the broadcast channel's lag and drop behaviour.
- HTTP fetches and the search orchestration: `bbc_web_search`, `search`, `get_series_label`, `lookup_pid_api` (except its duration formatter), `search_by_pid`, `search_local_cache`, `list_episodes` and `refresh_cache`. These are network and process I/O.
- Anchor and image extraction on the search page:
  - The anchor regexes are inputs: the model takes the captured (pid, inner HTML) pairs in page order.
  - The image map is an input.
  - The JSON decoding after the brace scan and `collect_redux_images` are not modelled. They depend on serde_json.
- Argon2 hashing and verification: these are an opaque library, so the model takes their outcomes as parameters.
- SHA-256 and Base64: they are function values, not their real definitions.
- Clocks and ids: the current time and new UUIDs are parameters.
- Other parts of the server: database setup and migrations (db.rs), configuration (config.rs), the router (routes/mod.rs), application state, the WebSocket route (routes/ws.rs), the search route (routes/search.rs) and `main`'s startup sequence. They contain no logic the properties depend on.
- `get_queue_item` (routes/queue.rs:67-78): it is a single lookup that returns the row or NotFound, which `Settings.GetSetting` shows in the same form.
- `get_me` (routes/users.rs:44-46): it returns the caller's view, as `Users.View` states.
- WsEvent serialisation: only the events themselves are modelled, not their JSON shape.
- The Django models under music/ and podcasts/: they are not part of the Rust server.
- Worker.RunDownload: the per-attempt `DownloadOptions` values other than those `DownloadArgs.BuildCommand` consumes are not modelled.
- Worker.RetryCeiling: u32 overflow of `attempt` would need over 4·10^9 retries, so the counter is an unbounded natural.
- Users.ListUsers: the model keeps ties in `created_at` in table order (the sort is stable). SQLite leaves that order unspecified, so the contract states only sortedness and permutation.
- DownloadOutput.DetailLines: the keyword test upper-cases ASCII letters only. Rust's `to_uppercase` is full Unicode ('ı' to 'I', 'ſ' to 'S', 'ﬁ' to "FI"), so a line such as "warnıng: disk full" is kept by the code and dropped by the model.
- Episodes.SplitName: the series label's `\d` is read as an ASCII digit. Rust's regex `\d` is any Unicode decimal digit, so "Show: Series ٣ - Ep" gets a series in the code and none in the model. Episodes.SeriesLabelled has the same limit.
- LineReader.ReadLines, Episodes.ParsePidRecursive and Listing.ParseListing: `String::from_utf8_lossy` (`iplayer.rs:188`, `iplayer.rs:203`, `iplayer.rs:394-395` and `iplayer.rs:1066-1067`) replaces invalid UTF-8 byte sequences with U+FFFD. These members take already-decoded characters, so that replacement is not modelled.
- Worker.BackoffDelay: `2u64.pow(attempt)` is modelled with release-build wrapping, so 2^64 and above become 0. A debug build panics on that overflow instead; the panic is not modelled.
- QueueRoutes.WrapI64: `(page - 1) * per_page` is modelled with release-build i64 wrapping. A debug build panics on that overflow instead; the panic is not modelled.
- Timestamps: they are integers. The RFC 3339 text comparison in SQL agrees with that order only for same-offset timestamps, which is what the code writes.

## Findings

| source | as written | input that shows it | evidently intended | confidence | as-written member | corrected member |
|---|---|---|---|---|---|---|
| backend/src/iplayer.rs:320-325 | the regex's capture group starts at the whitespace after "INFO:", so the keyword "Recorded" becomes part of the path the download reports | "INFO: Recorded /downloads/Episode.mp4" yields "Recorded /downloads/Episode.mp4" | the recorded file's path, "/downloads/Episode.mp4" (the comment at iplayer.rs:240 shows this line) | high, not executed | DownloadOutput.RecordedPathIsOutput | DownloadOutput.RecordedPathIsOutputCorrected |
| backend/src/iplayer.rs:653-658 | the split keeps ". " in the title part, so `trim_end_matches('.')` meets the trailing space, removes nothing, and `trim()` then leaves the dot | link text "Title. Desc" yields title "Title." | title "Title" | medium, not executed | SearchPage.EntryKeepsStop | SearchPage.TitleBeforeStop |
| backend/src/routes/queue.rs:22-24 | `(page - 1) * per_page` on i64 wraps in release builds | page=4611686018427387904, per_page=4 gives offset -4, and SQLite treats a negative OFFSET as 0, so the first page is returned | an empty page past the end | low, not executed | QueueRoutes.OffsetWrapReturnsFirstPage | QueueRoutes.ListQueue |
