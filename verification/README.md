# KiwiFS: state machines, protocols and compilers, verified

A Dafny model of the parts of KiwiFS that hold state across calls or translate one language
into another: the buffered, de-duplicating analytics writer; the changes feed with its
long poll; the audit log; Accept negotiation; aggregate queries; device-flow login; the
links-graph cache; the token list; and period parsing. `dafny verify dfyconfig.toml` checks
all of it.

Each module follows one piece of the program. Where the program updates state in place the
model has a class or a loop, proved against a specification function; what the program
promises is then proved about that function, over every input, run or interleaving.

| module | piece of the program |
|---|---|
| `Dedup`, `CounterTables`, `WriterPipeline`, `AnalyticsWriter` | the analytics writer: the de-duplication map under concurrency, the four counter tables, the channel with its consumer, and the object that runs them |
| `ChangesFeed`, `ChangeParsing` | the changes feed as a cursor protocol, and the parsing of git's output and of commit subjects |
| `AuditLog`, `Calendar` | daily JSONL files written by concurrent callers, read back behind a date prefilter |
| `Accept` | negotiation of a reader format |
| `CalcSpecs`, `Aggregate` | calc specifications, their compilation to a SELECT list, and the fold of its rows |
| `DeviceFlow` | polling for tokens (RFC 8628, section 3.5) |
| `GraphCache` | the cached graph, single flight and invalidation |
| `Tokens`, `Period` | the key list of the configuration; period parameters |
| `Strings`, `Seqs`, `Decimal`, `Options` | the library functions the others need |

## Where the code does less than it seems to

Each of these is proved with the exact condition under which the code does meet the
property, and with an input on which it does not.

- De-duplication reads the clock before it takes the lock. The evicting map answers like an
  unbounded history, and like a map that never evicts, as long as no check runs after an
  eviction whose clock sample is two or more seconds ahead of its own; that bound is tight
  (`Dedup.OvertakenExactly`). A clock read under the lock would always meet it.
- The audit log's file prefilter formats `since` in the zone it came in. It loses nothing
  exactly when that local date is not ahead of the UTC date (`AuditLog.ZoneExactly`).
- A rotation whose open fails leaves a closed handle with the old day. A call loses its entry
  exactly when it had no handle for its day and its own open failed, or when a failed
  rotation had closed its day's handle (`AuditLog.LostExactly`, `AuditLog.LateCallStranded`).
- A q of `nan` parses, and a NaN that stands first in the Accept header wins against any q
  (`Accept.PicksFirstMaximum`, `Accept.HtmlBeatsJson`); so the order of the entries matters
  unless those with q=nan agree with the greatest (`Accept.OrderInvisibleExactly`). A blank
  header means HTML, so adding an unsupported entry to it turns HTML into 406
  (`Accept.JunkInvisibleExactly`, `Accept.BlankHeaderWithJunk`).
- The counts of an aggregate answer add up to the matching rows exactly when no two groups
  print alike and none prints as "(none)" beside one that prints as "<nil>", as NULL does
  (`Aggregate.CountsAddUpExactly`, `Aggregate.NoneCollides`).
- A write or delete "actor: verb path" is read as its verb and path exactly when the actor
  holds no ": " (`ChangeParsing.ActorExactly`, `ChangeParsing.ColonActorMisread`), given that
  there is a path. For an actor without ": ", any verb is read back exactly when there is a
  path (`ChangeParsing.SubjectExactly`), and a rename keeps the new path exactly when the old one
  holds no arrow between spaces (`ChangeParsing.RenameKeepsNewPath`). Without an actor, the
  path is kept exactly when it holds no ": " (`ChangeParsing.ActorlessSubject`,
  `ChangeParsing.ColonPathLost`).
- The subjects that KiwiFS itself commits for a single write and for a delete have no verb. A
  write "actor: path" is read back exactly when its path, or the part of its actor that the
  parser leaves, holds no space (`ChangeParsing.WriteSubjectExactly`). A delete
  "delete: path" never is: the feed reports it as a write (`ChangeParsing.DeleteNeverRead`).
- The four fields of a line of git's output come back exactly when the author holds no "|"
  (`ChangeParsing.LineRoundTrip`).
- The graph cache is sure to be current exactly when no write and its invalidation both fell
  into the window of the last computation (`GraphCache.CurrentExactly`,
  `GraphCache.OverrunLeavesStale`). While a computation runs, its waiters are sure of a graph
  no older than their request exactly when no write fell into its window
  (`GraphCache.WaitersExactly`); a request that starts behind a write and its invalidation
  can still be answered with the graph from before (`GraphCache.LateWaiterIsStale`).
- Creating a token switches per-key authentication on only where the type was per-key,
  missing or "none", and only as long as a key is left: revoking the last one opens the
  server again (`Tokens.EnforcedExactly`, `Tokens.RevokedLastKeyOpens`).
- Each token command decodes the file anew and asserts a type on the decoded list. The list
  grows and shrinks as it should exactly when that finds every saved list again
  (`Tokens.SurvivorsExactly`); where it does not, each create drops the earlier keys
  (`Tokens.HiddenListKeepsTheLast`).
- A number of days whose seconds exceed 64 bits wraps around, to a negative window for one
  (`Period.DaysExactly`, `Period.OverflowIsNegative`).
- Polling for tokens is bounded by one request a second exactly when the server does not send
  a negative interval; only 0 is replaced by the default (`DeviceFlow.BoundedExactly`,
  `DeviceFlow.Floods`).

`slow_down` adds 1 second to the polling interval; section 3.5 of RFC 8628 asks for 5. The
bounds in `DeviceFlow` are for the code's value.

## Model

| member | source | states |
|---|---|---|
| `Dedup.EvictionUnobservable` | internal/analytics/writer.go:97-115 | a page view is reported as a duplicate if and only if an earlier one of the same key passed less than 900 seconds before, in any schedule of checks and evictions where no check is overtaken; so evicting stale stamps is unobservable |
| `Dedup.PassedAreApart` | internal/analytics/writer.go:104-114 | two events of one key that both pass are at least 15 minutes apart |
| `Dedup.SameAsNeverEvicting` | internal/analytics/writer.go:260-269 | every check is answered exactly as by a writer that never evicts |
| `Dedup.TiedAlways` | internal/analytics/writer.go:260-269 | invariant: every stamp in the map comes from an event that passed, and a stamp that was evicted or overwritten can no longer decide any later check |
| `Dedup.InOrderNeverOvertakes` | internal/analytics/writer.go:104-106 | with clock samples in lock order the answers are those of the unbounded history, without further condition |
| `Dedup.OvertakenExactly` | internal/analytics/writer.go:261-267 | behind any schedule that leaves the key unchecked, a check run after an eviction agrees with the history and with a map that never evicts, whatever was stamped before, if and only if its sample is at most one second behind the eviction's |
| `CounterTables.BatchingUnobservable` | internal/analytics/writer.go:168-258 | the tables depend on the committed events in order, not on how they were cut into batches; a batch that does not commit leaves no trace |
| `CounterTables.TotalsSummarise` | internal/analytics/writer.go:193-225 | each row of `page_views` and `failed_searches` holds the number, the first time and the last time of exactly its events, and there is no row without an event |
| `CounterTables.HoursCount` | internal/analytics/writer.go:183-191 | each row of the two hourly tables counts exactly the events of its name whose clock fell into its hour |
| `CounterTables.HourExactly` | internal/analytics/writer.go:228-229 | the hour of an event is the multiple of 3600 at or before its clock; before 1970, at or after |
| `CounterTables.SumsCount` | internal/analytics/writer.go:227-246 | the hourly counts of a name, summed over all hours, are the number of its events |
| `CounterTables.HoursAddUp` | internal/analytics/writer.go:231-251 | when statements succeed, the hours of a page add up to its `page_views` count, and searches minus failed searches are the successful ones |
| `CounterTables.HoursAddUpExactly` | internal/analytics/writer.go:233-238 | when statements may fail, the hours add up to the total if and only if equally many statements on the two tables were executed |
| `WriterPipeline.StepKeeps` | internal/analytics/writer.go:117-166 | every step of any producer or of the consumer keeps: accepted events = handed to flush, then buffer, then channel, in order; the bounds; and tables and map as the history says |
| `WriterPipeline.EveryRun` | internal/analytics/writer.go:83-148 | in every reachable state the channel holds at most 1024 events, the buffer at most 99 at the outer select, nothing accepted is lost, duplicated or reordered, and every call ends as duplicate, dropped, in flight or accepted |
| `WriterPipeline.CheckExactly` | internal/analytics/writer.go:85-114 | only a page view of a known actor whose key was stamped less than 900 seconds before is a duplicate; only such views stamp their key; everything else goes on to the send |
| `WriterPipeline.EnteredExactly` | internal/analytics/writer.go:90-94 | in every run the channel accepted exactly the events sent while fewer than 1024 were queued, in the order sent, and dropped exactly as many as met 1024 |
| `WriterPipeline.NothingDropped` | internal/analytics/writer.go:90-94 | a run whose sends never meet a full channel drops nothing, and everything sent has entered, in order |
| `WriterPipeline.FlushCounts` | internal/analytics/writer.go:227-258 | a committed batch raises the counts of every name by exactly its events of that name |
| `WriterPipeline.ShutdownHandsOver` | internal/analytics/writer.go:149-163 | when the consumer stops, exactly what had been accepted has been handed to flush, once and in order; nothing is handed over later |
| `WriterPipeline.DroppedStillSuppresses` | internal/analytics/writer.go:83-95 | an event dropped on a full channel still suppresses every event of its key for a window, whatever else runs between its check and its send and after that, as long as no check is overtaken |
| `WriterPipeline.DedupRefinesHistory` | internal/analytics/writer.go:85-89 | in a whole run of producers, flushes and evictions, the next page view counts as a duplicate if and only if the history of the run holds a passed one within the window |
| `WriterPipeline.ViewsConserved` | internal/analytics/writer.go:139-148 | in every reachable state each accepted page view is in `page_views`, in a batch that was rolled back (the buffer is cleared all the same), in the buffer or in the channel; and the hourly table agrees |
| `WriterPipeline.SearchesConserved` | internal/analytics/writer.go:239-251 | the same of searches, by hour, and of failed searches in their own table |
| `WriterPipeline.EnteredSplits` | internal/analytics/writer.go:117-166 | in every reachable state, events of any kind that were accepted are committed, rolled back, in the buffer or in the channel |
| `WriterPipeline.HandedSplits` | internal/analytics/writer.go:140-147 | of any kind of event, what was handed to flush is what committed plus what was rolled back |
| `AnalyticsWriter.KeyTextInjective` | internal/analytics/writer.go:98-102 | the NUL between actor and path keeps the hashed texts of different pairs apart, when actors hold no NUL |
| `AnalyticsWriter.Writer.constructor` | internal/analytics/writer.go:58-66 | a new writer is in the initial state of the machine |
| `AnalyticsWriter.Writer.IsDuplicate` | internal/analytics/writer.go:97-115 | the answer, and the stamp written exactly when the answer is no |
| `AnalyticsWriter.Writer.Record` | internal/analytics/writer.go:83-95 | one call is the duplicate check followed, unless it is a duplicate, by the non-blocking send: the event joins the queue if fewer than 1024 are queued |
| `AnalyticsWriter.Writer.FlushEvents` | internal/analytics/writer.go:168-258 | the loop over the events leaves the tables of a committed batch, or the old tables |
| `AnalyticsWriter.Writer.TakeAll` | internal/analytics/writer.go:130-137 | the non-blocking reads move the whole channel, in order, behind the buffer |
| `AnalyticsWriter.Writer.ReceiveAvailable` | internal/analytics/writer.go:127-142 | the receiving branch is a run of the machine back to the outer select, and flushes at 100 |
| `AnalyticsWriter.Writer.OnTick` | internal/analytics/writer.go:143-148 | the ticker branch is a flush of any nonempty buffer followed by an eviction |
| `AnalyticsWriter.Writer.EvictStale` | internal/analytics/writer.go:260-269 | deleting while ranging, in any order, leaves exactly the stamps not older than the window |
| `AnalyticsWriter.Writer.Stop` | internal/analytics/writer.go:74-79 | an uninterrupted stop is a run of the machine to its end, with channel and buffer empty |
| `AnalyticsWriter.StopHandsOver` | internal/analytics/writer.go:74-79 | after such a stop everything ever accepted was handed to flush |
| `AnalyticsWriter.RecordedIsCounted` | internal/analytics/writer.go:83-148 | from a call to the tables: an event that is no duplicate, recorded while the channel has room, is counted once the consumer has received and ticked and the batch is committed, together with exactly what was queued and buffered before it |
| `AnalyticsWriter.RecordReachesTables` | internal/analytics/writer.go:83-148 | the same of the object, by `Record`, `ReceiveAvailable` and `OnTick` |
| `AnalyticsWriter.OneEventCounts` | internal/analytics/writer.go:231-251 | on a writer with nothing queued or buffered, exactly the counts of that event go up, by one |
| `AnalyticsWriter.ReceivesRun` | internal/analytics/writer.go:130-137 | reads move the front of the channel, in order, to the end of the buffer |
| `ChangesFeed.CheckHexHash` | internal/api/handlers_changes.go:189-199 | the loop accepts exactly 4 to 40 hexadecimal digits |
| `ChangesFeed.HexHashExactly` | internal/api/handlers_changes.go:189-199 | the hashes accepted are 4 to 40 of the characters 0 to 9, a to f and A to F |
| `ChangesFeed.ClampLimit` | internal/api/handlers_changes.go:44-50 | a limit always lies in 1..500 |
| `ChangesFeed.ClampExactly` | internal/api/handlers_changes.go:44-50 | a limit in 1..500 is kept, a larger one becomes 500, any other 50 |
| `ChangesFeed.ExactListing` | internal/api/handlers_changes.go:92-101 | in every reachable state a query succeeds and lists the newest `limit` commits after the cursor |
| `ChangesFeed.AnsweredExactly` | internal/api/handlers_changes.go:92-117 | a query is answered for no cursor and for the hash of a commit, and refused for anything else |
| `ChangesFeed.NotHexRefused` | internal/api/handlers_changes.go:94-97 | a cursor that is no hash is refused whatever the history |
| `ChangesFeed.QueryKeeps` | internal/api/handlers_changes.go:140-145 | an answered query leaves the client at the head it listed; an empty one changes nothing but the request |
| `ChangesFeed.StepKeeps` | internal/api/handlers_changes.go:42-90 | pushes, queries, subscriptions, wake-ups, timeouts and cancellations, in any order, keep every reply starting where the last one ended |
| `ChangesFeed.FeedExact` | internal/api/handlers_changes.go:42-146 | over any run of plain and long polls, each commit is delivered at most once and in order; a commit behind the cursor is missing if and only if it was among the oldest of a gap longer than the limit; all others are still ahead |
| `ChangesFeed.DeliveredIff` | internal/api/handlers_changes.go:99-101 | the positions delivered are those behind the cursor that no limit cut off |
| `ChangesFeed.PositionsIncrease` | internal/api/handlers_changes.go:140-143 | what is delivered lies at strictly increasing positions of the history |
| `ChangesFeed.FeedIsTheLog` | internal/api/handlers_changes.go:140-145 | with no gap over its limit, the replies, each reversed, concatenate to the history itself |
| `ChangesFeed.PollCatchesUp` | internal/api/handlers_changes.go:52-55 | after any run, the next poll delivers everything ahead of the cursor up to its limit and reaches the head |
| `ChangesFeed.WakeDelivers` | internal/api/handlers_changes.go:73-78 | in every run a woken request queries again: it delivers everything ahead of the cursor up to its limit, reaches the head, and ends |
| `ChangesFeed.PushDuringWait` | internal/api/handlers_changes.go:57-78 | a commit pushed while a client at the head waits is exactly what the woken poll replies with |
| `ChangesFeed.EndsEmpty` | internal/api/handlers_changes.go:67-83 | a wait that times out, a hub that is full and a client that is gone end the request and change nothing else |
| `ChangesFeed.MissedWakeupIsNotLost` | internal/api/handlers_changes.go:57-83 | a commit pushed between the first query and the subscription wakes nobody and the reply is empty, yet the next poll delivers exactly it |
| `ChangeParsing.QueryChanges` | internal/api/handlers_changes.go:118-145 | the loop over git's output gives the entries of its lines, and the first hash or "" as cursor |
| `ChangeParsing.LineRoundTrip` | internal/api/handlers_changes.go:124-137 | every line git prints gives one entry with the right hash, whatever author and subject hold; all four fields come back if and only if the author holds no separator |
| `ChangeParsing.LineReads` | internal/api/handlers_changes.go:124-137 | for instance, the four fields of a line by bob at second 12 |
| `ChangeParsing.TrimmedLine` | internal/api/handlers_changes.go:118 | trimming the whole output never changes the entry of its last line |
| `ChangeParsing.OutputRoundTrip` | internal/api/handlers_changes.go:118-138 | reading what git printed for any list of commits gives one entry per commit, in order, each with its own hash |
| `ChangeParsing.CursorFromText` | internal/api/handlers_changes.go:118-145 | in every reachable state of the feed, the entries read back from git's text are the listed commits and the hash handed out is the cursor the client moves to |
| `ChangeParsing.SubjectRoundTrip` | internal/api/handlers_changes.go:148-172 | "actor: verb path" reads as the normalised verb and the path when the actor holds no ": " |
| `ChangeParsing.SubjectExactly` | internal/api/handlers_changes.go:151-171 | for an actor without ": ", a subject of the shape "actor: verb path" is read as its verb and its path if and only if the path is not blank |
| `ChangeParsing.ActorExactly` | internal/api/handlers_changes.go:151-169 | a write or a delete "actor: verb path" with a path is read as that if and only if the actor holds no ": " |
| `ChangeParsing.ActorMisread` | internal/api/handlers_changes.go:151-171 | with ": " in the actor, all that follows the actor is taken for the path of a write, or the result is a rename, has no path, or has a longer one |
| `ChangeParsing.VerbsExactly` | internal/api/handlers_changes.go:174-187 | by the verb in any case: "delete" and "remove" read as deletes, "rename" and "move" as renames, "bulk" as a write without a path, everything else as a write of the path |
| `ChangeParsing.RemoveReads` | internal/api/handlers_changes.go:148-172 | for instance, "alice: remove a.md" |
| `ChangeParsing.MoveReads` | internal/api/handlers_changes.go:160-164 | for instance, a move from "a" to "b" is a rename that gives "b" |
| `ChangeParsing.ColonActorMisread` | internal/api/handlers_changes.go:151-153 | for instance, what "bob: x" writes to "p" is read as a write of "write p" |
| `ChangeParsing.ActorDropped` | internal/api/handlers_changes.go:151-154 | for an actor without ": ", only what follows the actor matters |
| `ChangeParsing.RenameKeepsNewPath` | internal/api/handlers_changes.go:160-164 | for an actor without ": ", a rename gives the new path if and only if the old one holds no arrow between spaces |
| `ChangeParsing.BulkIsPathlessWrite` | internal/api/handlers_changes.go:165-168 | for an actor without ": ", a bulk change reads as a write without a path |
| `ChangeParsing.PathlessSubject` | internal/api/handlers_changes.go:171 | for an actor without ": ", with no path behind it a verb itself is taken for the path of a write |
| `ChangeParsing.WriteSubjectExactly` | internal/pipeline/pipeline.go:403 | the subject "actor: path" of a single write is read as a write of that path if and only if the path holds no space or, for an actor with ": ", what is behind that in the actor holds none |
| `ChangeParsing.DeleteNeverRead` | internal/versioning/git.go:360 | the subject "delete: path" of a delete is never read as the delete of that path, and is read as a write of it if and only if the path holds no space |
| `ChangeParsing.ActorlessSubject` | internal/api/handlers_changes.go:150-153 | "verb path" without an actor keeps its path if and only if the path holds no ": " |
| `ChangeParsing.ColonPathLost` | internal/api/handlers_changes.go:151-153 | for instance, "write a: b" is read as a write of "b" |
| `ChangeParsing.SubjectNormal` | internal/api/handlers_changes.go:148-172 | whatever the subject, the action is write, delete or rename (never bulk) and the path has no blanks around it |
| `Calendar.FormatOrder` | internal/api/audit.go:105-106 | comparing zero-padded dates as strings compares them as dates |
| `Calendar.DatesInOrder` | internal/api/audit.go:56 | later day numbers have later dates, across months, years and leap years |
| `Calendar.DayNameOrder` | internal/api/audit.go:97-106 | day names compare as the days do, and no two days share one |
| `Calendar.YearBegins` | internal/api/audit.go:56 | year y begins 365*y + ceil(y/4) - ceil(y/100) + ceil(y/400) days after 1 January of year 0 |
| `Calendar.MonthBegins` | internal/api/audit.go:56 | its months begin 0, 31, 59, 90, 120, 151, 181, 212, 243, 273, 304 and 334 days later, from March on one more if the year has 366 days |
| `Calendar.DateExactly` | internal/api/audit.go:56 | the day number of every date, in closed form |
| `Calendar.FormatReads` | internal/api/audit.go:56 | a name spells its year, month and day in four, two and two decimal digits, with hyphens between |
| `Calendar.March2024` | internal/api/audit.go:56 | for instance, day 739315 is named 2024-03-05 |
| `AuditLog.AuditLogger.Log` | internal/api/audit.go:48-74 | the file, the day and the directory after a call, for an open that succeeds or fails |
| `AuditLog.AuditLogger.Close` | internal/api/audit.go:77-84 | the next call has to open a file again; the directory is unchanged |
| `AuditLog.AuditLogger.ReadEntries` | internal/api/audit.go:87-144 | the result is the `limit`-long prefix, across files, of what an unlimited read gives |
| `AuditLog.AuditLogger.ScanFile` | internal/api/audit.go:115-141 | the entries of one file are appended in order, stopping exactly at the limit |
| `AuditLog.AuditLogger.CutLine` | internal/api/audit.go:116-125 | the index scan takes off the first line and leaves less data |
| `AuditLog.FirstLine` | internal/api/audit.go:115-125 | taking lines off one by one reads the same as splitting the file at its newlines |
| `AuditLog.ReadInvertsWrite` | internal/api/audit.go:49-54 | reading a file written entry by entry gives the entries from `since` on, in order, with or without the last newline |
| `AuditLog.LockedAppends` | internal/api/audit.go:60-73 | with a good handle, data goes to the file of the sampled day, also when the day moves back and forth |
| `AuditLog.WritesExactly` | internal/api/audit.go:60-73 | a call appends to the file of its day if and only if it opens a file for that day or holds an open one, and otherwise changes nothing |
| `AuditLog.HandleHistory` | internal/api/audit.go:60-72 | over any history of calls and closes, the handle is that of the day last written to, and open unless a rotation to another day has failed since |
| `AuditLog.LostExactly` | internal/api/audit.go:60-73 | over any history, a call loses its entry if and only if it had no handle for its day and its own open failed, or a failed rotation had closed its day's handle |
| `AuditLog.AllLand` | internal/api/audit.go:60-73 | while opens succeed, no entry is lost |
| `AuditLog.DiskOfLandings` | internal/api/audit.go:60-73 | the directory holds what the landing calls wrote, each in the file of its own day, and nothing else |
| `AuditLog.StepKeeps` | internal/api/audit.go:56-74 | in every interleaving of callers, with opens that succeed or fail, the logger is what the sections under its lock make of it, and each call carries the line and the day it sampled, on or after the day it started |
| `AuditLog.DiskExact` | internal/api/audit.go:64-73 | each file holds exactly the entries of the calls that landed on its day, in lock order |
| `AuditLog.DayExactly` | internal/api/audit.go:56 | the day of an instant is the stretch of 24 hours it lies in |
| `AuditLog.CallsConserved` | internal/api/audit.go:56-58 | in every run, each call that sampled a day is pending or took the lock once, with the day its clock stood at |
| `AuditLog.WriteTakesLock` | internal/api/audit.go:54-58 | a pending call that gets the lock goes through it with its own line and day |
| `AuditLog.LineAppended` | internal/api/audit.go:60-73 | a call that lands appends its line to the file of its own day, and changes no other |
| `AuditLog.MarchFile` | internal/api/audit.go:64 | for instance, the file of day 739315 is 2024-03-05.jsonl |
| `AuditLog.PrefilterInvisible` | internal/api/audit.go:97-108 | skipping files by name changes no result |
| `AuditLog.DaysPartition` | internal/api/audit.go:60-73 | the files of all days together hold each written entry exactly once |
| `AuditLog.NoEntryLost` | internal/api/audit.go:97-144 | in every interleaving, also across midnight and with failing opens, a read returns each entry with a time at or after `since` exactly as often as a call that carried it landed, and no other, when the local date of `since` is not ahead of its UTC date |
| `AuditLog.EveryEntryRead` | internal/api/audit.go:97-144 | while opens succeed, the calls that took the lock are exactly what is read |
| `AuditLog.ZoneExactly` | internal/api/audit.go:97 | the prefilter loses nothing if and only if the local date of `since` is not ahead of its UTC date |
| `AuditLog.FailedRotationLosesLateCalls` | internal/api/audit.go:60-69 | after a rotation whose open failed, a late call of the old day writes nothing |
| `AuditLog.LateCallStranded` | internal/api/audit.go:60-69 | the same as a history: the late call is lost although its own open would have succeeded |
| `Accept.Strip` | internal/api/accept.go:81-86 | no control character is left |
| `Accept.StripConcat` | internal/api/accept.go:81-86 | stripping works piece by piece, so what stays keeps its order |
| `Accept.StripChar` | internal/api/accept.go:81-86 | of single characters, exactly the controls go |
| `Accept.SanitizeIdempotent` | internal/api/accept.go:77-91 | sanitizing a second time changes nothing |
| `Accept.SanitizeExactly` | internal/api/accept.go:81-90 | a header is stripped, cut off at 4096 characters and trimmed |
| `Accept.InvalidExactly` | internal/api/accept.go:78-80 | negotiation calls a header invalid if and only if it holds a line break |
| `Accept.CheckMediaRange` | internal/api/accept.go:142-155 | the loop accepts exactly 1 to 128 allowed characters with a slash among them |
| `Accept.RangeCharExactly` | internal/api/accept.go:146-153 | the characters allowed in a range are letters, digits and / . + - * _ |
| `Accept.ParseQValue` | internal/api/accept.go:127-140 | the first q parameter decides; absent, unparsable and out-of-range read as 1 |
| `Accept.NoQ` | internal/api/accept.go:127-140 | without a q parameter, in either case of the letter, q is 1 |
| `Accept.FirstQExactly` | internal/api/accept.go:127-138 | otherwise the first one decides: its number if that lies in 0..1 or is NaN, and 1 if it does not parse or lies outside |
| `Accept.PaddedEntry` | internal/api/accept.go:114-133 | blanks around the semicolon, around the parameter and around its number do not matter |
| `Accept.ReadEntry` | internal/api/accept.go:114-125 | one part's type and q, or nothing for a malformed range |
| `Accept.ParseEntries` | internal/api/accept.go:93-112 | the entries of the first 32 parts, in order, blank and malformed ones left out |
| `Accept.NegotiateReaderFormat` | internal/api/accept.go:36-73 | the outcome: invalid, HTML for an empty header, 406, or the best candidate's format |
| `Accept.Choose` | internal/api/accept.go:50-72 | the loop over entries keeps the best supported candidate |
| `Accept.BestExact` | internal/api/accept.go:54-67 | the best candidate is the first of the greatest q's, unless a NaN stands first |
| `Accept.PicksFirstMaximum` | internal/api/accept.go:54-72 | negotiation fails if and only if no part is a supported candidate of positive q, and picks the first of the greatest q's if and only if the first candidate's q is a number |
| `Accept.HtmlBeatsJson` | internal/api/accept.go:54-67 | for instance, "text/html;q=nan" in front of "application/json;q=1" gives HTML, and behind it JSON |
| `Accept.LeadingNaNWins` | internal/api/accept.go:54-67 | any range at q=nan in front of another at q=1 is chosen, and is not of the greatest q; behind it, it is not |
| `Accept.HeaderOfParts` | internal/api/accept.go:36-47 | a header of at most 32 parts within the cap is answered from its stripped parts alone, and as HTML when nothing visible is left |
| `Accept.LatePartsIgnored` | internal/api/accept.go:94-97 | of more than 32 parts, only the first 32 count |
| `Accept.RangeAnswered` | internal/api/accept.go:157-169 | a header of one valid range is answered with HTML if and only if it is text/html, text/* or */* in any case, with Markdown for text/markdown and text/x-markdown, with JSON for application/json and application/*, and with 406 otherwise |
| `Accept.JunkInvisibleExactly` | internal/api/accept.go:98-110 | inserting an unsupported, malformed, blank or q=0 entry anywhere changes nothing if and only if something visible was in the header |
| `Accept.BlankHeaderWithJunk` | internal/api/accept.go:41-48 | an empty header means HTML; any unsupported range added to it, 406 |
| `Accept.ImageUnsupported` | internal/api/accept.go:157-169 | for instance, "image/png" is such a range |
| `Accept.OrderInvisible` | internal/api/accept.go:54-67 | when all possible winners ask for one format, any permutation of the parts gives the same answer |
| `Accept.OrderInvisibleExactly` | internal/api/accept.go:36-73 | the order of the parts of a header does not matter if and only if the candidates of the greatest q and those with q=nan all ask for one format |
| `Accept.FrontWins` | internal/api/accept.go:54-67 | every such candidate wins when its part is moved to the front |
| `Accept.RenderRoundTrip` | internal/api/accept.go:93-140 | parsing the header rendered from at most 32 valid items gives them back with lower-case types and the same q |
| `Accept.RenderedChoice` | internal/api/accept.go:36-73 | from end to end, by the names of the ranges: a header rendered from at most 32 valid items is answered 406 if and only if no item names a format with a positive q, and otherwise with the format of the first item of the greatest q |
| `CalcSpecs.ParseSpecs` | internal/api/handlers_dataview.go:87-118 | the loop of both parsers: all specifications in order, a count when there is none, refusal at the first bad part |
| `CalcSpecs.CheckFunctions` | cmd/aggregate.go:104-110 | the CLI's own check passes if and only if every function is supported |
| `CalcSpecs.ParsersAgree` | cmd/aggregate.go:48-76 | the CLI's parser and function check together accept the same texts as the server's parser, with the same specifications |
| `CalcSpecs.FunctionExactly` | internal/api/handlers_dataview.go:102-112 | "fn:field" is accepted by the server if and only if the function is count, avg, sum, min or max and the field is well named, and by the CLI's parser if and only if the field is |
| `CalcSpecs.BlankMeansCount` | internal/api/handlers_dataview.go:88-96 | nothing but blanks and commas asks for a count |
| `CalcSpecs.PaddedPart` | internal/api/handlers_dataview.go:94-97 | blanks around a specification do not matter |
| `CalcSpecs.FieldCharExactly` | internal/api/handlers_dataview.go:109-111 | the characters allowed in a field name are letters, digits and _ - . [ ] * |
| `CalcSpecs.LabelsRoundTrip` | internal/api/handlers_dataview.go:120-125 | parsing the joined labels of any nonempty list of valid specifications gives it back, on both sides |
| `CalcSpecs.LabelInjective` | internal/api/handlers_dataview.go:120-125 | no two valid specifications share a label |
| `CalcSpecs.AcceptsOnlyValid` | internal/api/handlers_dataview.go:98-117 | what is accepted is a nonempty list of valid specifications |
| `Aggregate.Compile` | internal/api/handlers_dataview.go:174-189 | the builder's columns: the group key, then each specification's own |
| `Aggregate.OneColumnEach` | internal/api/handlers_dataview.go:176-188 | for accepted specifications there is exactly one column each, so column i+1 belongs to specification i |
| `Aggregate.EvalMeaning` | internal/api/handlers_dataview.go:206 | a row of the compiled query holds the group and each specification's direct aggregate over it |
| `Aggregate.SameExactly` | internal/api/handlers_dataview.go:206 | numbers are one group when they are equal, whether integer or real; nothing else is but itself |
| `Aggregate.Fold` | internal/api/handlers_dataview.go:214-242 | the scan's buckets by printed group key and label |
| `Aggregate.FillBucket` | internal/api/handlers_dataview.go:229-240 | the inner loop fills one bucket, column i+1 under the label of specification i |
| `Aggregate.BucketMeaning` | internal/api/handlers_dataview.go:229-240 | a bucket holds exactly the labels asked for, each with its own aggregate |
| `Aggregate.CompilationPreservesMeaning` | internal/api/handlers_dataview.go:174-242 | the whole answer: for each key, label by label, the direct aggregate over the group filed under it (the last, where several are), and no other key |
| `Aggregate.KeysExactly` | internal/api/handlers_dataview.go:225-241 | a key is in the answer if and only if some group prints as it, other than "<nil>", or it is "(none)" and some group prints as "<nil>" |
| `Aggregate.GroupsPartition` | internal/api/handlers_dataview.go:206 | every matching row belongs to exactly one group |
| `Aggregate.CountsAddUpExactly` | internal/api/handlers_dataview.go:225-241 | the counts add up to the matching rows if and only if no two groups print alike and none prints as "(none)" beside one that prints as "<nil>" |
| `Aggregate.NoneCollides` | internal/api/handlers_dataview.go:225-228 | for instance, a row without the field and one whose field is "(none)" lose one of the two counts |
| `DeviceFlow.PollForTokens` | cmd/login.go:157-204 | the loop's result and requests are those of the recursive exchange, for every server, latency and oversleeping |
| `DeviceFlow.ReadReply` | cmd/login.go:175-200 | what the loop does with a response: return a token or an error, go on, or go on more slowly |
| `DeviceFlow.IntervalCounts` | cmd/login.go:189-192 | the interval in force is the first one plus the number of slow_downs so far |
| `DeviceFlow.SleptBefore` | cmd/login.go:159-168 | every request is sent before the deadline and after sleeping all the intervals before it |
| `DeviceFlow.SleptBelowExpiry` | cmd/login.go:159-161 | the seconds slept before any request stay below `expiresIn` |
| `DeviceFlow.RequestsBounded` | cmd/login.go:157-204 | with a positive interval, at most ceil(expiresIn / interval) requests, whatever the server answers |
| `DeviceFlow.BoundedExactly` | cmd/login.go:148-161 | at most one request for each second that the code lives, whatever the server answers, if and only if the server did not send a negative interval |
| `DeviceFlow.Floods` | cmd/login.go:161-168 | without a positive interval, a server that cannot be reached is asked as fast as requests return |
| `DeviceFlow.DefaultsBound` | cmd/login.go:148-153 | with both defaults, at most 60 requests |
| `DeviceFlow.SlowDownsCost` | cmd/login.go:189-192 | m leading slow_downs and a further request need m*interval + 1 + 2 + ... + m < expiresIn |
| `DeviceFlow.FirstDecisionWins` | cmd/login.go:181-203 | the result is that of the first reply that grants a token or holds another error code than the two of RFC 8628, section 3.5, that go on; a timeout means none did |
| `DeviceFlow.DecideExactly` | cmd/login.go:166-200 | what each reply means: a token with status 200 is returned; no reply, no error and "authorization_pending" mean again, "slow_down" more slowly; any other error ends the exchange |
| `DeviceFlow.AskedExactly` | cmd/login.go:161-200 | the loop asks at once, and again as soon as a request and its sleep are over, if and only if that is before the deadline and the last reply did not decide |
| `DeviceFlow.DefaultsExactly` | cmd/login.go:148-153 | 5 seconds and 5 minutes where the server leaves them out, its own numbers otherwise |
| `GraphCache.StepKeeps` | internal/api/handlers_graph.go:100-119 | requests, computations, publications, landings, writes and invalidations in any order keep a cached graph right, or about to be dropped, or known to be published after an overrun; one answer per flight; and every answer that is dated the graph of the store of its date |
| `GraphCache.EveryRequestAnswered` | internal/api/handlers_graph.go:100-119 | in every run each request was a hit, was served by its flight, or still waits for it |
| `GraphCache.SecondLookAnswers` | internal/api/handlers_graph.go:104-107 | a graph published between a miss and its turn is what all waiters of the flight get |
| `GraphCache.FailureAnswers` | internal/api/handlers_graph.go:108-117 | a computation that fails leaves the cache alone and all its waiters without a graph |
| `GraphCache.NeverStale` | internal/api/handlers_graph.go:112 | without an overrun nothing stale is ever published |
| `GraphCache.CacheIsCurrent` | internal/api/handlers_graph.go:100-119 | in a run without overruns, a cached graph is that of the current store once no invalidation is outstanding; in every run the waiters of one flight get the same answer |
| `GraphCache.CurrentExactly` | internal/api/handlers_graph.go:104-114 | for every run that ends with a cached graph and no invalidation outstanding: the cache is current, whatever the last computation could have returned, if and only if no write and its invalidation both fell into the window of that computation |
| `GraphCache.PublishedIsCached` | internal/api/handlers_graph.go:108-113 | such a run ends with exactly what its last computation returned, over the store that computation ended with, and would have done so for any other result |
| `GraphCache.OverrunLeavesStale` | internal/api/handlers_graph.go:104-114 | a schedule that breaks the condition: a write and its invalidation inside one compute window leave what was read there in the cache for good; an invalidation after the publication empties it |
| `GraphCache.AnswersExactly` | internal/api/handlers_graph.go:100-118 | in every run, an answer whose computation was not disturbed is the graph of a store at or after the start of its request if the computation did not begin before the writes that the request had behind it, and only then when the stores differ in their graphs |
| `GraphCache.WaitersExactly` | internal/api/handlers_graph.go:104-118 | while a computation runs, a waiter is sure of the graph of a store at or after the start of its request if and only if no write has fallen into the window of the computation |
| `GraphCache.LateWaiterIsStale` | internal/api/handlers_graph.go:104-118 | for instance, a request that begins after a write and its invalidation, but joins a computation from before, can be answered with the old graph |
| `GraphCache.Handler.constructor` | internal/api/handlers.go:81-82 | a new handler is the initial state of the machine |
| `GraphCache.Handler.InvalidateGraphCache` | internal/api/handlers.go:91-93 | one invalidation step of the machine: the cache is empty afterwards |
| `GraphCache.Handler.Graph` | internal/api/handlers_graph.go:100-119 | an uninterrupted request is a run of the machine: a hit is answered from the cache; a miss requests, looks again, computes, publishes and answers one waiter with the store's graph; a failure publishes nothing |
| `GraphCache.MissRun` | internal/api/handlers_graph.go:104-118 | what the steps of an uninterrupted miss leave behind |
| `Tokens.TokenFile.Create` | cmd/token.go:102-158 | loads the file, refuses other scopes without a change; otherwise appends the entry to the list it found and sets the type where it was missing, empty or "none" |
| `Tokens.TokenFile.Revoke` | cmd/token.go:232-276 | loads the file, fails without a change when no key it found has the prefix; otherwise removes exactly those that do |
| `Tokens.SucceedsExactly` | cmd/token.go:109-114 | a create succeeds for the scopes read, write and admin only, a revoke if and only if a key it finds begins with the prefix; a command that fails changes nothing |
| `Tokens.CreatedExactly` | cmd/token.go:116-153 | the new entry is the last one and holds key, scope, space and prefix as given, and the actor given or "<scope>-token" |
| `Tokens.KeysAreSurvivors` | cmd/token.go:141-154 | over any run of commands, when saved lists are found again, the list is the initial entries and then the created ones, in order, without exactly those that a later revoke matches |
| `Tokens.SurvivorsExactly` | cmd/token.go:65-85 | every run of commands behaves so if and only if reloading finds every saved list again |
| `Tokens.HiddenListKeepsTheLast` | cmd/token.go:151-153 | when a saved list of tables is not found again, each create drops all earlier keys and every revoke fails |
| `Tokens.SurviveOneMore` | cmd/token.go:248-272 | one more revoke removes from the survivors exactly what it matches |
| `Tokens.RevokeUndoesCreate` | cmd/token.go:257-265 | revoking a new key in full restores the list if and only if no other key starts with it |
| `Tokens.UnrecognisedSurvive` | cmd/token.go:251-255 | entries that are no tables survive every revoke |
| `Tokens.KindNeverReset` | cmd/token.go:145-148 | no command takes the type back: after any run it is the initial one or what a create made of it, and the latter after any successful create |
| `Tokens.EnforcedExactly` | internal/api/server.go:376-386 | after any run with a successful create, the middleware asks for a key if and only if the type was per-key, missing or "none" at the start and some entry was not revoked since |
| `Tokens.RevokedLastKeyOpens` | internal/api/server.go:382-385 | creating the first key and revoking it in full leaves the type per-key and no key asked for |
| `Period.ParsePeriodSeconds` | internal/api/handlers_analytics_v2.go:13-36 | the method agrees with the 64-bit specification for every text |
| `Period.CountDays` | internal/api/handlers_analytics_v2.go:21-29 | the digit loop, wrapping at 64 bits, or 7 at the first other character |
| `Period.DaysExactly` | internal/api/handlers_analytics_v2.go:19-33 | "<n>d" with n >= 1 means n days if and only if the seconds fit in 64 bits |
| `Period.PrintRoundTrip` | internal/api/handlers_analytics_v2.go:21-33 | the printed numeral of n, with any leading zeros, reads back as n days |
| `Period.OtherwiseAWeek` | internal/api/handlers_analytics_v2.go:30-35 | every other text means 7 days |
| `Period.WholeBuckets` | internal/api/handlers_analytics_v2.go:39-48 | within 64 bits the window is a positive, whole number of its buckets |
| `Period.BucketsExactly` | internal/api/handlers_analytics_v2.go:39-48 | a window of n days has 24*n buckets up to a week, and n beyond |
| `Period.OverflowIsNegative` | internal/api/handlers_analytics_v2.go:33 | a numeral of 2^63 - 1 days gives minus one day |

## Left out

- HTTP binding and status codes, JSON, server-sent events, command-line flags, terminal output: input and output with nothing to prove.
- SQLite, git, the file system, `singleflight`, the event hub: taken as tables, a linear history, files that are appended to, and single steps.
- FNV and SHA-256: the hash is a parameter of the writer; keys that collide count as one key.
- Clocks, latencies, outcomes of statements and commits: parameters or step labels. A transaction that cannot begin, prepare or commit is one that does not commit.
- A second call of `Stop`, which panics in the original.
- The `had_results` column of `search_hours` and the unused `unique_actors` column.
- Statements of one transaction that fail after a context timeout: any pattern of failures is covered, their cause is not modelled.
- git's error texts, and abbreviated or upper-case hashes given by hand as a cursor: a modelled client only sends hashes it was given.
- Rewritten or branching history: the log only grows at its head.
- ChangeParsing.LineRoundTrip: times are nonnegative and fit 64 bits; signed or overflowing timestamp fields, which `ParseInt` reads differently, are not modelled, and the time is kept in seconds rather than formatted.
- White space beyond ASCII, UTF-8 boundaries at the 4096-byte cap, and invalid UTF-8: texts are sequences of characters.
- Years beyond 9999, where date names stop having ten characters.
- AuditLog.NoEntryLost: files stay readable, writes to an open file succeed in full, and the directory holds only audit files; `ReadDir` errors are not modelled.
- The JSON codec of audit entries: a parameter, assumed to print one line that decodes to what was encoded.
- `ParseFloat`: a parameter; every theorem about q holds for any such function.
- The text of the SQL: the SELECT list is a list of columns. The `where` filter and the path prefix only decide which rows match.
- The CLI's sorted table output, and the order in which the database returns groups, which is arbitrary here, as is the member under whose value a group is returned.
- GraphCache.CacheIsCurrent: says nothing while an invalidation is outstanding; `GraphCache.CurrentExactly` likewise.
- GraphCache.AnswersExactly: says nothing of an answer whose computation a write disturbed; such an answer is not known to be the graph of any store.
- `computeGraph`'s collection of nodes and edges and the extraction of tags: the graph is a function of the store.
- Durations over 292 years in the polling loop, which overflow in the original.
- Listing tokens, generating keys, and a configuration file that cannot be read or written. What a command finds of a saved key list is a parameter: the TOML library is not part of this model.
- Tokens.EnforcedExactly: takes the list in the file as the one the server loads; the visibility setting that lets reads through before any key is asked for, and the API key and OIDC types, are not modelled.
- The handlers over packages outside the modelled files.
