# JCode-Watcher: a verified model

JCode-Watcher watches student workspaces. Two collectors (filemon for files, procmon for processes)
spool what they see and deliver it in batches to a backend, which stores it and answers queries about it.
This Dafny project models the parts whose correctness spans several functions or whole runs, and proves
properties of them for all inputs, all runs and all interleavings. `dafny verify dfyconfig.toml` checks
everything.

| files | part |
|---|---|
| `Events`, `Order`, `Decimal`, `Sums`, `Paths` | shared data, sorted listings, numerals, sums over maps, path texts |
| `Spool`, `Sender` | the durable queue of a collector and one flush of it |
| `EventStore`, `BatchEndpoint`, `Drain` | the event tables, the two insert paths, the batch endpoint, and flushes against it |
| `Delivery` | the protocol between collector and backend as freely interleaving steps |
| `Debouncer`, `DebouncerRuns`, `DebouncerLatency`, `DebouncerWindows` | the debouncer, what it forwards, how late, and when only after a full quiet window |
| `Polling` | the polling observer with system-mutation markers |
| `Base64`, `Cursor`, `AssignmentKey`, `Paging` | cursor codec, assignment scope, keyset pagination |
| `Snapshots`, `Trends`, `Variation`, `Ties`, `Dashboard` | the window-function analytics |
| `Queries`, `DeliveryOrder`, `EndToEnd` | what the endpoints answer, independently of the order of delivery |
| `Cache` | the bounded TTL/LRU cache, its history, and its keys |
| `PathBuffer`, `Utf8`, `PathTexts` | the eBPF path builder, the reader of its buffer, and the text it decodes |
| `ProcessParsers`, `ProcessPipeline` | from a process to a delivered event |

How it is modelled:

- Code that changes state step by step (spool, sender, event tables, batch endpoint, debouncer, cache,
  baseline folding, observer loop, dashboard merging, path buffer, process pipeline) is a class or a method
  whose contract equates the new state with a function of the old one. The lemmas are about those functions.
- SQLite and PostgreSQL transactions are atomic. A table is a sequence of rows, so uniqueness of event ids is
  proved and not built in. The queries of the analytics are functions of the selected rows.
- Clocks, resolved course ids, replies, database failures, scans and markers are parameters. In `Delivery` the
  network may lose, delay and repeat, and the collector may crash between any two steps.
- Times are integers of one unit; the cursor and the pages use the fields of a UTC datetime.
- An event object of the debouncer carries the position at which it came in, which stands for its identity.
- The spool and the sender of procmon repeat those of filemon; one model stands for both.

What the code does that one might not expect, each with a lemma:

- `INSERT OR IGNORE` drops an event whose id still waits in the spool for another table (`EnqueueCanDrop`).
  `EnqueueKeptIff` gives the exact condition under which an enqueued event is never lost. Fresh UUIDs meet it.
- After a forced flush the debouncer's old timer lives on and may forward the next event before a full quiet
  window. `FullWindowsIff` says exactly when this can happen, `ForcedHappens` that it does. The refinement and
  latency results hold with such timers.
- The comment on the path builder's flag says a name longer than the maximum is reported, but a name of
  exactly 64 bytes silently loses its last byte, and a path that does not fit silently loses its first
  components (`TruncationIsSilent`, `OverflowIsSilent`; the exact conditions are `WholePathIff`,
  `WalkStops` and `SilentLossIff`). If that last byte belongs to a longer character, decoding raises and the whole
  process is dropped (`ReadRaisesIff`).
- Snapshots of one file at the same time count by row id, so when their sizes differ the order of delivery
  can show (`TiesShowOrder`); `OrderHiddenIff` says exactly when it does, interval by interval.
- A colon in a class division can make invalidation hit another owner's pages (`ColonInvalidatesOthers`);
  `InvalidationReaches` says exactly which owners, `UnderPrefixIff` which pages.
- A log query by `assignment-N` ignores the class division, but its page is cached under it, so a page cached under
  another class division, or another spelling of the id, stays and misses a new event until it expires
  (`StalePagesStay`); `ShownPageGoesIff` and `NoStalePageIff` say exactly which pages do.
- Whether a tie shows in the dashboard's total and the graph's sum depends on the sizes around it
  (`SwappedTotalsIff`, `SwappedGraphIff`).

## Model

| member | source | states |
|---|---|---|
| Spool.EventSpool.Enqueue | packages/filemon/app/spool.py:35-57 | a new id gets a row with the kind and payload handed over, no attempts, created now and due at every clock from 0 on, and no other row changes; a waiting id changes nothing |
| Spool.EventSpool.PendingRecords | packages/filemon/app/spool.py:59-73 | returns the due rows in order of creation and id, cut at the limit; a negative limit is none |
| Spool.EventSpool.Acknowledge | packages/filemon/app/spool.py:75-82 | exactly the listed ids leave the table |
| Spool.EventSpool.RetryLater | packages/filemon/app/spool.py:84-95 | each listed row counts one more attempt and is due again the delay after the reading of the clock made for it |
| Spool.DeferredMeaning | packages/filemon/app/spool.py:84-95 | whatever the readings of the clock, postponing keeps every row and payload and counts one attempt per listing; rows that are not listed are left alone |
| Spool.DueAsLastListed | packages/filemon/app/spool.py:88-95 | a listed row is due again the delay after the last reading made for it |
| Spool.EventSpool.Contains | packages/filemon/app/spool.py:97-104 | whether the id has a row |
| Spool.PendingIsOldestFirst | packages/filemon/app/spool.py:59-73 | the batch is a duplicate-free, longest possible prefix of the due rows in (created_at, event_id) order; what it leaves out comes later |
| Sender.SnapshotSender.FlushOnce | packages/filemon/app/sender.py:48-124 | one flush with partial resolution: what is posted, how many are completed, and the spool after success, partial acknowledgement or failure, with the clock read for the selection and again for each postponed row |
| Sender.PostedMeaning | packages/filemon/app/sender.py:50-78 | the batch posted is exactly the selected records whose course resolves, each once with what its row carries and its course, in order of creation and id |
| Sender.FlushMeaning | packages/filemon/app/sender.py:72-124 | after a flush the acknowledged attempts are gone, the other attempts (or the whole batch when no course resolved) count one more attempt and are due the retry delay after a reading of the clock, and every other row is as it was |
| Sender.FreshIsPosted | packages/filemon/app/sender.py:41-46 | an event enqueued into a spool with room in the batch is posted by the next flush with what was handed over and waits afterwards exactly when it was not acknowledged |
| Sender.OnlyFreshIsPosted | packages/filemon/app/sender.py:41-46 | enqueued into an empty spool it is all that is posted, and its acknowledgement leaves the spool empty |
| Sender.SnapshotSender.RegisterSnapshot | packages/filemon/app/sender.py:29-46 | enqueue, flush, and true exactly when the id no longer waits; a new event with a course and room in the batch is posted as handed over and its acknowledgement decides, and from an empty spool it is all that is posted |
| Sender.FlushEffect | packages/filemon/app/sender.py:48-124 | a flush removes exactly the acknowledged attempts, takes all it touched out of the due set, keeps kind and payload of every row and leaves all others alone |
| Sender.FlushShrinksDue | packages/filemon/app/sender.py:48-124 | every flush of a nonempty due set strictly shrinks what is due at that time, whatever resolves and however the post ends, when postponed rows are due later |
| Sender.FlushOnTime | packages/filemon/app/sender.py:48-124 | so it does whenever the clock does not run back during the flush and the retry delay is positive |
| Sender.DrainsInCeiling | packages/filemon/app/sender.py:48-124 | with all courses resolved and all posts answered, n due records are gone after exactly ceil(n / batch size) flushes, and only due records have left |
| EventStore.EventDatabase.InsertEventOnce | packages/backend/crud/event.py:11-30 | inserts exactly if the id is new and the size allowed, and then appends one row with the next id; raises exactly for a negative size on PostgreSQL; what is drawn from the sequence on both branches |
| EventStore.EventDatabase.InsertEventBatch | packages/backend/crud/event.py:33-54 | stores the whole batch, or on any failure leaves every row as it was; on PostgreSQL a sequence value for each entry of some beginning of the batch stays drawn |
| EventStore.BatchMembership | packages/backend/crud/event.py:33-54 | a batch only appends; afterwards a table holds exactly the old ids and those named for it, each once, with increasing row ids |
| EventStore.BatchFirstWriterWins | packages/backend/crud/event.py:37-50 | every added row is the first entry of the batch for its table and id, and that id was not there before |
| EventStore.RowIdMeaning | packages/backend/crud/event.py:36-50 | the first entry of a batch for a new id becomes a row whose id counts the entries before it that took one |
| EventStore.NextIdMeaning | packages/backend/crud/event.py:38-50 | the next row id grows by one for every entry on PostgreSQL, duplicates included, and for every new row on SQLite |
| EventStore.BatchSucceedsIff | packages/backend/crud/event.py:36-54 | exactly when all statements go through, with the difference between the databases for an entry that violates the size constraint |
| EventStore.BatchIsRepeatedOnce | packages/backend/crud/event.py:11-54 | on success a batch equals inserting its entries one at a time, duplicates and row ids included, on both branches |
| EventStore.StoredBatchChangesNothing | packages/backend/crud/event.py:33-54 | entries that are all stored already change no row in any order and number |
| EventStore.BatchIsIdempotent | packages/backend/crud/event.py:33-34 | repeating a stored batch succeeds and changes no row |
| EventStore.BatchAllowsOnly | packages/backend/models/snapshot.py:9-11 | no stored snapshot ever has a negative size |
| BatchEndpoint.Backend.RegisterEventBatch | packages/backend/routers/v2.py:145-172 | one invalid entry or a bad length rejects the request untouched; a database failure stores nothing; otherwise all is stored, no cached page under the prefix of a build or run entry is left, and exactly the batch's ids are acknowledged, in order |
| BatchEndpoint.SchemaValidIff | packages/backend/schemas/event.py:7-17 | exactly which entries are valid: positive ids, a student key of 1 to 32 allowed characters, names and texts within their bounds, and just the columns of the kind |
| BatchEndpoint.InvalidatedMeaning | packages/backend/routers/v2.py:162-169 | the invalidations of a batch remove exactly the pages whose keys begin with "build:" or "run:" and the class division, homework name and student key of a build or run entry |
| BatchEndpoint.ShownIsSelected | packages/backend/crud/student.py:102-105 | a page shows an entry exactly when a log query for the page's owner selects the row the entry becomes |
| BatchEndpoint.ShownPageGoesIff | packages/backend/utils/assignment_key.py:13-17 | of the pages whose query selects an entry, its invalidation removes exactly those cached under the entry's own class division and homework name, which is all of them for a name without an assignment id |
| BatchEndpoint.NoStalePageIff | packages/backend/services/student.py:64-102 | a batch leaves no page behind that shows one of its entries exactly when every cached page that shows one belongs to the quadruple of some build or run entry of the batch |
| BatchEndpoint.StalePagesStay | packages/backend/services/student.py:74-80 | pages of one assignment cached under another class division or another spelling of the id stay although they show a stored build |
| Drain.FlushAgainst | packages/filemon/app/sender.py:81-114 | one flush whose post is answered by the batch endpoint, as a function of spool and tables |
| Drain.DrainsIntoTables | packages/filemon/app/sender.py:48-124 | with valid payloads, resolved courses, at most 500 records a batch and no database failure, n due records are gone after exactly ceil(n / batch size) flushes against the endpoint, and all that left the spool is stored with its payload, unless its id was stored before |
| Delivery.StepKeepsInv | packages/filemon/app/sender.py:48-124 | every step of the protocol keeps the invariant and takes back nothing stored, accepted or sent |
| Delivery.RunKeepsInv | packages/filemon/app/sender.py:48-132 | so does every run |
| Delivery.AlwaysPossible | packages/filemon/app/sender.py:81-124 | at any time a crash, an enqueue, a posted request reaching the backend once more, and the end of a pending flush by an answer or without one are possible steps |
| Delivery.DeliverySafety | packages/filemon/app/sender.py:29-132 | in every run an accepted event waits in the spool or has a row, never two, and the row carries the first accepted payload |
| Delivery.LeavesSpoolOnlyStored | packages/filemon/app/sender.py:101-114 | an id leaves the spool only when its row is in the table of its kind |
| Delivery.RegisteredMeansStored | packages/filemon/app/sender.py:29-46 | once a fresh event was enqueued, its absence from the spool at any later time means it is stored with the very payload handed over |
| Delivery.EnqueueKeptIff | packages/filemon/app/spool.py:47-57 | in every continuation of every run an enqueued event waits in the spool or is stored, exactly when its id was not waiting for another table or was stored already |
| Delivery.EnqueueCanDrop | packages/filemon/app/spool.py:50-54 | a run in which an enqueued event is neither waiting nor stored |
| Delivery.FlushIsARun | packages/filemon/app/sender.py:48-124 | every uninterrupted flush, however it ends and whatever is acknowledged, is a legal run that leaves the same spool, and an answered post is stored |
| Debouncer.Debouncer.ProcessEvent | packages/filemon/app/debouncer.py:20-47 | the state after a deleted, moved or modified event, under the key of the path it concerns; no key stays in flight, no bucket is empty |
| Debouncer.SameKeyIff | packages/filemon/app/debouncer.py:39-47 | two events share a key exactly when the paths they concern, the destination of a move and otherwise the source, have the same leading slashes and the same components |
| Paths.ComponentsOfPieces | packages/filemon/app/debouncer.py:47 | the components of a path are the pieces between its slashes without the empty ones and the single dots |
| Paths.RootMeaning | packages/filemon/app/debouncer.py:47 | of the leading slashes it counts whether there are none, exactly two, or another number |
| Debouncer.ModifiedMeaning | packages/filemon/app/debouncer.py:79-125 | a modified event ends the bucket of its path with a new timer a window ahead; nothing is forwarded but the last event of a bucket that is max wait old; other paths are left alone |
| Debouncer.ImmediateMeaning | packages/filemon/app/debouncer.py:49-77 | a deleted or moved event goes out behind the last pending event of its path, and neither bucket nor its timer is left |
| Debouncer.FiredMeaning | packages/filemon/app/debouncer.py:127-168 | a timer that fires takes the bucket its key has by then and forwards its last event |
| Paths.PathTextStable | packages/filemon/app/debouncer.py:39-47 | the text of a path is its own text, so keys are normalised once and for all |
| Debouncer.Debouncer.HandleImmediateEvent | packages/filemon/app/debouncer.py:49-77 | the pending event goes out first, its timer is cancelled, then the immediate event goes out |
| Debouncer.Debouncer.AddToBucket | packages/filemon/app/debouncer.py:79-110 | extends the bucket, or flushes one that is too old without cancelling its timer and opens a new one |
| Debouncer.Debouncer.ScheduleTimer | packages/filemon/app/debouncer.py:112-125 | cancels the bucket's timer, if any, and starts a new one a window ahead |
| Debouncer.Debouncer.TimerCallback | packages/filemon/app/debouncer.py:127-139 | the timer ends and its key is flushed, whichever bucket that key now has |
| Debouncer.Debouncer.FlushBucket | packages/filemon/app/debouncer.py:141-168 | pops the bucket and forwards its last event |
| DebouncerRuns.HappeningKeepsInv | packages/filemon/app/debouncer.py:20-168 | every handler keeps the invariant, whenever timers fire, stale ones included |
| DebouncerRuns.OutputRefinesInput | packages/filemon/app/debouncer.py:20-168 | in every run outputs of a path are inputs in order, none twice; deleted and moved events are all forwarded; the latest input of a path ends its bucket or is its last output |
| DebouncerRuns.DrainedForwardsLatest | packages/filemon/app/debouncer.py:112-168 | once no timer is left the latest event of every path has been forwarded, last of its path |
| DebouncerLatency.LatencyBound | packages/filemon/app/debouncer.py:79-139 | with timers on time every event is covered by an output of its path within max wait plus window; a bucket spans less than max wait and has a live timer a window after its latest event |
| DebouncerWindows.FullWindowsUnforced | packages/filemon/app/debouncer.py:79-125 | in a run on time in which no arrival finds its bucket max wait old, every live timer is its bucket's own and every release comes exactly a window after the last event |
| DebouncerWindows.FullWindowsIff | packages/filemon/app/debouncer.py:86-96 | after such a run an arrival keeps that guarantee for every unforced continuation exactly when its bucket is not max wait old |
| DebouncerWindows.ForcedLeavesStale | packages/filemon/app/debouncer.py:87-95 | a forced flush leaves a live timer of the key due less than a window after the new bucket opened |
| DebouncerWindows.ReleaseWaits | packages/filemon/app/debouncer.py:127-139 | in every run on time a release comes at most a window after the bucket's last event, and after the full window exactly when the timer is due with the bucket's own |
| DebouncerWindows.ForcedHappens | packages/filemon/app/debouncer.py:86-96 | a run on time whose next arrival is a forced flush |
| Polling.ApplySystemMutationBaselines | packages/filemon/app/polling_observer.py:135-171 | for any markers and any order of them: a path below a directory whose marker is in progress, or is new or changed and not older than the file, has its current entry, any other its previous one |
| Polling.ChangedEventsMeaning | packages/filemon/app/polling_observer.py:174-181 | an event for a path exactly when its entries differ, never two, deletions first, each group in path order |
| Order.StrLessMeaning | packages/filemon/app/polling_observer.py:177-179 | path order is decided by the first character in which two paths differ |
| Polling.RunObserver | packages/filemon/app/polling_observer.py:248-271 | one list of events per scan, compared with the scan before, up to the first failed scan |
| Polling.EmittedMeaning | packages/filemon/app/polling_observer.py:259-271 | the first list of events compares with the baseline scan, every other with the scan before |
| Polling.RoundEventsMeaning | packages/filemon/app/polling_observer.py:259-271 | a round emits an event for a path exactly when it changed between the two scans and no marker on a directory above it, followed by a slash, suppresses it |
| Polling.OnlyOwnMarkerSuppresses | packages/filemon/app/polling_observer.py:117-171 | a change below an assignment directory is emitted exactly when the marker of that very directory does not suppress it |
| Polling.OtherMarkerIsSilent | packages/filemon/app/polling_observer.py:146-152 | an edit in one assignment is emitted whatever the marker of another assignment of the workspace says |
| Polling.ViewIsLastPassed | packages/filemon/app/polling_observer.py:248-271 | following the events of a whole run gives each path its entry at the last scan with an unsuppressed change: suppressed changes never resurface |
| Polling.MarkerFreeReplay | packages/filemon/app/polling_observer.py:248-271 | without markers, replaying all events on the baseline scan reproduces the latest scan |
| Base64.DecodeEncode | packages/backend/utils/cursor.py:14-22 | base64url decoding undoes encoding for every sequence of octets |
| Base64.EncodeMeaning | packages/backend/utils/cursor.py:14 | each three octets are four characters of the URL-safe alphabet, six bits each in order, the last group padded |
| Base64.UrlSafe | packages/backend/utils/cursor.py:14 | without its padding an encoding is made of that alphabet alone |
| Base64.RestoredStripped | packages/backend/utils/cursor.py:14-22 | padding stripped and restored by length modulo four is the original padding |
| Cursor.IsoRoundTrip | packages/backend/utils/cursor.py:12-23 | every UTC time is read back from its ISO text, with or without microseconds |
| Cursor.IsoMeaning | packages/backend/utils/cursor.py:12 | where each field of a time stands in its ISO text, with microseconds only when there are some |
| Cursor.JsonMeaning | packages/backend/utils/cursor.py:13 | the JSON text is an array of the quoted time and the numeral of the id, without blanks |
| Cursor.CalendarMeaning | packages/backend/utils/cursor.py:23 | exactly which times there are: those of the Gregorian calendar from year 1 to 9999 |
| Cursor.JsonRoundTrip | packages/backend/utils/cursor.py:13-22 | the compact JSON pair is read back |
| Cursor.CursorRoundTrip | packages/backend/utils/cursor.py:9-30 | decoding an encoded cursor gives back the time and the id |
| Cursor.CursorInjective | packages/backend/utils/cursor.py:9-14 | different positions have different cursors |
| Cursor.CursorIsUrlSafe | packages/backend/utils/cursor.py:9-14 | a cursor needs no escaping in a URL |
| AssignmentKey.WrittenKeyIsRead | packages/backend/utils/assignment_key.py:7-17 | the key written for an id is read back as that id and selects by id whatever the class division |
| AssignmentKey.HwNameIff | packages/backend/utils/assignment_key.py:4-10 | an id is read exactly from the names that are the prefix and one or more digits, and it is their value |
| Decimal.LeadingDigit | packages/backend/utils/assignment_key.py:10 | the value of a numeral by the place of its leading digit |
| AssignmentKey.LogScope | packages/backend/utils/assignment_key.py:13-17 | a query by such a name selects by the id, a query by any other name by class division and name |
| Paging.PageMeaning | packages/backend/routers/v2.py:56-79 | a page is the newest rows below the cursor of the student and the assignment asked for, within the range of times; no next cursor means nothing is left, a next cursor is the last row's position and more follows |
| Paging.BadCursorIff | packages/backend/routers/v2.py:64-67 | a request is refused exactly for a cursor that does not decode |
| Paging.FollowingMissesNothing | packages/backend/routers/v2.py:84-107 | over a growing table the pages are strictly descending, repeat nothing, and in the end hold every matching row that was there at the start |
| Paging.FixedTablePages | packages/backend/routers/v2.py:28-34 | over a fixed table the pages together are exactly the sorted result |
| Paging.FollowingEnds | packages/backend/routers/v2.py:68-79 | following the cursors of a fixed table comes to a page without one |
| Paging.TableMeaning | packages/backend/models/common.py:11-16 | what the results assume of a table: no two rows with one id, positive ids and valid times |
| Paging.PagesHoldAsked | packages/backend/crud/student.py:102-118 | a row is on some page of a fixed table exactly when student, assignment and time are those asked for, field by field |
| Paging.StudentPages | packages/backend/routers/v2.py:28-34 | the pages of an assignment id and a student key hold exactly their rows |
| Paging.LogPages | packages/backend/crud/student.py:92-123 | the pages of a log query hold exactly the student's rows within the inclusive range, by the id the homework name carries or else by class division and name |
| Paging.TimeIsStamp | packages/backend/utils/cursor.py:33-38 | times are compared as numbers of days and microseconds are |
| Paging.RowsBelowCursorFall | packages/backend/utils/cursor.py:33-38 | the rows below the next cursor are those below this one without the page, so their number falls |
| Snapshots.DeltasTelescope | packages/backend/crud/student.py:56-70 | a student's size differences add up to the latest sizes of all files |
| Snapshots.LagMeaning | packages/backend/crud/student.py:56-63 | the previous size of a row is that of the latest earlier row of the same student and path, by time and then row id, and missing exactly when there is none |
| Snapshots.LatestMeaning | packages/backend/crud/student.py:79-81 | the latest size of a path is that of its last snapshot by time and then row id |
| Snapshots.LagInBeginning | packages/backend/crud/student.py:56-59 | a previous size depends only on earlier rows of the same file |
| Trends.TrendsMeaning | packages/backend/crud/student.py:48-88 | every bucket is a multiple of the interval; the running total at a bucket is the sum of each file's latest size before the bucket's end, never negative, and the change is the step from the row before |
| Trends.RowInterval | packages/backend/crud/student.py:51-55 | a row stands for an interval that begins at a multiple of the width and holds a snapshot |
| Trends.RowOfSnapshot | packages/backend/crud/student.py:51-55 | every snapshot lies in the interval of one row and of no other |
| Trends.SameRowIff | packages/backend/crud/student.py:51-55 | two snapshots share a row exactly when their times have the same quotient by the width |
| Trends.RowBuckets | packages/backend/crud/student.py:72-88 | there is a row for exactly the buckets that hold a snapshot |
| Trends.FinalTotal | packages/backend/crud/student.py:79-88 | the last total is the present size of all files for every interval |
| Trends.CoarseTotals | packages/backend/crud/student.py:51-55 | each total of a multiple interval is that of the last finer bucket inside |
| Variation.DashboardIsGraphPlusFirst | packages/backend/crud/assignment.py:58-83 | over a covering range the dashboard's total is the graph's sum plus the first size of each file |
| Variation.GraphMeaning | packages/backend/crud/assignment.py:58-83 | the graph counts the changes of exactly those rows within the inclusive range that have an earlier row of the same file within it |
| Variation.ChangeMeaning | packages/backend/crud/dashboard.py:66-78 | the change of a row is how far its size lies from the previous one, or from zero |
| Variation.TotalBounds | packages/backend/crud/dashboard.py:66-91 | the total change is at least the greatest single change and at least the final trend total |
| Variation.MaxOfMeaning | packages/backend/crud/dashboard.py:83 | the maximum is reached and bounds all changes |
| Dashboard.DashboardSummaries | packages/backend/crud/dashboard.py:9-98 | one summary per distinct student with the numbers of builds, of builds with a nonzero exit code and of runs, the size changes, and first and last time over all three tables, none without events, in whatever order the grouped rows come |
| Dashboard.SaysMeaning | packages/backend/crud/dashboard.py:13-98 | the figures of a summary as counts over the events of the student, and its times as the first and last at which any of them happened |
| Dashboard.SummaryDecided | packages/backend/crud/dashboard.py:13-98 | a student has only one such summary |
| Dashboard.MergeBuilds | packages/backend/crud/dashboard.py:38-44 | each student ends with the counts and times of the rows under its key, all others blank |
| Dashboard.MergeRuns | packages/backend/crud/dashboard.py:56-64 | each student gains the run count of its rows, and the earlier first and later last time; nothing else changes |
| Dashboard.MergeSizes | packages/backend/crud/dashboard.py:88-97 | each student gains the size changes of its rows, and the earlier first and later last time; nothing else changes |
| Ties.SameWeights | packages/backend/crud/student.py:56-70 | whatever weighs a row by its previous size and its size, and ignores repeats, adds up to the same for all row ids when snapshots of one file at one time have equal sizes |
| Ties.SameTrends | packages/backend/crud/student.py:48-88 | a student's trends for an interval are the same for all row ids when tied snapshots that are the last of their file in their bucket have equal sizes |
| Ties.SameFigures | packages/backend/crud/dashboard.py:66-91 | the total and the greatest size change are the same for all row ids when ties agree |
| Ties.SameGraphSum | packages/backend/crud/assignment.py:58-83 | so is the graph's sum over every range, present or missing |
| Ties.SwappedTrendsDiffer | packages/backend/crud/student.py:56-59 | two tied rows with different sizes, the last of their file in their bucket, that swap row ids change the trends |
| Ties.SwappedWeights | packages/backend/crud/dashboard.py:66-76 | what swapping two tied rows stored last does to any sum over rows, previous sizes and sizes |
| Ties.SwappedTotalsIff | packages/backend/crud/dashboard.py:66-91 | exactly when such a swap does not show in the dashboard's total |
| Ties.SwappedGraphIff | packages/backend/crud/assignment.py:58-83 | exactly when it does not show in the graph's sum over a range |
| Ties.LoneTie | packages/backend/crud/dashboard.py:66-91 | a tie of different sizes that is all a file has shows in the total and not in the graph |
| Queries.SamePayloadsSameAnswers | packages/backend/crud/dashboard.py:9-98 | tables with the same payloads under the same ids give a student the same trends, all seven figures of the dashboard and the same graph when its ties agree |
| Queries.AnswersMeaning | packages/backend/crud/student.py:48-88 | the same answers are the same trends for every interval, the same summary and the same graph for every range |
| Queries.SnapsMeaning | packages/backend/crud/student.py:65-69 | a stored row is a snapshot of a query exactly when it belongs to the assignment asked for, with the student, path, size and time it carries |
| Queries.ActsMeaning | packages/backend/crud/dashboard.py:27-56 | a stored row is a build or run of a query exactly when it belongs to the assignment asked for, with the student, time and exit code it carries |
| DeliveryOrder.SamePayloads | packages/backend/crud/event.py:33-54 | deliveries of the same events leave the same payloads under the same ids, on either database |
| DeliveryOrder.OrderDoesNotShow | packages/backend/crud/student.py:56-88 | order, grouping and repetition of delivery do not show in trends, any figure of the dashboard or the graph when snapshots of one file at one time have equal sizes |
| DeliveryOrder.TiesShowOrder | packages/backend/crud/student.py:56-59 | when tied snapshots, the last of their file in their bucket, differ in size, two deliveries of the same events that differ in which of the two comes last give different trends |
| DeliveryOrder.OrderHiddenIff | packages/backend/crud/student.py:48-88 | all deliveries of the same events give a student the same trends for an interval exactly when tied snapshots that are the last of their file in their bucket have equal sizes |
| DeliveryOrder.OrderAlwaysHiddenIff | packages/backend/crud/student.py:48-88 | they do for all intervals exactly when snapshots of one file at one time have equal sizes |
| DeliveryOrder.SwappedDeliveries | packages/backend/crud/event.py:33-54 | for any two tied snapshots of different sizes there are two deliveries of the same events whose tables differ only in which of the two comes last |
| DeliveryOrder.TiesInTotalsIff | packages/backend/crud/dashboard.py:66-91 | these two agree in the dashboard's total, or in the graph's sum over a range, exactly when the steps through the two snapshots balance |
| EndToEnd.DeliveredSameAnswers | packages/filemon/app/sender.py:48-124 | two runs of the delivery protocol that accepted the same events and emptied their spools, while other collectors stored the same, give a student whose ties agree the same trends, dashboard and graph |
| Cache.BoundedTTLCache.Get | packages/backend/utils/cache.py:18-29 | an unexpired hit moves to the end, an expired one is dropped |
| Cache.BoundedTTLCache.Set | packages/backend/utils/cache.py:31-39 | purges, stores at the end, keeps the newest max entries; no effect without a positive ttl |
| Cache.BoundedTTLCache.DeletePrefix | packages/backend/utils/cache.py:41-44 | drops exactly the keys with the prefix |
| Cache.BoundedTTLCache.Clear | packages/backend/utils/cache.py:46-48 | empties the cache |
| Cache.BoundedTTLCache.Length | packages/backend/utils/cache.py:50-58 | counts what has not expired and drops the rest |
| Cache.HistoryShaped | packages/backend/utils/cache.py:18-58 | after any calls: at most max entries, one per key, each the one the history says, in order of last use |
| Cache.EvictedOnlyWhenFull | packages/backend/utils/cache.py:31-39 | an unexpired entry is dropped for room only when max entries remain that survived the purge and were all used more recently |
| Cache.HistoryComplete | packages/backend/utils/cache.py:18-58 | whatever the clock readings, a visible entry is present exactly when no call since its set found it expired and the cache was at no time since its last use full of more recently used entries |
| Cache.GetMeansLatest | packages/backend/utils/cache.py:18-29 | exactly what a get returns in terms of the history of calls, even if its clock was read before calls that came ahead of it |
| Cache.GetInTime | packages/backend/utils/cache.py:18-29 | with no reading beyond the get's own, only expiry by that reading and eviction count |
| Cache.SetThenGet | packages/backend/utils/cache.py:31-39 | what is set can be got for exactly its time to live after the clock reading it was stored at |
| Cache.UnderPrefixIff | packages/backend/utils/cache.py:64-89 | exactly when the invalidation prefix of one quadruple begins a key of another, whatever they contain |
| Cache.LogKeyInjective | packages/backend/utils/cache.py:64-85 | log queries of owners without colons share a key only when owner, time range, limit and cursor are all the same |
| Cache.TimeTextMeaning | packages/backend/utils/cache.py:80-81 | the text of a time in a key is its ISO text with a blank for the T |
| Cache.InvalidationReaches | packages/backend/utils/cache.py:64-89 | an invalidation can hit a page that a log query of another owner caches exactly when its prefix begins the other's, or goes on from it as the rest of a written key begins |
| Cache.ColonFreeApart | packages/backend/utils/cache.py:74-85 | without colons that is so only for the same owner |
| Cache.PrefixNamesOwner | packages/backend/utils/cache.py:64-89 | a prefix begins a key exactly when both were built for the same colon-free quadruple |
| Cache.InvalidationIsExact | packages/backend/utils/cache.py:88-89 | invalidation removes all keys of the quadruple, none of an owner it does not overlap with, and keeps the order of the rest |
| Cache.ColonInvalidatesOthers | packages/backend/utils/cache.py:74-85 | two different owners that overlap |
| PathBuffer.GetDentryPath | packages/procmon/app/bpf.c:40-97 | writes only from the returned offset on, where the text it took starts, NUL-terminated, and adds exactly the flags of the walk |
| PathBuffer.ReaderRecovers | packages/procmon/app/pipeline.py:245-248 | slice and strip recover exactly that text |
| PathBuffer.WholePathIff | packages/procmon/app/bpf.c:48-89 | exactly when the reader gets the whole path without a flag: at most 16 names of at most 63 bytes that fit |
| PathTexts.WholeTextIff | packages/procmon/app/pipeline.py:245-248 | the decoded text is the whole path and no flag is raised exactly when there are at most 16 components of at most 63 bytes that fit |
| PathTexts.ReadRaisesIff | packages/procmon/app/pipeline.py:245-248 | decoding raises exactly when a component that was taken has 64 bytes and ends in a character of more than one byte |
| Utf8.DecodeIff | packages/procmon/app/pipeline.py:245-248 | strict decoding accepts exactly the UTF-8 encodings and gives back the text |
| Utf8.EncodedOctets | packages/procmon/app/pipeline.py:245-255 | how many octets a character has, their marking bits, and its own bits in order |
| PathBuffer.ShownIsAlignedSuffix | packages/procmon/app/bpf.c:40-97 | with names of at most 63 bytes the text is a suffix of the true path cut between components |
| PathBuffer.WalkStops | packages/procmon/app/bpf.c:48-89 | how many components are taken, and exactly when each flag is raised |
| PathBuffer.SilentLossIff | packages/procmon/app/bpf.c:57-89 | exactly when part of the path is lost without a flag |
| PathBuffer.TruncationIsSilent | packages/procmon/app/bpf.c:57-64 | a 64-byte name is truncated without a flag |
| PathBuffer.OverflowIsSilent | packages/procmon/app/bpf.c:69-70 | a path that does not fit is cut without a flag |
| PathBuffer.ArgsRoundTrip | packages/procmon/app/bpf.c:244-258 | arguments that fit are read back except empty ones, and the flag is raised exactly when they do not fit |
| PathBuffer.ArgsCut | packages/procmon/app/bpf.c:252-258 | of arguments that do not fit the reader gets the non-empty ones wholly inside and the beginning of the next |
| ProcessParsers.HostnameIff | packages/procmon/app/student_parser.py:15-41 | a host is read from a name exactly when the name is the prefix and its parts with dashes between, each of the pattern's characters, but for a final newline |
| ProcessParsers.PlainPath | packages/procmon/app/path_parser.py:32-44 | a plain path is read by its components: all that lies inside an assignment directory is attributed to it |
| ProcessParsers.AttributedIff | packages/procmon/app/path_parser.py:37-44 | which directories are read as assignments: below a workspace, the home project or its assignments, named by a positive number |
| ProcessParsers.WorkspaceNameIff | packages/procmon/app/utils/patterns.py:13-24 | a workspace is named by subject, class number and student number |
| ProcessParsers.DotsAndSlashes | packages/procmon/app/path_parser.py:32-35 | a component followed by two dots does not count, nor do two dots at the root; two leading slashes name no assignment |
| ProcessParsers.RefusedIff | packages/procmon/app/path_parser.py:27-35 | a path is refused exactly for a line feed, tab or carriage return or when it is not absolute |
| ProcessPipeline.RunPipeline | packages/procmon/app/pipeline.py:45-174 | which processes become events, with the host name's assignment before the path's |
| ProcessPipeline.EventIff | packages/procmon/app/pipeline.py:45-174 | exactly which processes become events: a program inside an assignment directory, or a compiler or interpreter on a file that lies in one or whose host carries an assignment |
| ProcessPipeline.EventMeaning | packages/procmon/app/pipeline.py:130-153 | what the event says: student and class of the host name, the assignment of the host name or else of the directory, and the rest as observed |
| ProcessPipeline.HostNameWins | packages/procmon/app/pipeline.py:134-139 | a process on the host of an assignment is attributed to it wherever its files lie |
| ProcessPipeline.SuffixIff | packages/procmon/app/student_parser.py:33-34 | the assignment of a host is the positive number its last part is, alone or after the letter a |
| ProcessPipeline.ClassifyIff | packages/procmon/app/classifier.py:11-25 | which binaries count as compilers and interpreters, by their whole paths |
| ProcessPipeline.FindCFile | packages/procmon/app/file_parser.py:50-70 | the first argument with a C or C++ ending that is neither an option nor the value of one |
| ProcessPipeline.ArgumentMeaning | packages/procmon/app/file_parser.py:7-9 | which options take the next argument, and which endings a C or C++ source has |
| ProcessPipeline.FindPythonFile | packages/procmon/app/file_parser.py:40-48 | the first argument that ends in .py and is no option |
| ProcessPipeline.JoinMeaning | packages/procmon/app/pipeline.py:210-216 | an absolute file stands for itself, the components of any other follow those of the working directory |
| ProcessPipeline.SendEvent | packages/procmon/app/sender.py:33-42 | an invalid or unknown event leaves the spool alone; any other is spooled and flushed, a new one with a course and room in the batch is posted as serialised, and the answer says whether it still waits |
| ProcessPipeline.SerializedMeaning | packages/procmon/app/sender.py:50-81 | what is sent of an event: its identity and time, and the columns of a run or a build |
| ProcessPipeline.JoinedMeaning | packages/procmon/app/sender.py:67 | the command line is the arguments with single blanks between |
| ProcessPipeline.IdentityAgreement | packages/procmon/app/pipeline.py:76-153 | every event of every process has a positive assignment id and the matching directory, which the backend reads back; the sender validates it and serialises it as a run or build with that identity and a target path |

## Left out

- DecodeEventCursor: stands for the reader on texts an encoder writes; other ISO 8601 spellings and offsets, JSON whitespace and escapes, and stray characters that Python's base64 reader skips give None here.
- FlushOnce: is one uninterrupted call with the outcome of the post as a parameter; interleavings, crashes and late commits are in Delivery.
- OrderDoesNotShow: for the dashboard and the graph it gives agreeing ties as a sufficient condition; the exact one is stated for exchanging two snapshots (TiesInTotalsIff), not for all reorderings at once.
- InvalidationReaches: the texts of cursors are those its own encoder writes; a reader that skips stray characters accepts more.
- InsertEventOnce: the sequence value drawn by a statement that fails for the size constraint on PostgreSQL is one; other causes of failure are not distinguished.
- RegisterEventBatch: the text of a UUID and the time zone of occurred_at are taken as already parsed.
- HostnameIff: digits are ASCII digits here and in all other patterns, where Python's also match other decimal digits.
- GetDentryPath: a name that cannot be read counts as an empty one and a parent that cannot be read as the end of the chain; kernel memory itself is not part of this model.
- ArgsRoundTrip: works on bytes; arguments are decoded as UTF-8 with replacement characters, which never raises.
- ProcessEvent: logging and metrics are left out.
- Trends: rounding of PostgreSQL numeric division and of the final conversion to float.
- HTTP, routing, authentication, SQLAlchemy, the Kubernetes lookup of course ids, settings, metrics, logging, readiness.
- Directory walking, file reading, marker parsing, inotify, and the snapshot files with their joined names.
- BPF maps, tail calls and perf buffers; the exit code handler.
- Percentiles and averages of the assignment summary, which are library numerics.
- Delivery to an empty spool in general: one invalid payload rejects its whole batch, so draining assumes answered posts.
- Coherence of the cache with the database: which pages the batch endpoint leaves behind is stated, across replicas nothing is.
