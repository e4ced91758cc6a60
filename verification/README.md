# A verified model of marchiq's storage package

marchiq keeps each topic partition as an append-only log on one broker: length-prefixed binary records
in size-limited segment files, a sparse in-memory index per segment, recovery by rescanning the files,
deletion of old segments limited by what consumer groups still have to read, and consumer groups with a
fixed assignment and one committed offset per partition. This project models that package in Dafny and
proves what its parts promise each other.

## How it is built

Objects the program updates in place are classes (`SegmentFile`, `Segment`, `Directory`, `PartitionLog`,
`SectionReader`, `Broker`); every method is proved against a state transition or a predicate on plain
values, and the properties are proved about those values, over every run.

| file | content |
|---|---|
| Bytes, Records | big-endian bytes, the frame codec, a section reader |
| FrameRuns, SegmentScan, SparseIndex | runs of frames, the recovery scan, the sparse index and its search |
| LogStates, LogInvariant | a partition as a value, its invariant, append and roll with faults |
| Reopening, CrashRecovery, Layout | reopening, the crash system, the layout of every reachable state |
| ReadSlices, PartitionLogs, PartitionOpening | what a read must return, and the partition objects |
| RetentionPolicy, Retention, RetentionSafety | what a pass dooms and leaves, the pass itself, stale clamps |
| CursorBounds, RetentionWitnesses | when cursors stay at or above the oldest record; runs that reach gaps, losses and cursors below it |
| GroupStates, GroupEnvelope, Groups | joins, commits and assignment, the saved form, the broker's methods |
| EndToEnd, SplitFetch | from an acknowledgement to the reader, and a fetch whose two lock holds are apart |
| Consuming, Cursors | the fetch-and-commit loop, lag, and a cursor past the log end |

**Faults and crashes.** Every file operation of an append or a roll may fail, and a write may stop at any
byte (`Faults`). A crash keeps of each file some prefix that is at least as long as its synced part, and
may drop a file whose directory entry has not been synced. A crash in the middle of an append or a roll is
an append whose operation fails at that point, followed by a crash.

**Retention.** The clamps are read in one step and used in another (`RetentionSafety.Sys.snapshot`), with
any appends, joins, commits, fetches and other deletions in between. Deletions take any set of sealed
segments, and a crash of the whole system leaves of each partition what CrashRecovery says it may leave.

## What the code does that its comments do not say

- A commit below the oldest surviving record is accepted (storage/group.go:142 checks the log end only), so
  the comment at storage/group.go:224-227, that a joined group's cursor is never below it, does not hold:
  `RetentionWitnesses.CursorBelowEarliestIsReached` ends a run there, and `CursorBounds.CursorRunIff` says
  over which runs the cursors do stay in the log. The fetch starts in range in any case.
- Records written at offsets a crash had freed are not delivered to a group that had committed past them:
  `RetentionWitnesses.RewoundCursorIsReached` is such a run;
  the comment at storage/group.go:235-236 says otherwise, storage/DURABILITY.md:46-50 agrees with the code.
  `Cursors.RewoundCursor` follows the code.
- The segments a pass deletes need not be the oldest ones (storage/retention.go:143-145 takes it that they
  are): `RetentionPolicy.PassContiguousIff` says exactly when a pass leaves no gap, and
  `RetentionPolicy.ContiguousIffPrefix` when any deletion does; `RetentionWitnesses.GapIsReached` is a run
  that ends in one. A read inside a gap starts at the next surviving record; `ReadSlices.FirstReadIsAskedIff`
  says when a read starts where it was asked to.
- A segment whose `.log` could be removed and whose `.index` could not is kept and served, but is not "still
  on disk" (storage/retention.go:211): the next open no longer finds it, see `PartitionOpening.Restart`.
- A failed save leaves a new member joined in memory (storage/group.go:115-117), while a failed commit is
  undone; `GroupStates.UnsavedJoinIff` says when it changes nothing.
- A generated member name may equal a name another member chose; `GroupStates.JoinDistinctIff` says when,
  and `GroupStates.JoinedIsServedIff` when that makes a fetch serve other partitions than the join returned.
- A torn tail need not be the start of any frame an encoder writes; `Records.TornStartsAFrameIff` says when
  it is.
- A failed write may leave one index entry too many in memory, for the record that was not published; reads
  of the fenced partition are not affected.

## Model

| member | source | states |
|---|---|---|
| Records.EncodeRecord | storage/record.go:23-39 | the buffer filled in place is the record's frame; exactly the records of at most 1 MiB with their 21 bytes of overhead are encoded |
| Records.FrameLayout | storage/record.go:29-37 | magic 1, then big-endian lengths and timestamp, key and value, each at its place |
| Records.DecodeRecord | storage/record.go:45-86 | reading from the stream decodes the bytes ahead, and moves the reader by exactly the consumed count, also on errors; the uint32 subtractions never wrap |
| Records.DecodeOfFrame | storage/record.go:45-86 | decoding an encoded record followed by any bytes returns the record and consumes its frame |
| Records.DecodedIsFrame | storage/record.go:45-86 | whatever decodes is a frame of 21 bytes to 1 MiB: encoding the result gives back the consumed bytes |
| Records.DecodeOutcomes | storage/record.go:45-79 | which bytes decode to what: nothing is a clean end, bytes that begin with a frame are good, fewer than a header or than a good header announces are torn, a length over the limit is too large and the rest is corrupt, each with the bytes consumed |
| Records.VerdictIsFinal | storage/record.go:41-44 | any verdict but torn stands whatever bytes follow |
| Records.TornIsOpen | storage/record.go:41-44 | torn bytes can always be decided by more of them |
| Records.StrictPrefixIsTorn | storage/record.go:45-70 | every nonempty strict prefix of a frame is an unexpected end, with all its bytes consumed |
| Records.TornNeedNotBeAFramePrefix | storage/record.go:47-53 | the converse fails: some torn input starts no frame |
| Records.TornStartsAFrameIff | storage/record.go:45-79 | a torn input starts some frame exactly when the magic is right and the length bytes received, whole or in part, can still be completed to lengths that fit each other and the limit |
| Bytes.CompletableIff | storage/record.go:54-60 | the first bytes of a fixed-width number start one between two bounds exactly when the interval of their completions meets the bounds |
| Records.FrameInjective | storage/record.go:22-39 | no frame is the start of another record's frame; frames determine everything but the offset |
| SparseIndex.LookupIndex | storage/index.go:35-41 | the binary search returns the last entry at or before the target, or the zero entry |
| SparseIndex.LookupIsClose | storage/index.go:30-41 | for an indexed record, the entry found is at its record's frame start, fewer than an interval of bytes before the target |
| SegmentScan.ScanSegment | storage/partition_log.go:120-146 | of any file, which splits in one way into whole frames and a rest that does not begin with one: the scan fails exactly if the rest is malformed, is torn exactly if the rest is an incomplete frame, is clean exactly if nothing is left, and counts the frames and their bytes |
| SegmentScan.ParseSound | storage/partition_log.go:128-145 | the good part of any file is the frames of the records found, and what follows is not a frame |
| SegmentScan.ReadingIsUnique | storage/partition_log.go:115-146 | any way to cut a byte string into frames and a rest that is not a frame is the one the scan finds, with the same boundary and outcome |
| SegmentScan.TruncateThenRescan | storage/partition_log.go:84-97 | truncating a torn tail at the boundary and scanning again gives the same size, count and index, not torn |
| SegmentScan.ParsePrefix | storage/partition_log.go:115-119 | any prefix of a run of frames scans to the frames it holds whole; it never looks malformed |
| PartitionLogs.Segment.WriteFrame | storage/partition_log.go:182-207 | index entry if due, write, sync, publish, stopping at the first failing operation with what it left behind |
| PartitionLogs.PartitionLog.Roll | storage/partition_log.go:215-245 | the old segment is synced first; the new one is empty at the log end; a failed roll publishes nothing and may leave an unused file |
| PartitionLogs.PartitionLog.Append | storage/partition_log.go:154-210 | keeps the invariant under every failure; the log grows by the record exactly when it is reported, else it is unchanged and, for any failed file operation, fenced |
| PartitionLogs.PartitionLog.NextNameIsFree | storage/partition_log.go:223-224 | in a healthy partition, no segment has the name a roll would create |
| LogInvariant.AppendAnswers | storage/partition_log.go:154-210 | which answer an append gives, for any state, input and failures: appended exactly if the log is healthy, the acks known, the offset and the size within limits and every file operation it needs works; and which refusal otherwise |
| LogInvariant.AppendPlaces | storage/partition_log.go:175-208 | an appended record goes into the active segment exactly if that is empty or has room for it, else into a new segment at the log end, the old one synced |
| LogInvariant.AppendBytes | storage/partition_log.go:191-205 | what a write leaves in the file: as much of the frame as was written, synced only if asked for and all of it works |
| LogInvariant.RollOutcome | storage/partition_log.go:215-245 | a roll works exactly if all its operations do; a failed one leaves the old file synced or not, and an unused file, by how far it got |
| LogInvariant.AppendKeeps | storage/partition_log.go:154-245 | every append, in every failure case, keeps segments made of whole published frames, with at most the start of one more frame behind them, and only when fenced |
| LogInvariant.RollKeeps | storage/partition_log.go:215-245 | a roll, in every failure case, keeps the invariant and publishes nothing |
| PartitionLogs.PartitionLog.Offsets | storage/partition_log.go:250-257 | refused when closed; else the readable range runs from the first surviving base to the log end, and is not inverted |
| PartitionLogs.PartitionLog.ReadFrom | storage/partition_log.go:268-319 | returns the longest run of records from the offset on within both budgets, but at least one; out of range exactly outside the readable range; published bytes never fail to decode, fenced or not |
| PartitionLogs.ReadSegment | storage/partition_log.go:297-316 | one segment read from the nearest index entry adds the segment's records from the wanted one on until the segment or a budget ends |
| ReadSlices.SliceIsUnique | storage/partition_log.go:259-267 | the budgets leave no choice: two correct answers to a read are equal |
| ReadSlices.FromOffsetInRun | storage/partition_log.go:289-298 | in a log without gaps the records from an offset on are those at the positions from it on |
| ReadSlices.FirstReadIsAskedIff | storage/partition_log.go:289-298 | below the log end, the first record read is the one asked for exactly when the offset lies in a surviving segment |
| ReadSlices.SkippedBytes | storage/partition_log.go:299-316 | the bytes decoded between index entry and target are fewer than the interval, and the records skipped, at 21 bytes each, as well |
| ReadSlices.PublishedIndex | storage/partition_log.go:182-190 | index entries ascend in offset and position, each at its record's frame start, and number at most one more than the published bytes divided by the interval |
| PartitionOpening.OpenSegment | storage/partition_log.go:73-113 | a torn tail is cut off and synced in the active segment and refused in a sealed one; the rebuilt counters and index are the scan's |
| PartitionOpening.OpenPartition | storage/partition_log.go:22-48 | of any files, refuses exactly no file, one with malformed bytes after its last whole frame, and one before the last with an incomplete frame there |
| PartitionOpening.OpenedHolds | storage/partition_log.go:22-113 | an opened partition has one segment for every file, with exactly its whole frames, their count, size and index, a torn tail cut off and synced and no other file touched; the log end follows from the last one |
| PartitionOpening.Restart | storage/partition_log.go:22-113 | a running partition always reopens: without the segments whose files were unlinked, in the same state if healthy, else with its published records and at most the one record in doubt |
| Reopening.ReopenIsIdentity | storage/partition_log.go:108-145 | incremental equals rebuilt: reopening a healthy partition gives back the same bases, sizes, counts, indexes, last indexed positions and log end |
| Reopening.ReopensChangeNothing | storage/partition_log.go:175-208 | a run of appends with reopens inserted anywhere ends in the same state as without them |
| Reopening.ReopenFenced | storage/partition_log.go:157-209 | reopening after a failure gives the published log, or that log and the one record whose whole frame is the unpublished tail |
| Reopening.ReopenStray | storage/partition_log.go:224-242 | the file a failed roll leaves behind becomes the empty active segment; no record is lost |
| CrashRecovery.RecoveryAlwaysSucceeds | storage/partition_log.go:22-113 | after any run of appends, rolls, failures, deletions of any sealed segments and crashes the files reopen, no sealed segment is refused, and the log is a prefix of what was written and not deleted, at the same offsets, with every acknowledged record of it |
| CrashRecovery.AcknowledgedSurvives | storage/partition_log.go:196-209 | once an append with acks=1 succeeds, a read at its offset begins with that record in every later state, until a deletion takes the very segment it is in |
| CrashRecovery.PromisesAreKept | storage/DURABILITY.md:10-22 | over any run an acknowledged record is kept, until a deletion takes its segment |
| CrashRecovery.PrefixDeletionsLeaveNoGap | storage/retention.go:140-145 | over any run whose deletions take the oldest segments only, no gap arises |
| CrashRecovery.CrashOfValid | storage/partition_log.go:17-48 | whatever a crash leaves of any valid partition reopens, to a valid one with the same first base |
| CrashRecovery.RestartOfValid | storage/partition_log.go:17-48 | so does a plain restart, of a healthy partition or a fenced one |
| Layout.ReachableLayout | storage/partition_log.go:175-245 | in every reachable state segments lie in order up to the log end, sealed ones not empty, sizes within the limit unless a single record, indexes sound; and the log is one run of offsets if deletions took the oldest segments only |
| Layout.RollTakesANewBase | storage/partition_log.go:223-243 | a roll's new base lies above every base in use |
| Layout.DeletionSurvivesReopen | storage/partition_log.go:45-46 | whichever sealed segments go, even all, the log end is the same after the deletion and after a reopen |
| RetentionPolicy.DoomedExactly | storage/retention.go:161-196 | a sealed segment is doomed exactly if it and all before it end at or below the clamp and it was last written longer ago than RetentionMS, or the byte budget is exceeded as long as it or any before it is there |
| RetentionPolicy.DoomedIsBelowClamp | storage/retention.go:161-196 | only segments in the leading stretch below the clamp are doomed |
| RetentionPolicy.DeletedEndsBelow | storage/retention.go:161-163 | a doomed segment ends at or below the clamp |
| RetentionPolicy.DoomedIsPrefix | storage/retention.go:164-196 | with nondecreasing mtimes the doomed segments are the oldest ones, up to the longer of the two policies' cuts |
| RetentionPolicy.PassKeepsLayout | storage/retention.go:140-229 | then the survivors are the rest, contiguous, with the same active segment, and the start only grows |
| RetentionPolicy.ContiguousIffPrefix | storage/retention.go:203-227 | a deletion leaves no gap exactly when no deleted segment has a kept one before it |
| RetentionPolicy.PassContiguousIff | storage/retention.go:164-227 | a pass under either policy or both, with any failed unlinks, leaves no gap exactly when no segment that goes (expired within the clamp's reach, or within the size cut, and unlinked) follows one that stays |
| RetentionPolicy.UnnoticedIff | storage/retention.go:200-228 | deleting any set of sealed segments leaves what is readable from an offset on unchanged exactly when every deleted segment ends at or below that offset |
| RetentionPolicy.PassIsInvisible | storage/retention.go:164-228 | from the new start on, every offset reads the same records before and after a pass |
| RetentionPolicy.ReadsUnchanged | storage/partition_log.go:280-319 | and so every read there returns the same answer for every budget |
| RetentionPolicy.WithoutKeeps | storage/retention.go:203-227 | deleting any sealed segments keeps the partition valid |
| RetentionPolicy.BudgetIsMet | storage/retention.go:184-196 | after a pass without unlink errors the rest fits the byte budget, or no sealed segment below the clamp is left, whatever the mtimes |
| RetentionPolicy.BudgetIsTight | storage/retention.go:184-195 | under the size policy alone, the total with the last deleted segment would have been over budget |
| Retention.DoomByAge | storage/retention.go:166-183 | the loop over sealed segments marks exactly the expired ones within the clamp's reach |
| Retention.DoomBySize | storage/retention.go:184-196 | the loop marks the oldest segments until the rest fits or the clamp is reached |
| Retention.Unlink | storage/retention.go:200-227 | a doomed segment whose `.log` is removed leaves the directory; it leaves memory as well exactly when its `.index` is removed too, and is counted as deleted or as an error |
| Retention.EnforceRetention | storage/retention.go:152-229 | the whole pass over one partition: nothing when closed or fenced, else exactly the doomed segments with both files removed are gone, those with only the `.log` removed are served but unlinked, deleted and failed ones are counted and the partition stays valid |
| Groups.Broker.RetentionClamps | storage/retention.go:116-138 | the bound of every partition is the smallest next offset of any joined group; clamped exactly when some group has joined |
| RetentionSafety.DeleteRespectsSnapshot | storage/retention.go:93-108 | a deletion takes no record at or above any group's next offset at the snapshot, whatever happened since |
| RetentionSafety.NoGroupLosesRecords | storage/retention.go:73-108 | with no join and no commit moving backwards since the snapshot, no group joined at the deletion loses a record at or above its next offset |
| RetentionSafety.DeletionSafeIff | storage/retention.go:140-163 | a deletion costs a group nothing exactly when every deleted segment ends at or below the group's next offset |
| RetentionSafety.CanLoseIff | storage/retention.go:152-196 | under the clamps held, some pass can take records from a group in a partition exactly when a sealed segment within the clamp's reach ends past the group's next offset |
| RetentionSafety.RewindInWindowLoses | storage/group.go:128-165 | in any topic, a commit moving back before the end of such a segment makes a pass possible that loses records to the group |
| RetentionSafety.JoinInWindowLoses | storage/retention.go:96-100 | so does any group's join between snapshot and deletion |
| RetentionWitnesses.RewindLossIsReached | storage/retention.go:96-100 | a run from a new topic ends in such a loss after a rewind |
| RetentionWitnesses.JoinLossIsReached | storage/retention.go:96-100 | a run from a new topic ends in such a loss after a join |
| RetentionWitnesses.GapIsReached | storage/retention.go:168-182 | a run from a new topic ends in a pass that leaves a gap in a log that had none |
| RetentionWitnesses.RewoundCursorIsReached | storage/group.go:230-238 | a run from a new topic: an unsynced record is committed and lost in a crash, another takes its offset, and no fetch of the group delivers it |
| EndToEnd.AcknowledgedIsReadable | storage/retention.go:110-115 | over any run of a topic, crashes and restarts included, a record acknowledged with acks=1 is read at its offset as long as, at every deletion of its partition, some joined group has yet to read it and no join, rewind or restart came since the clamps were read |
| EndToEnd.DeletionSpares | storage/retention.go:140-163 | a deletion under such clamps takes no segment that holds an offset at or above the next one of a joined group |
| SplitFetch.SplitFetchIff | storage/group.go:214-243 | with any steps between a fetch's look at the range and its read, the read is in range exactly when no deletion in between moves the start past the offset chosen |
| SplitFetch.HarmlessWindowsKeepRange | storage/group.go:223-243 | in a partition without gaps, deletions under clamps still good for a group that has not got past that offset leave it in range |
| RetentionWitnesses.CursorBelowEarliestIsReached | storage/group.go:141-144 | a run from a new topic ends in an accepted commit that takes a joined group's cursor below the oldest record, where none was before |
| CursorBounds.CommitBelowEarliest | storage/group.go:141-144 | every commit in range and more than one below the oldest record is accepted and leaves the cursor there |
| CursorBounds.CursorStepIff | storage/group.go:223-228 | where no joined group's cursor is below the oldest record, a step keeps it so exactly when an accepted commit is not below it, a new group finds every partition starting at 0, and, for a deletion, the first segment that stays (by clamp, policy, mtimes and failed unlinks) does not start past a cursor; all other steps, crashes and restarts included, always do |
| CursorBounds.StartAfterIs | storage/retention.go:200-227 | after a deletion the log starts at the first segment that does not go |
| CursorBounds.CursorRunIff | storage/group.go:223-228 | over any run, cursors stay at or above the oldest records throughout exactly when every step meets that condition |
| CursorBounds.HarmlessDeletionIsSafe | storage/retention.go:140-151 | in partitions without gaps a deletion meets it when no join and no rewind came since its snapshot |
| Groups.Broker.JoinGroup | storage/group.go:71-126 | joined exactly if the name, the size, the broker and the topic are good, the binding is new or of this size, the member is there already or there is room, and the save works; which refusal holds otherwise; the binding then has the member in its old place or at the end, no other binding changes, and the answer is the share of that place; the file is the saved form exactly on success |
| GroupStates.RunExtends | storage/group.go:97-117 | over every run of joins, commits and restarts no binding outgrows its size or gains an unnamed member, cursors are not negative, members stay distinct if they all name themselves, and sizes and ordinals never change: those saved for ever, those in memory until a restart |
| GroupStates.JoinDistinctIff | storage/group.go:107-113 | a join keeps members distinct exactly when the name it adds, chosen or generated, is not there yet |
| GroupStates.GeneratedNamesCanCollide | storage/group.go:111-113 | a generated name that another member has chosen before |
| GroupStates.JoinedIsServedIff | storage/group.go:118-126 | the partitions a join returns are those a fetch naming the member is served, exactly when the name is not shared with an earlier member or that member has no partitions |
| GroupStates.AssignmentIsForever | storage/group.go:67-126 | the partitions returned to a member that names itself are the ones it is served after any later joins, commits and restarts |
| GroupStates.RejoinIsIdempotent | storage/group.go:67-69 | joining again under the same name returns the same partitions and changes no group, after any joins, commits and restarts |
| GroupStates.DecimalReadsBack | storage/group.go:111-113 | the number in a generated name is written in decimal without leading zeros |
| GroupStates.ServedAsIff | storage/group.go:185-205 | a fetch serves the sole member unnamed, or the first member of the name given; which refusal holds otherwise |
| GroupStates.UnsavedJoinIff | storage/group.go:107-117 | a join whose save fails leaves the groups as they were exactly when it is refused for another reason or the member was there already |
| GroupStates.FullGroupCovers | storage/group.go:185-214 | in a full group with distinct members, as runs keep them, every partition is served to exactly one of them |
| Groups.Broker.CommitOffset | storage/group.go:132-165 | committed exactly if broker and partition are open, the group has joined, the offset is in [0, latest) and the save works; which refusal holds otherwise; an accepted commit leaves that one cursor at the next offset and everything else, like every refusal, unchanged |
| GroupEnvelope.SaveGroups | storage/group.go:408-420 | the envelope lists groups and topics sorted by name, each with its size, members and offsets |
| GroupEnvelope.BeforeIff | storage/group.go:417-420 | the order is that of a dictionary: by the first character in which names differ, shorter first |
| GroupEnvelope.EnvelopeUnique | storage/group.go:417-420 | the envelope does not depend on the order in which the maps are walked |
| GroupEnvelope.LoadGroups | storage/group.go:376-403 | loads exactly an envelope of the right version whose group names are valid and distinct and whose sizes are all at least 1 |
| GroupEnvelope.LoadedHolds | storage/group.go:383-401 | what is loaded has exactly the groups and topics listed, each with its size, members and offsets, the last entry counting |
| GroupEnvelope.RefusalSaysWhy | storage/group.go:384-395 | loading stops at the first entry that may not be loaded, and the error is that entry's |
| GroupEnvelope.SaveThenLoad | storage/group.go:368-420 | what joins and commits reach loads back from its envelope unchanged, never refused |
| Groups.ChooseStart | storage/group.go:215-238 | the start is in the readable range, and reading from it gives exactly the surviving records at or above the cursor |
| Groups.StartSkipsNothing | storage/group.go:219-238 | clamping the start skips no surviving record at or above the cursor |
| Groups.FetchPartition | storage/group.go:214-249 | with nothing between its two lock holds the read is never out of range; the answer is the slice from the start and the offset after it |
| Groups.Broker.FetchGroup | storage/group.go:170-252 | every refusal, and otherwise one such answer for exactly the partitions of the served ordinal, in order |
| Groups.PartitionLags | storage/group.go:316-328 | every partition's committed offset if any, the next fetch after it or at 0, the log end and their difference |
| Consuming.FetchTakes | storage/group.go:219-249 | a fetch takes its records off the front of the surviving ones at or above the cursor; an empty fetch means there are none; the next offset follows the last record and is in range for a commit |
| Consuming.Drain | cmd/demo/main.go:194-211 | fetching and committing until nothing comes terminates, prints of each of the member's partitions exactly the surviving records at or above its cursor, once and in order, and moves no other cursor |
| Cursors.WantedIsEveryOffset | storage/group.go:211-252 | in a log without gaps that is every offset from the clamped start to the log end |
| Cursors.LagIsDeliveredIff | storage/group.go:316-328 | the lag is the number of records a drain delivers exactly when the cursor lies in the readable range, and negative exactly when it is past the end |
| Cursors.RewoundCursor | storage/group.go:219-251 | after a crash took the log end below the cursor, over any run of appends and fetches: empty fetches until the end is past the cursor, then exactly the next uncommitted offset; negative lag exactly while the end is below the cursor |

## Left out

- The on-disk `.index` file and its rewriting: a derived cache that is never read back; index facts are about the index in memory.
- `CreateTopic`, the topic catalog, `Close`, timers, the kick channel, statistics, HTTP and the choice of a partition for a key: plumbing or easy.
- The JSON text of the groups file, its tmp-sync-rename protocol (a save works as a whole or not at all) and operating-system calls.
- I/O errors while opening, and a crash between the truncation of a torn tail and its sync: truncate and sync are one step.
- Two processes on one directory, bit rot, and unlinks that reach the device out of order or not at all: a deletion is durable when it returns.
- Clocks: append times, file times and the time of a pass are inputs; the product in the age cutoff (storage/retention.go:167) is assumed to fit.
- Integer widths outside the codec and the offset limit of an append: sizes and counts are unbounded.
- Segment names: a directory entry carries its base offset as a number, in ascending order.
- The broker's loop over topics in a retention pass: its steps, clamps and then one pass a partition, are separate.
- Retention.EnforceRetention: errors of stat, close and the directory sync.
- RetentionSafety.NoGroupLosesRecords: a segment whose `.log` alone was removed counts as kept in the step systems, and its loss at the next open is not a step of theirs; the partition objects have it.
- Groups.FetchPartition: the broker's fetch is one step; what may happen between its two lock holds is the subject of SplitFetch.
- Groups.Broker.JoinGroup: a group's bindings are values in the broker's map, not objects of their own; the methods of the broker are atomic steps, and partitions are open.
- Groups.PartitionLags: one binding's report; enumerating and sorting all bindings is left out.
- Consuming.Drain: saves succeed, since the client stops at the first failed commit, and nobody else uses the broker meanwhile; the no-commit flag and the wait for more records are left out.
