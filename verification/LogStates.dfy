/** The state of a partition log as a value, and what its operations do to that state. */
module LogStates {
  import opened Bytes
  import opened Records
  import opened FrameRuns
  import opened SparseIndex
  import opened SegmentScan

  // ----- state -----

  /** A file's bytes and how many of them are known to be on the device. */
  datatype FileState = FileState(data: seq<byte>, synced: nat)

  datatype SegState = SegState(base: int, file: FileState, sizeBytes: int, records: int,
                               index: seq<IndexEntry>, lastIndexedPos: int)

  datatype Limits = Limits(maxSegmentBytes: int, indexIntervalBytes: int)

  /** The sealed segments, oldest first, and the active one. `stray` marks an empty segment file left
      behind by a roll that failed after creating it. */
  datatype LogState = LogState(sealed: seq<SegState>, active: SegState, nextOffset: int, failed: bool, stray: bool,
                               limits: Limits)

  function Segs(s: LogState): seq<SegState> {
    s.sealed + [s.active]
  }

  function EndOf(sg: SegState): int {
    sg.base + sg.records
  }

  // ----- what a segment and a log hold -----

  function PublishedBytes(sg: SegState): seq<byte> {
    if 0 <= sg.sizeBytes <= |sg.file.data| then sg.file.data[..sg.sizeBytes] else []
  }

  function Tail(sg: SegState): seq<byte> {
    if 0 <= sg.sizeBytes <= |sg.file.data| then sg.file.data[sg.sizeBytes..] else []
  }

  function Content(sg: SegState): seq<Record> {
    Parse(PublishedBytes(sg), sg.base).records
  }

  /** All published records, oldest first. */
  function LogOf(segs: seq<SegState>): seq<Record> {
    if segs == [] then [] else LogOf(segs[..|segs| - 1]) + Content(segs[|segs| - 1])
  }

  function Log(s: LogState): seq<Record> {
    LogOf(s.sealed) + Content(s.active)
  }

  /** The published part of the segment is exactly the frames of recs, and its counters and index
      are the ones a scan of those bytes would give. A fenced segment may have indexed the record
      whose write then failed. */
  ghost predicate SegHolds(sg: SegState, recs: seq<Record>, interval: int, fenced: bool) {
    && 0 <= sg.sizeBytes <= |sg.file.data| && sg.file.synced <= |sg.file.data|
    && PublishedBytes(sg) == Frames(recs)
    && Run(recs, sg.base) && sg.records == |recs|
    && (|| sg.index == IndexFor(recs, interval)
        || (fenced && sg.index == IndexUpTo(FrameStarts(recs), |recs| + 1, interval)))
    && sg.lastIndexedPos == LastPos(sg.index)
  }

  ghost predicate SegOk(sg: SegState, interval: int, fenced: bool) {
    SegHolds(sg, Content(sg), interval, fenced)
  }

  lemma ContentIs(sg: SegState, recs: seq<Record>, interval: int, fenced: bool)
    requires SegHolds(sg, recs, interval, fenced)
    ensures Content(sg) == recs && SegOk(sg, interval, fenced)
  {
    ParseWholeFrames(recs, sg.base);
  }

  // ----- invariant -----

  ghost predicate Limited(sg: SegState, maxSegmentBytes: int) {
    sg.records <= 1 || sg.sizeBytes <= maxSegmentBytes
  }

  /** A sealed segment is never empty, and every byte of its file is published and on the device. */
  ghost predicate Sealed(sg: SegState, limits: Limits) {
    && SegOk(sg, limits.indexIntervalBytes, false)
    && sg.records > 0 && |sg.file.data| == sg.sizeBytes && sg.file.synced == |sg.file.data|
    && Limited(sg, limits.maxSegmentBytes)
  }

  ghost predicate AllSealed(segs: seq<SegState>, limits: Limits) {
    forall i | 0 <= i < |segs| :: Sealed(segs[i], limits)
  }

  ghost predicate Ordered(segs: seq<SegState>) {
    forall i, j | 0 <= i < j < |segs| :: EndOf(segs[i]) <= segs[j].base
  }

  ghost predicate Contiguous(segs: seq<SegState>) {
    forall i | 0 < i < |segs| :: segs[i].base == EndOf(segs[i - 1])
  }

  ghost predicate FrameStart(bytes: seq<byte>) {
    exists r :: Encodable(r) && bytes <= Frame(r)
  }

  /** Bytes past the published end exist only when fenced, and are then the start of one frame. */
  ghost predicate ActiveOk(sg: SegState, limits: Limits, failed: bool) {
    && SegOk(sg, limits.indexIntervalBytes, failed)
    && Limited(sg, limits.maxSegmentBytes)
    && (failed || Tail(sg) == [])
    && FrameStart(Tail(sg))
    && TailFits(sg, limits.maxSegmentBytes)
  }

  /** An unpublished frame would not have broken the segment size limit either. */
  ghost predicate TailFits(sg: SegState, maxSegmentBytes: int) {
    Tail(sg) == [] || sg.records == 0 || |sg.file.data| <= maxSegmentBytes
  }

  ghost predicate Inv(s: LogState) {
    && s.limits.indexIntervalBytes > 0
    && AllSealed(s.sealed, s.limits)
    && Ordered(Segs(s))
    && ActiveOk(s.active, s.limits, s.failed)
    && s.nextOffset == EndOf(s.active)
    && (s.stray ==> s.failed && Sealed(s.active, s.limits))
  }

  // ----- reopening -----

  datatype Option<T> = None | Some(value: T)

  /** A segment file as the partition directory lists it. Until its directory entry is on the device,
      a crash may lose the whole file. */
  datatype DiskFile = DiskFile(base: int, file: FileState, entrySynced: bool)

  /** Scans one segment; a torn tail is cut off in the active segment and refused in any other. */
  function OpenSegmentSpec(df: DiskFile, isActive: bool, interval: int): Option<SegState> {
    match ScanOf(df.file.data, df.base, interval)
    case ScanFailed => None
    case Scanned(sizeBytes, records, index, torn) =>
      if torn && !isActive then None
      else
        TruncateThenRescan(df.file.data, df.base, interval);
        var file := if torn then FileState(df.file.data[..sizeBytes], sizeBytes) else df.file;
        Some(SegState(df.base, file, sizeBytes, records, index, LastPos(index)))
  }

  function OpenSealedSpec(disk: seq<DiskFile>, interval: int): (res: Option<seq<SegState>>)
    ensures res.Some? ==> |res.value| == |disk|
  {
    if disk == [] then Some([])
    else
      var front := OpenSealedSpec(disk[..|disk| - 1], interval);
      var last := OpenSegmentSpec(disk[|disk| - 1], false, interval);
      if front.Some? && last.Some? then Some(front.value + [last.value]) else None
  }

  function OpenSpec(disk: seq<DiskFile>, limits: Limits): Option<LogState> {
    if disk == [] then None
    else
      var sealed := OpenSealedSpec(disk[..|disk| - 1], limits.indexIntervalBytes);
      var active := OpenSegmentSpec(disk[|disk| - 1], true, limits.indexIntervalBytes);
      if sealed.Some? && active.Some?
      then Some(LogState(sealed.value, active.value, EndOf(active.value), false, false, limits))
      else None
  }

  function FilesOf(segs: seq<SegState>): seq<DiskFile> {
    seq(|segs|, i requires 0 <= i < |segs| => DiskFile(segs[i].base, segs[i].file, true))
  }

  /** The partition directory of a running log. */
  function DiskOf(s: LogState): seq<DiskFile> {
    FilesOf(Segs(s)) + if s.stray then [DiskFile(s.nextOffset, FileState([], 0), false)] else []
  }

  // ----- operations -----

  const ACKS_NONE := 0
  const ACKS_LEADER := 1

  datatype AppendResult =
    | Appended(record: Record)
    | Closed
    | Fenced
    | UnknownAcks
    | OffsetOverflow
    | TooLargeToAppend
    | Uncertain

  /** Which of the file operations of one append succeed, and how many bytes its write gets out. */
  datatype Faults = Faults(sealSync: bool, sealIndexSync: bool, create: bool, createIndex: bool, newSync: bool,
                           dirSync: bool, indexWrite: bool, wrote: nat, writeOk: bool, sync: bool, indexSync: bool)

  function Synced(sg: SegState): SegState {
    sg.(file := sg.file.(synced := |sg.file.data|))
  }

  function EmptySegment(base: int): SegState {
    SegState(base, FileState([], 0), 0, 0, [], 0)
  }

  /** Seals the active segment and opens a fresh one at the log end. */
  function RollSpec(s: LogState, f: Faults): (LogState, bool) {
    if !f.sealSync then (s, false)
    else
      var synced := s.(active := Synced(s.active));
      if !f.sealIndexSync || !f.create then (synced, false)
      else if !f.createIndex || !f.newSync || !f.dirSync then (synced.(stray := true), false)
      else (synced.(sealed := Segs(synced), active := EmptySegment(s.nextOffset)), true)
  }

  predicate DueForIndex(sg: SegState, interval: int) {
    sg.records == 0 || sg.sizeBytes - sg.lastIndexedPos >= interval
  }

  function Indexed(sg: SegState, interval: int): SegState {
    if DueForIndex(sg, interval)
    then sg.(index := sg.index + [IndexEntry(sg.records, sg.sizeBytes)], lastIndexedPos := sg.sizeBytes)
    else sg
  }

  /** The segment with its next record indexed if due, and bytes of that record's frame in its file. */
  function Written(sg: SegState, interval: int, bytes: seq<byte>, sync: bool): SegState {
    var t := Indexed(sg, interval);
    var w := t.(file := t.file.(data := t.file.data + bytes));
    if sync then Synced(w) else w
  }

  function Published(sg: SegState, frameLen: nat): SegState {
    sg.(sizeBytes := sg.sizeBytes + frameLen, records := sg.records + 1)
  }

  /** Index entry, write, sync, publish, as far as the file operations succeed. */
  function WriteSpec(sg: SegState, frame: seq<byte>, interval: int, acks: int, f: Faults): (SegState, bool) {
    var n := if f.wrote < |frame| then f.wrote else |frame|;
    if DueForIndex(sg, interval) && !f.indexWrite then (sg, false)
    else if !f.writeOk || n != |frame| || (acks == ACKS_LEADER && !f.sync) then
      (Written(sg, interval, frame[..n], false), false)
    else
      var written := Written(sg, interval, frame, acks == ACKS_LEADER);
      if acks == ACKS_LEADER && !f.indexSync then (written, false)
      else (Published(written, |frame|), true)
  }

  /** Writes one record; any failure fences the log. */
  function PublishSpec(s: LogState, r: Record, acks: int, f: Faults): (LogState, AppendResult) {
    var (sg, ok) := WriteSpec(s.active, Frame(r), s.limits.indexIntervalBytes, acks, f);
    if ok then (s.(active := sg, nextOffset := s.nextOffset + 1), Appended(r))
    else (s.(active := sg, failed := true), Uncertain)
  }

  predicate NeedsRoll(s: LogState, r: Record) {
    s.active.records > 0 && s.active.sizeBytes + |Frame(r)| > s.limits.maxSegmentBytes
  }

  function NewRecord(s: LogState, key: seq<byte>, value: seq<byte>, now: Int64): Record {
    Record(s.nextOffset, now, key, value)
  }

  function AppendSpec(s: LogState, key: seq<byte>, value: seq<byte>, acks: int, now: Int64, f: Faults)
    : (LogState, AppendResult)
  {
    var r := NewRecord(s, key, value, now);
    if s.failed then (s, Fenced)
    else if acks != ACKS_NONE && acks != ACKS_LEADER then (s, UnknownAcks)
    else if s.nextOffset == MAX_INT64 then (s, OffsetOverflow)
    else if !Encodable(r) then (s, TooLargeToAppend)
    else if NeedsRoll(s, r) then
      var (rolled, ok) := RollSpec(s, f);
      if !ok then (rolled.(failed := true), Uncertain) else PublishSpec(rolled, r, acks, f)
    else PublishSpec(s, r, acks, f)
  }
}
