/** The partition log: an object over its segment files, proved against the state transitions of
    LogStates. */
module PartitionLogs {
  import opened Bytes
  import opened Records
  import opened FrameRuns
  import opened SparseIndex
  import opened SegmentScan
  import opened LogStates
  import opened LogInvariant
  import opened ReadSlices

  /** An append-only file: what the page cache holds and how much of it is on the device. */
  class SegmentFile {
    var data: seq<byte>
    var synced: nat
    var mtime: int

    constructor (now: int)
      ensures data == [] && synced == 0 && mtime == now
    {
      data, synced, mtime := [], 0, now;
    }

    ghost function State(): FileState
      reads this
    {
      FileState(data, synced)
    }

    /** Writes at most `limit` of the bytes and says how many. */
    method Write(bytes: seq<byte>, limit: nat, now: int) returns (n: nat)
      modifies this
      ensures n == if limit < |bytes| then limit else |bytes|
      ensures data == old(data) + bytes[..n] && synced == old(synced)
      ensures mtime == if n > 0 then now else old(mtime)
    {
      n := if limit < |bytes| then limit else |bytes|;
      data := data + bytes[..n];
      if n > 0 {
        mtime := now;
      }
    }

    method Sync(works: bool)
      modifies this`synced
      ensures synced == if works then |data| else old(synced)
    {
      if works {
        synced := |data|;
      }
    }

    /** Truncates and syncs. */
    method CutTo(size: nat, now: int)
      requires size <= |data|
      modifies this
      ensures data == old(data)[..size] && synced == size && mtime == now
    {
      data := data[..size];
      synced := size;
      mtime := now;
    }
  }

  class Segment {
    const baseOffset: int
    const file: SegmentFile
    var sizeBytes: int
    var records: int
    var index: seq<IndexEntry>
    var lastIndexedPos: int

    constructor (baseOffset: int, file: SegmentFile, sizeBytes: int, records: int, index: seq<IndexEntry>)
      ensures this.baseOffset == baseOffset && this.file == file
      ensures this.sizeBytes == sizeBytes && this.records == records && this.index == index
      ensures lastIndexedPos == LastPos(index)
    {
      this.baseOffset, this.file := baseOffset, file;
      this.sizeBytes, this.records, this.index := sizeBytes, records, index;
      lastIndexedPos := if |index| > 0 then index[|index| - 1].position else 0;
    }

    ghost function State(): SegState
      reads this, file
    {
      SegState(baseOffset, file.State(), sizeBytes, records, index, lastIndexedPos)
    }

    /** Indexes the next record if due, writes its frame, syncs if asked to, and publishes it. */
    method WriteFrame(frame: seq<byte>, interval: int, acks: int, f: Faults, now: int) returns (ok: bool)
      modifies this, file
      ensures (State(), ok) == WriteSpec(old(State()), frame, interval, acks, f)
    {
      if records == 0 || sizeBytes - lastIndexedPos >= interval {
        var entry := IndexEntry(records, sizeBytes);
        if !f.indexWrite {
          return false;
        }
        index := index + [entry];
        lastIndexedPos := sizeBytes;
      }
      var n := file.Write(frame, f.wrote, now);
      if !f.writeOk || n != |frame| {
        return false;
      }
      assert frame[..n] == frame;
      if acks == ACKS_LEADER {
        file.Sync(f.sync);
        if !f.sync || !f.indexSync {
          return false;
        }
      }
      sizeBytes := sizeBytes + |frame|;
      records := records + 1;
      return true;
    }
  }

  datatype DirEntry = DirEntry(base: int, file: SegmentFile)

  /** The partition directory: its segment files in name order. Names are base offsets written with a
      fixed width, so this is also the order of the bases. */
  class Directory {
    var files: seq<DirEntry>

    constructor ()
      ensures files == []
    {
      files := [];
    }

    predicate Has(base: int)
      reads this
    {
      exists i | 0 <= i < |files| :: files[i].base == base
    }
  }

  function KeepEntries(files: seq<DirEntry>, gone: set<int>): seq<DirEntry> {
    if files == [] then []
    else
      var front, last := KeepEntries(files[..|files| - 1], gone), files[|files| - 1];
      if last.base in gone then front else front + [last]
  }

  function EntriesOf(segs: seq<Segment>): seq<DirEntry> {
    seq(|segs|, i requires 0 <= i < |segs| => DirEntry(segs[i].baseOffset, segs[i].file))
  }

  ghost function FilesIn(segs: seq<Segment>): set<SegmentFile> {
    set s | s in segs :: s.file
  }

  ghost function StatesOf(segs: seq<Segment>): seq<SegState>
    reads segs, FilesIn(segs)
    ensures |StatesOf(segs)| == |segs|
    decreases |segs|
  {
    if segs == [] then [] else
      var front := segs[..|segs| - 1];
      assert forall s | s in front :: s in segs;
      StatesOf(front) + [segs[|segs| - 1].State()]
  }

  class PartitionLog {
    const dir: Directory
    const limits: Limits
    var segments: seq<Segment>
    var nextOffset: int
    var failed: bool
    var closed: bool
    ghost var strayFile: SegmentFile?  // created by a roll that failed before it was published
    ghost var unlinked: set<int>  // bases of deleted files, whose segments may still be served

    ghost function Front(): seq<Segment>
      requires segments != []
      reads this
    {
      segments[..|segments| - 1]
    }

    function Active(): Segment
      requires segments != []
      reads this
    {
      segments[|segments| - 1]
    }

    /** The directory lists the files of these segments, and then the stray file. */
    ghost predicate Listed()
      reads this, dir, strayFile
    {
      && dir.files == KeepEntries(EntriesOf(segments), unlinked)
         + (if strayFile != null then [DirEntry(nextOffset, strayFile)] else [])
      && (strayFile != null ==> strayFile.data == [] && strayFile.synced == 0)
      && (strayFile != null ==> forall i | 0 <= i < |segments| :: segments[i].file != strayFile)
    }

    /** Only sealed segments are ever unlinked, and no name is used again. */
    ghost predicate UnlinkedIsOlder()
      requires segments != []
      reads this
    {
      forall b | b in unlinked :: b < Active().baseOffset && b < nextOffset
    }

    ghost function State(): LogState
      requires segments != []
      reads this, segments, FilesIn(segments)
    {
      LogState(StatesOf(Front()), Active().State(), nextOffset, failed, strayFile != null, limits)
    }

    ghost predicate Structured()
      reads this, dir, strayFile
    {
      segments != [] && AllApart(segments) && Listed() && UnlinkedIsOlder()
    }

    ghost predicate Valid()
      reads this, dir, strayFile, segments, FilesIn(segments)
    {
      Structured() && Inv(State())
    }

    constructor (dir: Directory, limits: Limits, segments: seq<Segment>, nextOffset: int)
      ensures this.dir == dir && this.limits == limits && this.segments == segments && this.nextOffset == nextOffset
      ensures !failed && !closed && strayFile == null && unlinked == {}
    {
      this.dir, this.limits, this.segments, this.nextOffset := dir, limits, segments, nextOffset;
      failed, closed, strayFile, unlinked := false, false, null, {};
    }

    /** The active segment shares nothing with the sealed ones. */
    lemma ActiveApart()
      requires segments != [] && AllApart(segments)
      ensures segments == Front() + [Active()]
      ensures Active() !in Front() && Active().file !in FilesIn(Front())
    {
    }

    /** Seals the active segment and opens a fresh one whose base is the log end. */
    method Roll(f: Faults, now: int) returns (ok: bool)
      requires Structured() && strayFile == null && !dir.Has(nextOffset)
      modifies this`segments, this`strayFile, dir, Active().file`synced
      ensures Structured()
      ensures (State(), ok) == RollSpec(old(State()), f)
      ensures if ok then fresh(Active()) && fresh(Active().file) && strayFile == null else segments == old(segments)
    {
      ActiveApart();
      Active().file.Sync(f.sealSync);
      StatesKept(Front());
      if !f.sealSync || !f.sealIndexSync || !f.create {
        return false;
      }
      ok := OpenNext(f.createIndex && f.newSync && f.dirSync, now);
    }

    /** Creates the segment file at the log end; unless all of its creation works, the file stays
        behind unused. */
    method OpenNext(works: bool, now: int) returns (ok: bool)
      requires Structured() && strayFile == null
      modifies this`segments, this`strayFile, dir
      ensures Structured() && ok == (works && !old(dir.Has(nextOffset)))
      ensures !old(dir.Has(nextOffset)) ==>
                State() == if works then old(State().(sealed := Segs(State()), active := EmptySegment(nextOffset)))
                           else old(State().(stray := true))
      ensures if ok then fresh(Active()) && fresh(Active().file) && strayFile == null else segments == old(segments)
    {
      if dir.Has(nextOffset) {
        return false;
      }
      if works {
        AddSegment(now);
      } else {
        LeaveStray(now);
      }
      ok := works;
    }

    method LeaveStray(now: int)
      requires Structured() && strayFile == null
      modifies this`strayFile, dir
      ensures Structured() && State() == old(State()).(stray := true)
    {
      hide Listed, AllApart;
      StructureParts();
      var file := new SegmentFile(now);
      dir.files := dir.files + [DirEntry(nextOffset, file)];
      strayFile := file;
      StatesKept(Front());
      StrayListed(this);
    }

    method AddSegment(now: int)
      requires Structured() && strayFile == null
      modifies this`segments, dir
      ensures Structured() && fresh(Active()) && fresh(Active().file)
      ensures State() == old(State().(sealed := Segs(State()), active := EmptySegment(nextOffset)))
    {
      hide Listed, AllApart, KeepEntries, UnlinkedIsOlder, EntriesOf;
      ghost var before, segs := segments, Segs(State());
      StructureParts();
      assert StatesOf(before) == segs;
      var file := new SegmentFile(now);
      dir.files := dir.files + [DirEntry(nextOffset, file)];
      var seg := new Segment(nextOffset, file, 0, 0, []);
      segments := segments + [seg];
      StatesKept(before);
      SegmentAdded(this, before, seg, segs);
    }

    lemma StructureParts()
      requires Structured() && strayFile == null
      ensures dir.files == KeepEntries(EntriesOf(segments), unlinked) && AllApart(segments) && UnlinkedIsOlder()
      ensures forall b | b in unlinked :: b < nextOffset
    {
    }

    /** Publishes a record in the active segment; a failure fences the partition. */
    method Publish(r: Record, frame: seq<byte>, acks: int, f: Faults, now: int) returns (res: AppendResult)
      requires Structured() && strayFile == null && frame == Frame(r)
      modifies this`failed, this`nextOffset, Active(), Active().file
      ensures Structured() && segments == old(segments) && strayFile == null
      ensures (State(), res) == PublishSpec(old(State()), r, acks, f)
    {
      hide Frame, WriteSpec;
      ActiveApart();
      var ok := Active().WriteFrame(frame, limits.indexIntervalBytes, acks, f, now);
      assert StatesOf(Front()) == old(StatesOf(Front()));
      if !ok {
        Fence();
        return Uncertain;
      }
      nextOffset := nextOffset + 1;
      return Appended(r);
    }

    /** The directory has no file at the log end yet. */
    lemma NextNameIsFree()
      requires Structured() && Inv(State()) && !failed
      ensures strayFile == null && (Active().records > 0 ==> !dir.Has(nextOffset))
    {
      hide Content, SegHolds, FrameStart;
      NotStray(State());
      KeptEntriesAreOld(EntriesOf(segments), unlinked);
      forall i | 0 <= i < |segments|
        ensures segments[i].baseOffset < nextOffset || Active().records <= 0
      {
        if i < |segments| - 1 {
          StatesAt(Front(), i);
          assert Segs(State())[i] == Front()[i].State() == segments[i].State();
          assert EndOf(Segs(State())[i]) <= Segs(State())[|Front()|].base;
          assert LogStates.Sealed(State().sealed[i], limits);
        }
      }
      forall k | 0 <= k < |dir.files|
        ensures Active().records > 0 ==> dir.files[k].base != nextOffset
      {
        assert dir.files[k] in EntriesOf(segments);
        var i :| 0 <= i < |segments| && EntriesOf(segments)[i] == dir.files[k];
      }
    }

    /** Writes an encoded record, rolling first if its frame would not fit the active segment. */
    method AppendFrame(r: Record, frame: seq<byte>, acks: int, f: Faults, now: int) returns (res: AppendResult)
      requires Structured() && strayFile == null && !failed && frame == Frame(r)
      requires Active().records > 0 ==> !dir.Has(nextOffset)
      modifies this`segments, this`strayFile, this`failed, this`nextOffset, dir, Active(), Active().file
      ensures Structured()
      ensures (State(), res) == if NeedsRoll(old(State()), r) then
                                  var (rolled, ok) := RollSpec(old(State()), f);
                                  if !ok then (rolled.(failed := true), Uncertain) else PublishSpec(rolled, r, acks, f)
                                else PublishSpec(old(State()), r, acks, f)
    {
      hide Frame, RollSpec, PublishSpec, AllApart, Listed;
      if Active().records > 0 && Active().sizeBytes + |frame| > limits.maxSegmentBytes {
        var ok := Roll(f, now);
        if !ok {
          Fence();
          return Uncertain;
        }
      }
      res := Publish(r, frame, acks, f, now);
    }

    /** Refuses further operations until the partition is opened again. */
    method Fence()
      requires Structured()
      modifies this`failed
      ensures Structured() && State() == old(State()).(failed := true)
    {
      failed := true;
      StatesKept(Front());
    }

    /** Appends a record at the log end. It is visible exactly when the result says so; any failure
        on the way fences the partition, and a fenced partition refuses further appends. */
    method Append(key: seq<byte>, value: seq<byte>, acks: int, now: Int64, f: Faults) returns (res: AppendResult)
      requires Valid()
      modifies this`segments, this`strayFile, this`failed, this`nextOffset, dir, Active(), Active().file
      ensures Valid()
      ensures closed ==> res == Closed && State() == old(State())
      ensures !closed ==> (State(), res) == AppendSpec(old(State()), key, value, acks, now, f)
      ensures AppendEffect(old(State()), State(), res, Record(old(nextOffset), now, key, value))
    {
      hide Frame, Encodable, RollSpec, PublishSpec, Inv, NeedsRoll, Contiguous, Log;
      ghost var s := State();
      AppendKeeps(s, key, value, acks, now, f);
      if closed {
        return Closed;
      }
      if failed {
        return Fenced;
      }
      if acks != ACKS_NONE && acks != ACKS_LEADER {
        return UnknownAcks;
      }
      if nextOffset == MAX_INT64 {
        return OffsetOverflow;
      }
      var r := Record(nextOffset, now, key, value);
      NextNameIsFree();
      var enc := EncodeRecord(r);
      StatesKept(Front());
      if enc.RecordTooLarge? {
        return TooLargeToAppend;
      }
      res := AppendFrame(r, enc.frame, acks, f, now);
    }

    /** The readable range, from the first surviving segment's base to the log end, unless closed. */
    method Offsets() returns (ok: bool, earliest: int, latest: int)
      requires Valid()
      ensures ok == !closed
      ensures ok ==> earliest == Segs(State())[0].base && latest == State().nextOffset && earliest <= latest
    {
      hide Inv;
      if closed {
        return false, 0, 0;
      }
      SegsAt();
      EndAfterStart(State());
      ok, earliest, latest := true, segments[0].baseOffset, nextOffset;
    }

    lemma SegsAt()
      requires segments != []
      ensures |Segs(State())| == |segments|
      ensures forall i | 0 <= i < |segments| :: Segs(State())[i] == segments[i].State()
    {
      forall i | 0 <= i < |segments| - 1
        ensures Segs(State())[i] == segments[i].State()
      {
        StatesAt(Front(), i);
      }
    }

    /** The first segment that ends past the offset. */
    method SegmentFor(offset: int, ghost segs: seq<SegState>) returns (si: nat)
      requires |segs| == |segments| && forall i | 0 <= i < |segs| :: segs[i] == segments[i].State()
      requires forall i, j | 0 <= i <= j < |segs| :: EndOf(segs[i]) <= EndOf(segs[j])
      requires segs != [] && offset < EndOf(segs[|segs| - 1])
      ensures si < |segments| && EndOf(segs[si]) > offset
      ensures forall i | 0 <= i < si :: EndOf(segs[i]) <= offset
    {
      var i, j := 0, |segments|;
      while i < j
        invariant 0 <= i <= j <= |segments|
        invariant forall k | 0 <= k < i :: EndOf(segs[k]) <= offset
        invariant forall k | j <= k < |segments| :: EndOf(segs[k]) > offset
      {
        var h := i + (j - i) / 2;
        if !(segments[h].baseOffset + segments[h].records > offset) {
          i := h + 1;
        } else {
          j := h;
        }
      }
      si := i;
    }

    /** Returns the records from an offset on: the longest run within both budgets, but at least one
        record. Where retention left a gap, the run starts at the next surviving record. */
    method ReadFrom(offset: int, maxRecords: int, maxBytes: int) returns (res: ReadResult)
      requires Valid()
      ensures closed ==> res == ReadClosed
      ensures !closed && (maxRecords <= 0 || maxBytes <= 0) ==> res == BadArgument
      ensures !closed && maxRecords > 0 && maxBytes > 0 ==>
                if segments[0].baseOffset <= offset <= nextOffset
                then res.Fetched? && IsSlice(FromOffset(Log(State()), offset), res.records, maxRecords, maxBytes)
                else res == OutOfRange
    {
      hide Inv, Log, FromOffset, IsSlice;
      if closed {
        return ReadClosed;
      }
      if maxRecords <= 0 || maxBytes <= 0 {
        return BadArgument;
      }
      var earliest := segments[0].baseOffset;
      if offset < earliest || offset > nextOffset {
        return OutOfRange;
      }
      if offset == nextOffset {
        NothingAtEnd(State());
        EmptySlice(maxRecords, maxBytes);
        return Fetched([]);
      }
      ghost var s := State();
      SegsAt();
      SearchFacts(s);
      var si := SegmentFor(offset, Segs(s));
      res := ReadSegments(si, offset, maxRecords, maxBytes, s);
      StatesKept(Front());
    }

    /** Reads on over segment boundaries until a budget is used up or the log ends. */
    method ReadSegments(first: nat, offset: int, maxRecords: int, maxBytes: int, ghost s: LogState)
      returns (res: ReadResult)
      requires Inv(s) && maxRecords > 0 && limits == s.limits
      requires |Segs(s)| == |segments| && forall i | 0 <= i < |segments| :: segments[i].State() == Segs(s)[i]
      requires first < |segments| && Segs(s)[0].base <= offset < EndOf(Segs(s)[first])
      requires forall i | 0 <= i < first :: EndOf(Segs(s)[i]) <= offset
      ensures res.Fetched? && IsSlice(FromOffset(Log(s), offset), res.records, maxRecords, maxBytes)
    {
      hide Inv, Content, LogOf, FromOffset, SegHolds, SegmentRead, IsSlice, Frames, Fits, Log, FirstWanted;
      ghost var avail := FromOffset(Log(s), offset);
      var si := first;
      var p := Progress([], 0, false);
      ghost var rest := FirstRest(s, first, offset);
      EmptyProgress(maxRecords, maxBytes);
      while si < |segments| && |p.out| < maxRecords
        invariant forall i | 0 <= i < |segments| :: segments[i].State() == Segs(s)[i]
        invariant first <= si <= |segments| && Fits(p, maxRecords, maxBytes) && !p.full
        invariant |p.out| >= maxRecords ==> IsSlice(avail, p.out, maxRecords, maxBytes)
        invariant |p.out| < maxRecords ==> avail == p.out + rest
        invariant |p.out| < maxRecords ==> IsRest(s, first, si, offset, rest)
      {
        var seg := segments[si];
        var start := if offset < seg.baseOffset then seg.baseOffset else offset;
        SegmentIsReadable(s, si);
        StartsInside(s, first, si, offset);
        ghost var recs, was := Content(Segs(s)[si]), p;
        var corrupt;
        ghost var count;
        p, corrupt, count := ReadSegment(seg, start, p, maxRecords, maxBytes, recs, limits.indexIntervalBytes,
                                            s.failed && si == |s.sealed|);
        if corrupt {
          return RescanFailed;
        }
        rest := AfterSegment(s, first, si, offset, avail, rest, was, p, start - seg.baseOffset, count,
                             maxRecords, maxBytes);
        if p.full {
          return Fetched(p.out);
        }
        si := si + 1;
      }
      if |p.out| < maxRecords {
        RestIsEmpty(s, first, si, offset, rest);
        NothingMoreToRead(avail, p, maxRecords, maxBytes);
      }
      return Fetched(p.out);
    }
  }

  /** Positions a reader at the nearest indexed record at or before `start`. */
  method Seek(seg: Segment, start: int, ghost recs: seq<Record>, ghost interval: int, ghost fenced: bool)
    returns (cur: int, reader: SectionReader)
    requires interval > 0 && SegHolds(seg.State(), recs, interval, fenced)
    requires seg.baseOffset <= start && (start < seg.baseOffset + seg.records || start == seg.baseOffset)
    ensures fresh(reader) && reader.Valid()
    ensures 0 <= cur - seg.baseOffset <= start - seg.baseOffset && cur - seg.baseOffset <= |recs|
    ensures reader.Rest() == Frames(recs[cur - seg.baseOffset..])
  {
    hide Run, Frames, SegHolds, IndexUpTo, IsLookup, FramePos, FrameStarts, IndexFor, Increasing;
    HoldsFacts(seg.State(), recs, interval, fenced);
    IndexSearchable(seg.State(), recs, interval, fenced);
    var entry := LookupIndex(seg.index, start - seg.baseOffset);
    EntryFor(seg.State(), recs, interval, fenced, start - seg.baseOffset, entry);
    SectionFrom(seg.State(), recs, interval, fenced, entry.relOffset);
    cur := seg.baseOffset + entry.relOffset;
    ghost var section := seg.file.data[entry.position..seg.sizeBytes];
    reader := new SectionReader(seg.file.data[entry.position..seg.sizeBytes]);
    assert reader.Rest() == section;
  }

  /** Decoding published frames always gives the next record. */
  method NextRecord(reader: SectionReader, cur: int, ghost recs: seq<Record>, ghost base: int) returns (d: Decoded)
    requires reader.Valid() && Run(recs, base) && base <= cur < base + |recs|
    requires reader.Rest() == Frames(recs[cur - base..])
    modifies reader
    ensures reader.Valid() && reader.Rest() == Frames(recs[cur - base + 1..])
    ensures d == Good(recs[cur - base], |Frame(recs[cur - base])|)
  {
    hide Run, Frames, Decode, Frame;
    DecodeAt(recs, base, cur - base);
    ghost var rest := reader.Rest();
    d := DecodeRecord(reader, cur);
    assert reader.Rest() == rest[d.n..];
  }

  datatype ReadResult = Fetched(records: seq<Record>) | ReadClosed | BadArgument | OutOfRange | RescanFailed

  /** Reads one segment's records from `start` on, beginning to decode at the nearest index entry.
      No decode of published bytes can fail. */
  method ReadSegment(seg: Segment, start: int, was: Progress, maxRecords: int, maxBytes: int,
                     ghost recs: seq<Record>, ghost interval: int, ghost fenced: bool)
    returns (p: Progress, corrupt: bool, ghost count: int)
    requires interval > 0 && SegHolds(seg.State(), recs, interval, fenced)
    requires seg.baseOffset <= start && (start < seg.baseOffset + seg.records || start == seg.baseOffset)
    requires Fits(was, maxRecords, maxBytes) && |was.out| < maxRecords && !was.full
    ensures !corrupt && SegmentRead(p, was, recs, start - seg.baseOffset, count, maxRecords, maxBytes)
  {
    hide Run, Frames, Decode, Frame, SegHolds, IndexUpTo, IsLookup, Reading, SegmentRead, Fits;
    ghost var k := start - seg.baseOffset;
    HoldsCount(seg.State(), recs, interval, fenced);
    var cur, reader := Seek(seg, start, recs, interval, fenced);
    var end := seg.baseOffset + seg.records;
    p, corrupt := was, false;
    ghost var c := cur - seg.baseOffset;
    StartReading(was, recs, k, c, maxRecords, maxBytes);
    while cur < end && |p.out| < maxRecords
      invariant reader.Valid() && cur == seg.baseOffset + c && end == seg.baseOffset + |recs|
      invariant 0 <= c <= |recs| && reader.Rest() == Frames(recs[c..])
      invariant Reading(p, was, recs, k, c, maxRecords, maxBytes)
    {
      var d := NextRecord(reader, cur, recs, seg.baseOffset);
      if !d.Good? {
        return p, true, 0;
      }
      KeepReading(p, was, recs, k, c, maxRecords, maxBytes);
      if cur >= start {
        if |p.out| > 0 && p.totalBytes + d.n > maxBytes {
          return p.(full := true), false, c - k;
        }
        p := Progress(p.out + [d.record], p.totalBytes + d.n, false);
      }
      cur := cur + 1;
      c := c + 1;
    }
    count := FinishReading(p, was, recs, k, c, maxRecords, maxBytes);
  }

  ghost predicate AllApart(segs: seq<Segment>) {
    forall i, j | 0 <= i < j < |segs| :: segs[i] != segs[j] && segs[i].file != segs[j].file
  }

  lemma StrayListed(p: PartitionLog)
    requires p.segments != [] && AllApart(p.segments) && p.strayFile != null
    requires p.strayFile.State() == FileState([], 0) && p.strayFile !in FilesIn(p.segments)
    requires p.dir.files == KeepEntries(EntriesOf(p.segments), p.unlinked) + [DirEntry(p.nextOffset, p.strayFile)]
    requires p.UnlinkedIsOlder()
    ensures p.Structured()
  {
  }

  lemma SegmentListed(p: PartitionLog, before: seq<Segment>, seg: Segment)
    requires AllApart(before) && seg !in before && seg.file !in FilesIn(before)
    requires p.strayFile == null && p.segments == before + [seg]
    requires p.dir.files == KeepEntries(EntriesOf(before), p.unlinked) + [DirEntry(seg.baseOffset, seg.file)]
    requires seg.baseOffset == p.nextOffset && forall b | b in p.unlinked :: b < p.nextOffset
    ensures p.Structured()
  {
    hide AllApart, KeepEntries, EntriesOf;
    EntriesSnoc(before, seg, p.unlinked);
    ApartSnoc(before, seg);
  }

  lemma EntriesSnoc(before: seq<Segment>, seg: Segment, gone: set<int>)
    requires seg.baseOffset !in gone
    ensures KeepEntries(EntriesOf(before + [seg]), gone)
            == KeepEntries(EntriesOf(before), gone) + [DirEntry(seg.baseOffset, seg.file)]
  {
    assert EntriesOf(before + [seg]) == EntriesOf(before) + [DirEntry(seg.baseOffset, seg.file)];
    assert EntriesOf(before + [seg])[..|before|] == EntriesOf(before);
  }

  lemma ApartSnoc(before: seq<Segment>, seg: Segment)
    requires AllApart(before) && seg !in before && seg.file !in FilesIn(before)
    ensures AllApart(before + [seg])
  {
  }

  lemma SegmentAdded(p: PartitionLog, before: seq<Segment>, seg: Segment, segs: seq<SegState>)
    requires AllApart(before) && seg !in before && seg.file !in FilesIn(before)
    requires p.strayFile == null && p.segments == before + [seg]
    requires p.dir.files == KeepEntries(EntriesOf(before), p.unlinked) + [DirEntry(seg.baseOffset, seg.file)]
    requires seg.baseOffset == p.nextOffset && forall b | b in p.unlinked :: b < p.nextOffset
    requires StatesOf(before) == segs && seg.State() == EmptySegment(p.nextOffset)
    ensures p.Structured() && p.Active() == seg
    ensures p.State() == LogState(segs, EmptySegment(p.nextOffset), p.nextOffset, p.failed, false, p.limits)
  {
    hide AllApart, KeepEntries, EntriesOf;
    assert p.Front() == before && p.Active() == seg;
    SegmentListed(p, before, seg);
  }

  lemma {:induction false} KeptEntriesAreOld(files: seq<DirEntry>, gone: set<int>)
    ensures forall e | e in KeepEntries(files, gone) :: e in files
  {
    if files != [] {
      KeptEntriesAreOld(files[..|files| - 1], gone);
    }
  }

  lemma {:induction false} NothingRemoved(files: seq<DirEntry>)
    ensures KeepEntries(files, {}) == files
  {
    if files != [] {
      NothingRemoved(files[..|files| - 1]);
    }
  }

  twostate lemma {:induction false} StatesKept(segs: seq<Segment>)
    requires forall i | 0 <= i < |segs| :: segs[i].State() == old(segs[i].State())
    ensures StatesOf(segs) == old(StatesOf(segs))
    decreases |segs|
  {
    if segs != [] {
      StatesKept(segs[..|segs| - 1]);
    }
  }

  lemma {:induction false} StatesAt(segs: seq<Segment>, i: nat)
    requires i < |segs|
    ensures StatesOf(segs)[i] == segs[i].State()
    decreases |segs|
  {
    if i < |segs| - 1 {
      StatesAt(segs[..|segs| - 1], i);
    }
  }

  /** A new partition: one empty segment at offset 0, in a directory of its own. */
  method CreatePartition(limits: Limits, now: int) returns (p: PartitionLog)
    requires limits.indexIntervalBytes > 0
    ensures p.Valid() && !p.closed && p.limits == limits
    ensures p.State() == LogState([], EmptySegment(0), 0, false, false, limits)
  {
    hide Inv;
    var file := new SegmentFile(now);
    var dir := new Directory();
    dir.files := [DirEntry(0, file)];
    var seg := new Segment(0, file, 0, 0, []);
    p := new PartitionLog(dir, limits, [seg], 0);
    FreshLog(limits);
    NothingRemoved(EntriesOf([seg]));
    assert p.Front() == [] && p.Active() == seg;
  }

  lemma FreshLog(limits: Limits)
    requires limits.indexIntervalBytes > 0
    ensures Inv(LogState([], EmptySegment(0), 0, false, false, limits))
  {
    hide Parse, Frames, IndexUpTo, FrameStarts;
    EmptyHolds(0, limits.indexIntervalBytes);
    ContentIs(EmptySegment(0), [], limits.indexIntervalBytes, false);
    NothingStartsAFrame();
  }
}
