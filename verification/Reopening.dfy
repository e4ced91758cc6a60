/** Reopening a partition from its files: the state rebuilt by scanning against the state the
    appends built up. */
module Reopening {
  import opened Bytes
  import opened Records
  import opened FrameRuns
  import opened SparseIndex
  import opened SegmentScan
  import opened LogStates
  import opened LogInvariant

  /** Scanning the file of a segment whose bytes are all published gives back that segment. */
  lemma RescanSegment(sg: SegState, isActive: bool, interval: int, entrySynced: bool)
    requires SegOk(sg, interval, false) && sg.sizeBytes == |sg.file.data|
    ensures OpenSegmentSpec(DiskFile(sg.base, sg.file, entrySynced), isActive, interval) == Some(sg)
  {
    hide Frames, Run, IndexFor;
    var recs := Content(sg);
    HoldsFacts(sg, recs, interval, false);
    ParseWholeFrames(recs, sg.base);
    assert sg.file.data[..|sg.file.data|] == sg.file.data;
  }

  lemma {:induction false} RescanSealed(segs: seq<SegState>, limits: Limits)
    requires AllSealed(segs, limits)
    ensures OpenSealedSpec(FilesOf(segs), limits.indexIntervalBytes) == Some(segs)
  {
    hide SegOk, OpenSegmentSpec;
    if segs == [] {
      assert FilesOf(segs) == [];
    } else {
      var n := |segs| - 1;
      assert segs == segs[..n] + [segs[n]];
      assert FilesOf(segs)[..n] == FilesOf(segs[..n]);
      RescanSealed(segs[..n], limits);
      RescanSegment(segs[n], false, limits.indexIntervalBytes, true);
    }
  }

  lemma DiskParts(s: LogState)
    requires !s.stray
    ensures |DiskOf(s)| == |s.sealed| + 1 && DiskOf(s)[..|s.sealed|] == FilesOf(s.sealed)
    ensures DiskOf(s)[|s.sealed|] == DiskFile(s.active.base, s.active.file, true)
  {
    assert DiskOf(s) == FilesOf(Segs(s));
  }

  /** Incremental equals rebuilt: reopening a healthy log with the same limits gives back the very
      same state: bases, sizes, record counts, indexes, last indexed positions and the log end. */
  lemma ReopenIsIdentity(s: LogState)
    requires Inv(s) && !s.failed
    ensures OpenSpec(DiskOf(s), s.limits) == Some(s)
  {
    hide SegHolds, OpenSegmentSpec, OpenSealedSpec, AllSealed, Ordered;
    ActiveHolds(s);
    DiskParts(s);
    RescanSealed(s.sealed, s.limits);
    RescanSegment(s.active, true, s.limits.indexIntervalBytes, true);
  }

  // ----- runs with reopens in between -----

  datatype Op = DoAppend(key: seq<byte>, value: seq<byte>, acks: int, now: Int64) | Reopen

  const HEALTHY := Faults(true, true, true, true, true, true, true, MAX_RECORD_BYTES, true, true, true)

  /** What fault-free appends and clean reopens do to a log; None if a reopen is refused. */
  function RunOps(s: LogState, ops: seq<Op>): Option<LogState>
    decreases |ops|
  {
    if ops == [] then Some(s)
    else match ops[0]
         case DoAppend(key, value, acks, now) => RunOps(AppendSpec(s, key, value, acks, now, HEALTHY).0, ops[1..])
         case Reopen =>
           var t := OpenSpec(DiskOf(s), s.limits);
           if t.Some? then RunOps(t.value, ops[1..]) else None
  }

  function WithoutReopens(ops: seq<Op>): seq<Op> {
    if ops == [] then [] else (if ops[0].Reopen? then [] else [ops[0]]) + WithoutReopens(ops[1..])
  }

  lemma HealthyAppendSucceeds(s: LogState, key: seq<byte>, value: seq<byte>, acks: int, now: Int64)
    requires Inv(s) && !s.failed
    ensures var t := AppendSpec(s, key, value, acks, now, HEALTHY).0; Inv(t) && !t.failed
  {
    hide Inv, Log, Content, Contiguous;
    AppendKeeps(s, key, value, acks, now, HEALTHY);
  }

  /** Reopens inserted anywhere into a fault-free run leave its final state unchanged. */
  lemma {:induction false} ReopensChangeNothing(s: LogState, ops: seq<Op>)
    requires Inv(s) && !s.failed
    ensures RunOps(s, ops).Some? && RunOps(s, ops) == RunOps(s, WithoutReopens(ops))
    decreases |ops|
  {
    hide Inv, OpenSpec, AppendSpec;
    if ops != [] {
      match ops[0]
      case DoAppend(key, value, acks, now) =>
        HealthyAppendSucceeds(s, key, value, acks, now);
        ReopensChangeNothing(AppendSpec(s, key, value, acks, now, HEALTHY).0, ops[1..]);
        var rest := WithoutReopens(ops[1..]);
        assert ([ops[0]] + rest)[1..] == rest;
      case Reopen =>
        ReopenIsIdentity(s);
        ReopensChangeNothing(s, ops[1..]);
        assert [] + WithoutReopens(ops[1..]) == WithoutReopens(ops[1..]);
    }
  }

  // ----- reopening a fenced log -----

  /** The record, if any, that a failed append may have left complete in the active file. */
  function UncertainRecord(sg: SegState): seq<Record> {
    Parse(Tail(sg), EndOf(sg)).records
  }

  lemma OffsetNotInFrame(a: Record, b: Record)
    requires b == a.(offset := b.offset)
    ensures Frame(a) == Frame(b) && (Encodable(a) <==> Encodable(b))
  {
  }

  /** The bytes past the published end of a fenced segment are at most one whole frame. */
  lemma TailIsOneFrame(sg: SegState)
    requires FrameStart(Tail(sg))
    ensures var q := Parse(Tail(sg), EndOf(sg));
            !q.ending.BadFrame? && |q.records| <= 1
            && (q.records == [] || Tail(sg) == Frame(q.records[0]))
  {
    hide Frame, Run, Decode, Parse, Encodable;
    var tail := Tail(sg);
    var any :| Encodable(any) && tail <= Frame(any);
    var r := any.(offset := EndOf(sg));
    OffsetNotInFrame(any, r);
    EmptyRun();
    if tail == Frame(r) {
      FramesSnoc([], r);
      RunSnoc([], r, EndOf(sg));
      FramesOfOne(r);
      assert [] + [r] == [r];
      ParseWholeFrames([r], EndOf(sg));
    } else {
      if tail == [] {
        NothingLeft(EndOf(sg));
      } else {
        assert tail == Frame(r)[..|tail|];
        StrictPrefixIsTorn(r, |tail|, EndOf(sg));
      }
      ReadingIsUnique(tail, EndOf(sg), [], tail);
    }
  }

  lemma ReopenFencedActive(sg: SegState, limits: Limits)
    requires ActiveOk(sg, limits, true)
    ensures var t := OpenSegmentSpec(DiskFile(sg.base, sg.file, true), true, limits.indexIntervalBytes);
            && t.Some? && Content(t.value) == Content(sg) + UncertainRecord(sg) && t.value.base == sg.base
            && ActiveOk(t.value, limits, false)
  {
    hide Frame, Frames, Run, IndexFor, Decode, Parse, SegHolds, FrameStart;
    var recs := Content(sg);
    HoldsFacts(sg, recs, limits.indexIntervalBytes, true);
    TailIsOneFrame(sg);
    assert sg.file.data == Frames(recs) + Tail(sg);
    ParseOfFrames(recs, Tail(sg), sg.base);
    ParseSound(sg.file.data, sg.base);
    var p := Parse(sg.file.data, sg.base);
    ParseWholeFrames(p.records, sg.base);
    var t := OpenSegmentSpec(DiskFile(sg.base, sg.file, true), true, limits.indexIntervalBytes).value;
    assert PublishedBytes(t) == sg.file.data[..p.size];
    ScannedHolds(t, p.records, limits.indexIntervalBytes);
    NothingStartsAFrame();
    if p.ending.AtBoundary? {
      BoundaryIsTheEnd(sg.file.data, sg.base);
    }
    assert Tail(t) == [];
    if |p.records| > 1 && UncertainRecord(sg) == [] {
      assert p.records == recs;
    }
  }

  lemma ScannedHolds(t: SegState, recs: seq<Record>, interval: int)
    requires PublishedBytes(t) == Frames(recs) && Run(recs, t.base) && t.records == |recs|
    requires 0 <= t.sizeBytes <= |t.file.data| && t.file.synced <= |t.file.data|
    requires t.index == IndexFor(recs, interval) && t.lastIndexedPos == LastPos(t.index)
    ensures SegOk(t, interval, false)
  {
    hide Frames, Run, IndexFor;
    ContentIs(t, recs, interval, false);
  }

  /** Reopening after a failure gives exactly the published log, or that log plus the one record
      whose outcome was uncertain: the record whose whole frame is the file's unpublished tail. */
  lemma ReopenFenced(s: LogState)
    requires Inv(s) && s.failed
    ensures var t := OpenSpec(DiskOf(s), s.limits);
            && t.Some? && Inv(t.value) && !t.value.failed && t.value.limits == s.limits
            && (Contiguous(Segs(s)) ==> Contiguous(Segs(t.value)))
            && Log(t.value) == Log(s) + UncertainRecord(s.active)
            && |UncertainRecord(s.active)| <= 1
            && (UncertainRecord(s.active) != [] ==> Tail(s.active) == Frame(UncertainRecord(s.active)[0]))
  {
    hide SegHolds, OpenSegmentSpec, OpenSealedSpec, AllSealed, Ordered, Contiguous, Content, Frame, LogOf, Parse,
         FrameStart;
    TailIsOneFrame(s.active);
    if s.stray {
      ReopenStray(s);
      StrayTail(s);
      assert Log(s) + [] == Log(s);
    } else {
      DiskParts(s);
      RescanSealed(s.sealed, s.limits);
      ReopenFencedActive(s.active, s.limits);
      var sg := OpenSegmentSpec(DiskFile(s.active.base, s.active.file, true), true, s.limits.indexIntervalBytes).value;
      OrderedAfterReplace(s, sg);
      ConcatAssoc(LogOf(s.sealed), Content(s.active), UncertainRecord(s.active));
    }
  }

  lemma StrayTail(s: LogState)
    requires Inv(s) && s.stray
    ensures UncertainRecord(s.active) == []
  {
    hide SegOk;
    assert Tail(s.active) == [];
    NothingLeft(EndOf(s.active));
  }

  lemma ReopenStray(s: LogState)
    requires Inv(s) && s.stray
    ensures var t := OpenSpec(DiskOf(s), s.limits);
            && t == Some(LogState(Segs(s), EmptySegment(s.nextOffset), s.nextOffset, false, false, s.limits))
            && Log(t.value) == Log(s) && Inv(t.value)
            && (Contiguous(Segs(s)) ==> Contiguous(Segs(t.value)))
  {
    hide SegHolds, OpenSegmentSpec, OpenSealedSpec, Ordered, Contiguous, Content, LogOf, FrameStart;
    var d := DiskOf(s);
    var n := |s.sealed| + 1;
    assert d[..n] == FilesOf(Segs(s)) && d[n] == DiskFile(s.nextOffset, FileState([], 0), false);
    RescanSealed(Segs(s), s.limits);
    var e := EmptySegment(s.nextOffset);
    EmptyHolds(e.base, s.limits.indexIntervalBytes);
    ContentIs(e, [], s.limits.indexIntervalBytes, false);
    RescanSegment(e, true, s.limits.indexIntervalBytes, false);
    LogIsAll(s);
    NothingStartsAFrame();
    OrderedAfterEmpty(s, e);
  }
}
