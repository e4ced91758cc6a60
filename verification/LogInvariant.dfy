/** What appends, rolls and failures keep, and what they do to the published records. */
module LogInvariant {
  import opened Bytes
  import opened Records
  import opened FrameRuns
  import opened SparseIndex
  import opened SegmentScan
  import opened LogStates

  // ----- segments -----

  lemma HoldsFacts(sg: SegState, recs: seq<Record>, interval: int, fenced: bool)
    requires SegHolds(sg, recs, interval, fenced)
    ensures 0 <= sg.sizeBytes <= |sg.file.data| && sg.file.synced <= |sg.file.data|
    ensures PublishedBytes(sg) == Frames(recs) && Run(recs, sg.base) && sg.records == |recs|
    ensures sg.sizeBytes == |Frames(recs)|
    ensures !fenced ==> sg.index == IndexFor(recs, interval)
    ensures sg.lastIndexedPos == LastPos(sg.index)
  {
  }

  lemma SyncHolds(sg: SegState, recs: seq<Record>, interval: int, fenced: bool)
    requires SegHolds(sg, recs, interval, fenced)
    ensures SegHolds(Synced(sg), recs, interval, fenced)
  {
    hide Frames, Run, IndexUpTo, FrameStarts;
  }

  lemma EmptyHolds(base: int, interval: int)
    ensures SegHolds(EmptySegment(base), [], interval, false)
  {
    EmptyRun();
  }

  lemma NothingStartsAFrame()
    ensures FrameStart([])
  {
    var r := Record(0, 0, [], []);
    assert Encodable(r) && [] <= Frame(r);
  }

  lemma IndexedHolds(sg: SegState, recs: seq<Record>, interval: int)
    requires SegHolds(sg, recs, interval, false)
    ensures var t := Indexed(sg, interval);
            && t.index == IndexUpTo(FrameStarts(recs), |recs| + 1, interval)
            && t.lastIndexedPos == LastPos(t.index)
  {
    hide Run, Frames;
    assert recs[..|recs|] == recs;
  }

  /** Bytes beyond the published end leave the published part as it was. */
  lemma WrittenHolds(sg: SegState, recs: seq<Record>, interval: int, bytes: seq<byte>, sync: bool)
    requires SegHolds(sg, recs, interval, false) && Tail(sg) == []
    ensures var w := Written(sg, interval, bytes, sync);
            && SegHolds(w, recs, interval, true)
            && Tail(w) == bytes && PublishedBytes(w) == PublishedBytes(sg)
            && w.index == IndexUpTo(FrameStarts(recs), |recs| + 1, interval)
  {
    hide Run, Frames, IndexUpTo, FrameStarts, IndexFor;
    IndexedHolds(sg, recs, interval);
    assert |sg.file.data| == sg.sizeBytes;
    var data := sg.file.data + bytes;
    assert data[..sg.sizeBytes] == sg.file.data[..sg.sizeBytes];
    assert data[sg.sizeBytes..] == bytes;
  }

  lemma PublishedHolds(w: SegState, recs: seq<Record>, interval: int, r: Record)
    requires SegHolds(w, recs, interval, true) && Tail(w) == Frame(r)
    requires w.index == IndexUpTo(FrameStarts(recs), |recs| + 1, interval)
    requires Encodable(r) && r.offset == EndOf(w)
    ensures SegHolds(Published(w, |Frame(r)|), recs + [r], interval, false)
    ensures Tail(Published(w, |Frame(r)|)) == []
  {
    hide Run, Frames, IndexUpTo, Frame, Encodable, FrameStarts, IndexFor;
    FramesSnoc(recs, r);
    RunSnoc(recs, r, w.base);
    IndexGrows(recs, r, interval);
    var t := Published(w, |Frame(r)|);
    assert w.file.data == PublishedBytes(w) + Tail(w);
    assert t.file.data[..t.sizeBytes] == t.file.data;
  }

  // ----- logs -----

  lemma LogOfSnoc(segs: seq<SegState>, sg: SegState)
    ensures LogOf(segs + [sg]) == LogOf(segs) + Content(sg)
  {
    hide Content;
    assert (segs + [sg])[..|segs|] == segs;
  }

  lemma {:induction false} LogOfConcat(a: seq<SegState>, b: seq<SegState>)
    ensures LogOf(a + b) == LogOf(a) + LogOf(b)
  {
    hide Content;
    if b == [] {
      assert a + b == a;
    } else {
      var front, last := b[..|b| - 1], b[|b| - 1];
      LogOfConcat(a, front);
      assert b == front + [last] && a + b == (a + front) + [last];
      LogOfSnoc(a + front, last);
      ConcatAssoc(LogOf(a), LogOf(front), Content(last));
    }
  }

  lemma LogIsAll(s: LogState)
    ensures Log(s) == LogOf(Segs(s))
  {
    LogOfSnoc(s.sealed, s.active);
  }

  lemma ActiveHolds(s: LogState)
    requires Inv(s)
    ensures SegHolds(s.active, Content(s.active), s.limits.indexIntervalBytes, s.failed)
    ensures 0 <= s.active.sizeBytes <= |s.active.file.data| && 0 <= s.active.records
    ensures !s.failed ==> Tail(s.active) == [] && s.active.sizeBytes == |s.active.file.data|
  {
    hide Content;
    HoldsFacts(s.active, Content(s.active), s.limits.indexIntervalBytes, s.failed);
  }

  lemma NotStray(s: LogState)
    requires Inv(s) && !s.failed
    ensures !s.stray
  {
    hide SegHolds;
  }

  lemma OrderedAfterReplace(s: LogState, seg: SegState)
    requires Ordered(Segs(s)) && seg.base == s.active.base
    ensures Ordered(s.sealed + [seg])
    ensures Contiguous(Segs(s)) ==> Contiguous(s.sealed + [seg])
  {
    var a, b := Segs(s), s.sealed + [seg];
    assert forall i | 0 <= i < |s.sealed| :: a[i] == b[i];
    assert a[|s.sealed|].base == b[|s.sealed|].base;
  }

  /** Replacing the active segment by one that holds recs. */
  lemma ReplaceActive(s: LogState, seg: SegState, recs: seq<Record>, failed': bool)
    requires Inv(s) && !s.failed && seg.base == s.active.base
    requires SegHolds(seg, recs, s.limits.indexIntervalBytes, failed')
    requires Limited(seg, s.limits.maxSegmentBytes) && (failed' || Tail(seg) == []) && FrameStart(Tail(seg))
    requires TailFits(seg, s.limits.maxSegmentBytes)
    ensures var t := s.(active := seg, failed := failed', nextOffset := EndOf(seg));
            && Inv(t) && Log(t) == LogOf(s.sealed) + recs
            && (Contiguous(Segs(s)) ==> Contiguous(Segs(t)))
  {
    hide Content, SegHolds, AllSealed, Ordered, Contiguous, FrameStart, Tail, LogOf;
    ContentIs(seg, recs, s.limits.indexIntervalBytes, failed');
    OrderedAfterReplace(s, seg);
  }

  ghost predicate SameLog(s: LogState, t: LogState) {
    Log(t) == Log(s) && t.nextOffset == s.nextOffset
  }

  ghost predicate GrownBy(s: LogState, t: LogState, r: Record) {
    Log(t) == Log(s) + [r] && t.nextOffset == s.nextOffset + 1
  }

  lemma FenceKeeps(s: LogState)
    requires Inv(s)
    ensures Inv(s.(failed := true))
    ensures Sealed(s.active, s.limits) ==> Inv(s.(failed := true, stray := true))
  {
    hide Content, AllSealed, Ordered, Contiguous, FrameStart, Tail;
  }

  /** A roll publishes nothing: the log is the same, now with an empty active segment at its end. */
  lemma RollKeeps(s: LogState, f: Faults)
    requires Inv(s) && !s.failed && s.active.records > 0
    ensures var (t, ok) := RollSpec(s, f);
            && t.limits == s.limits && SameLog(s, t)
            && (if ok then Inv(t) && !t.failed && t.active == EmptySegment(s.nextOffset) else Inv(t.(failed := true)))
            && (Contiguous(Segs(s)) ==> Contiguous(Segs(t)))
  {
    hide Content, SegHolds, AllSealed, Ordered, Contiguous, FrameStart, LogOf, Inv;
    FenceKeeps(s);
    SyncActive(s);
    var t := s.(active := Synced(s.active));
    FenceKeeps(t);
    AddEmpty(t);
  }

  lemma SyncActive(s: LogState)
    requires Inv(s) && !s.failed
    ensures var t := s.(active := Synced(s.active));
            && Inv(t) && SameLog(s, t) && (Contiguous(Segs(s)) ==> Contiguous(Segs(t)))
            && t.active.file.synced == |t.active.file.data| == t.active.sizeBytes
            && (t.active.records > 0 ==> Sealed(t.active, t.limits))
  {
    hide Content, SegHolds, AllSealed, Ordered, Contiguous, FrameStart, LogOf;
    ActiveHolds(s);
    SyncHolds(s.active, Content(s.active), s.limits.indexIntervalBytes, false);
    assert Tail(Synced(s.active)) == Tail(s.active);
    ReplaceActive(s, Synced(s.active), Content(s.active), false);
  }

  lemma AddEmpty(t: LogState)
    requires Inv(t) && !t.failed && t.active.records > 0
    requires t.active.file.synced == |t.active.file.data| == t.active.sizeBytes
    ensures var u := t.(sealed := Segs(t), active := EmptySegment(t.nextOffset));
            Inv(u) && SameLog(t, u) && (Contiguous(Segs(t)) ==> Contiguous(Segs(u)))
  {
    hide Content, SegHolds, FrameStart, LogOf;
    var e := EmptySegment(t.nextOffset);
    EmptyHolds(e.base, t.limits.indexIntervalBytes);
    ContentIs(e, [], t.limits.indexIntervalBytes, false);
    NothingStartsAFrame();
    LogIsAll(t);
    assert AllSealed(Segs(t), t.limits);
    OrderedAfterEmpty(t, e);
  }

  lemma OrderedAfterEmpty(t: LogState, e: SegState)
    requires Ordered(Segs(t)) && e.base == EndOf(t.active) && t.active.records >= 0
    ensures Ordered(Segs(t) + [e]) && (Contiguous(Segs(t)) ==> Contiguous(Segs(t) + [e]))
  {
    var a, b := Segs(t), Segs(t) + [e];
    assert forall i | 0 <= i < |a| :: a[i] == b[i];
    assert a[|t.sealed|] == t.active && b[|a|] == e;
    forall i | 0 <= i < |a|
      ensures EndOf(b[i]) <= e.base
    {
      if i < |t.sealed| {
        assert EndOf(a[i]) <= a[|t.sealed|].base;
      }
    }
  }

  /** The effect of an append: exactly one record more when it reports success, none otherwise. */
  ghost predicate AppendEffect(s: LogState, t: LogState, res: AppendResult, r: Record) {
    && Inv(t) && t.limits == s.limits
    && (Contiguous(Segs(s)) ==> Contiguous(Segs(t)))
    && match res
       case Appended(q) => q == r && !t.failed && GrownBy(s, t, r)
       case Uncertain => t.failed && SameLog(s, t)
       case _ => t == s
  }

  lemma FencedOnly(s: LogState, r: Record)
    requires Inv(s)
    ensures AppendEffect(s, s.(failed := true), Uncertain, r)
  {
    hide Content, AllSealed, Ordered, Contiguous, FrameStart, Tail, Inv;
    FenceKeeps(s);
  }

  /** A write that stops part-way, or whose sync fails, leaves the start of one frame behind. */
  lemma PartialWrite(s: LogState, r: Record, bytes: seq<byte>, sync: bool)
    requires Inv(s) && !s.failed && Encodable(r) && bytes <= Frame(r) && !NeedsRoll(s, r)
    ensures var w := Written(s.active, s.limits.indexIntervalBytes, bytes, sync);
            AppendEffect(s, s.(active := w, failed := true), Uncertain, r)
  {
    hide Content, SegHolds, AllSealed, Ordered, Contiguous, LogOf, Frame, Encodable, Tail, IndexUpTo, FrameStarts;
    ActiveHolds(s);
    var w := Written(s.active, s.limits.indexIntervalBytes, bytes, sync);
    WrittenHolds(s.active, Content(s.active), s.limits.indexIntervalBytes, bytes, sync);
    assert FrameStart(Tail(w));
    ReplaceActive(s, w, Content(s.active), true);
  }

  lemma WholeWrite(s: LogState, r: Record, sync: bool)
    requires Inv(s) && !s.failed && Encodable(r) && r.offset == s.nextOffset && !NeedsRoll(s, r)
    ensures var w := Written(s.active, s.limits.indexIntervalBytes, Frame(r), sync);
            AppendEffect(s, s.(active := Published(w, |Frame(r)|), nextOffset := s.nextOffset + 1), Appended(r), r)
  {
    hide Content, SegHolds, AllSealed, Ordered, Contiguous, LogOf, Frame, Encodable, Tail, FrameStart, IndexUpTo,
         FrameStarts;
    ActiveHolds(s);
    var recs := Content(s.active);
    var w := Written(s.active, s.limits.indexIntervalBytes, Frame(r), sync);
    WrittenHolds(s.active, recs, s.limits.indexIntervalBytes, Frame(r), sync);
    PublishedHolds(w, recs, s.limits.indexIntervalBytes, r);
    NothingStartsAFrame();
    ReplaceActive(s, Published(w, |Frame(r)|), recs + [r], false);
    ConcatAssoc(LogOf(s.sealed), recs, [r]);
  }

  lemma PublishKeeps(s: LogState, r: Record, acks: int, f: Faults)
    requires Inv(s) && !s.failed && Encodable(r) && r.offset == s.nextOffset && !NeedsRoll(s, r)
    ensures var (t, res) := PublishSpec(s, r, acks, f);
            AppendEffect(s, t, res, r) && (res.Appended? || res.Uncertain?)
  {
    hide Inv, NeedsRoll, Frame, Encodable, AppendEffect, Written, Published, DueForIndex;
    var frame := Frame(r);
    var n := if f.wrote < |frame| then f.wrote else |frame|;
    FencedOnly(s, r);
    assert s == s.(active := s.active);
    PartialWrite(s, r, frame[..n], false);
    PartialWrite(s, r, frame, acks == ACKS_LEADER);
    WholeWrite(s, r, acks == ACKS_LEADER);
  }

  lemma FencingKeepsLog(s: LogState)
    ensures Log(s.(failed := true)) == Log(s)
  {
  }

  lemma EffectAfterRoll(s: LogState, m: LogState, t: LogState, res: AppendResult, r: Record)
    requires SameLog(s, m) && m.limits == s.limits && (Contiguous(Segs(s)) ==> Contiguous(Segs(m)))
    requires AppendEffect(m, t, res, r) && (res.Appended? || res.Uncertain?)
    ensures AppendEffect(s, t, res, r)
  {
    hide Log, Inv, Contiguous;
  }

  /** Every append keeps the invariant; it publishes its record exactly when it says so. */
  lemma AppendKeeps(s: LogState, key: seq<byte>, value: seq<byte>, acks: int, now: Int64, f: Faults)
    requires Inv(s)
    ensures var (t, res) := AppendSpec(s, key, value, acks, now, f);
            AppendEffect(s, t, res, NewRecord(s, key, value, now))
  {
    hide Log, Contiguous, Content, Frame, Encodable, PublishSpec, RollSpec, Inv;
    var r := NewRecord(s, key, value, now);
    var (t, res) := AppendSpec(s, key, value, acks, now, f);
    if s.failed || (acks != ACKS_NONE && acks != ACKS_LEADER) || s.nextOffset == MAX_INT64 || !Encodable(r) {
      assert t == s;
    } else if NeedsRoll(s, r) {
      RollKeeps(s, f);
      var (rolled, ok) := RollSpec(s, f);
      if ok {
        PublishKeeps(rolled, r, acks, f);
        EffectAfterRoll(s, rolled, t, res, r);
      } else {
        FencingKeepsLog(rolled);
        assert t == rolled.(failed := true);
      }
    } else {
      PublishKeeps(s, r, acks, f);
    }
  }

  lemma PublishKeepsFirst(s: LogState, r: Record, acks: int, f: Faults)
    ensures Segs(PublishSpec(s, r, acks, f).0)[0].base == Segs(s)[0].base
  {
    hide Frame;
  }

  lemma AppendKeepsFirst(s: LogState, key: seq<byte>, value: seq<byte>, acks: int, now: Int64, f: Faults)
    ensures Segs(AppendSpec(s, key, value, acks, now, f).0)[0].base == Segs(s)[0].base
  {
    hide PublishSpec, Frame, Encodable;
    var r := NewRecord(s, key, value, now);
    PublishKeepsFirst(s, r, acks, f);
    PublishKeepsFirst(RollSpec(s, f).0, r, acks, f);
  }

  // ----- what an append answers -----

  /** An append that no file operation is to blame for refusing. */
  predicate Accepted(s: LogState, key: seq<byte>, value: seq<byte>, acks: int) {
    && !s.failed && (acks == 0 || acks == 1) && s.nextOffset != 0x7fff_ffff_ffff_ffff
    && 21 + |key| + |value| <= 0x10_0000
  }

  /** The active segment has a record and no room for this one. */
  predicate Rolls(s: LogState, key: seq<byte>, value: seq<byte>) {
    s.active.records > 0 && s.active.sizeBytes + 21 + |key| + |value| > s.limits.maxSegmentBytes
  }

  /** The first record of a segment, or one an interval of bytes after the last indexed one. */
  predicate Indexes(s: LogState, key: seq<byte>, value: seq<byte>) {
    || Rolls(s, key, value) || s.active.records == 0
    || s.active.sizeBytes - s.active.lastIndexedPos >= s.limits.indexIntervalBytes
  }

  predicate RollWorks(f: Faults) {
    f.sealSync && f.sealIndexSync && f.create && f.createIndex && f.newSync && f.dirSync
  }

  /** Every file operation the append needs works. */
  predicate AllWorks(s: LogState, key: seq<byte>, value: seq<byte>, acks: int, f: Faults) {
    && (Rolls(s, key, value) ==> RollWorks(f)) && (Indexes(s, key, value) ==> f.indexWrite)
    && f.writeOk && f.wrote >= 21 + |key| + |value|
    && (acks == 1 ==> f.sync && f.indexSync)
  }

  /** Which answer an append gives, for any state, input and failures. */
  lemma AppendAnswers(s: LogState, key: seq<byte>, value: seq<byte>, acks: int, now: Int64, f: Faults)
    ensures var res := AppendSpec(s, key, value, acks, now, f).1;
            && (res == Appended(Record(s.nextOffset, now, key, value))
                <==> Accepted(s, key, value, acks) && AllWorks(s, key, value, acks, f))
            && (res.Appended? ==> res.record == Record(s.nextOffset, now, key, value))
            && (res == Uncertain <==> Accepted(s, key, value, acks) && !AllWorks(s, key, value, acks, f))
            && (res == Fenced <==> s.failed)
            && (res == UnknownAcks <==> !s.failed && acks != 0 && acks != 1)
            && (res == OffsetOverflow
                <==> !s.failed && (acks == 0 || acks == 1) && s.nextOffset == 0x7fff_ffff_ffff_ffff)
            && (res == TooLargeToAppend
                <==> && !s.failed && (acks == 0 || acks == 1) && s.nextOffset != 0x7fff_ffff_ffff_ffff
                     && 21 + |key| + |value| > 0x10_0000)
  {
    hide Frame;
    var r := NewRecord(s, key, value, now);
    FrameLength(r);
  }

  lemma FrameLength(r: Record)
    ensures |Frame(r)| == 21 + |r.key| + |r.value|
  {
  }

  /** Where an accepted record goes: into the active segment if there is room, else into a new one after
      the old one has been sealed and synced. */
  lemma AppendPlaces(s: LogState, key: seq<byte>, value: seq<byte>, acks: int, now: Int64, f: Faults)
    requires AppendSpec(s, key, value, acks, now, f).1.Appended?
    ensures var t := AppendSpec(s, key, value, acks, now, f).0; var len := 21 + |key| + |value|;
            if Rolls(s, key, value) then
              && t.sealed == s.sealed + [s.active.(file := FileState(s.active.file.data, |s.active.file.data|))]
              && t.active.base == s.nextOffset && t.active.records == 1 && t.active.sizeBytes == len
            else
              && t.sealed == s.sealed && t.active.base == s.active.base
              && t.active.records == s.active.records + 1 && t.active.sizeBytes == s.active.sizeBytes + len
  {
    hide Frame;
    FrameLength(NewRecord(s, key, value, now));
  }

  /** What an accepted append leaves in the file, once a roll and an index entry it needs have worked: as
      much of the frame as could be written, synced only if asked to, wholly written and the sync works. */
  lemma AppendBytes(s: LogState, key: seq<byte>, value: seq<byte>, acks: int, now: Int64, f: Faults)
    requires Accepted(s, key, value, acks)
    requires (Rolls(s, key, value) ==> RollWorks(f)) && (Indexes(s, key, value) ==> f.indexWrite)
    ensures var file := AppendSpec(s, key, value, acks, now, f).0.active.file;
            var was := if Rolls(s, key, value) then FileState([], 0) else s.active.file;
            var frame := Frame(Record(s.nextOffset, now, key, value));
            && file.data == was.data + (if f.wrote < |frame| then frame[..f.wrote] else frame)
            && file.synced == if f.wrote >= |frame| && f.writeOk && acks == 1 && f.sync then |file.data| else was.synced
  {
    hide Frame;
    var frame := Frame(NewRecord(s, key, value, now));
    FrameLength(NewRecord(s, key, value, now));
    assert frame[..|frame|] == frame;
  }

  /** Without the index entry it needs, a record is not written at all. */
  lemma IndexFails(s: LogState, key: seq<byte>, value: seq<byte>, acks: int, now: Int64, f: Faults)
    requires Accepted(s, key, value, acks) && Indexes(s, key, value) && !f.indexWrite
    requires Rolls(s, key, value) ==> RollWorks(f)
    ensures var t := AppendSpec(s, key, value, acks, now, f).0;
            t.active == if Rolls(s, key, value) then SegState(s.nextOffset, FileState([], 0), 0, 0, [], 0) else s.active
  {
    hide Frame;
    FrameLength(NewRecord(s, key, value, now));
  }

  /** What a roll does as far as its operations work: nothing before the old file is synced; a new file
      once it is created, in use only if all the rest works. */
  lemma RollOutcome(s: LogState, f: Faults)
    ensures var (t, ok) := RollSpec(s, f);
            var empty := SegState(s.nextOffset, FileState([], 0), 0, 0, [], 0);
            var sealed := s.active.(file := FileState(s.active.file.data, |s.active.file.data|));
            && (ok <==> RollWorks(f))
            && (if !f.sealSync then t == s
                else if ok then
                  t == s.(sealed := s.sealed + [sealed], active := empty)
                else
                  t == s.(active := sealed, stray := s.stray || (f.sealIndexSync && f.create)))
  {
  }

  /** A roll that a whole append depends on and that fails leaves just this behind, and a fenced log. */
  lemma RollFails(s: LogState, key: seq<byte>, value: seq<byte>, acks: int, now: Int64, f: Faults)
    requires Accepted(s, key, value, acks) && Rolls(s, key, value) && !RollWorks(f)
    ensures AppendSpec(s, key, value, acks, now, f) == (RollSpec(s, f).0.(failed := true), Uncertain)
  {
    hide Frame;
    FrameLength(NewRecord(s, key, value, now));
  }
}
