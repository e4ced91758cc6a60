/** What an indexed read must return, and why decoding from an index entry gets there. */
module ReadSlices {
  import opened Bytes
  import opened Records
  import opened FrameRuns
  import opened SparseIndex
  import opened SegmentScan
  import opened LogStates
  import opened LogInvariant

  // ----- specification -----

  /** The records at or after an offset. */
  function FromOffset(log: seq<Record>, offset: int): seq<Record> {
    if log == [] || log[0].offset >= offset then log else FromOffset(log[1..], offset)
  }

  /** The longest leading part within both budgets, but at least one record when there is one. */
  ghost predicate IsSlice(avail: seq<Record>, out: seq<Record>, maxRecords: int, maxBytes: int) {
    && out <= avail && |out| <= maxRecords
    && (avail != [] ==> out != [])
    && (|out| <= 1 || |Frames(out)| <= maxBytes)
    && (|out| < |avail| && |out| < maxRecords ==> |Frames(avail[..|out| + 1])| > maxBytes)
  }

  lemma ShorterSlice(avail: seq<Record>, a: seq<Record>, b: seq<Record>, maxRecords: int, maxBytes: int)
    requires IsSlice(avail, a, maxRecords, maxBytes) && IsSlice(avail, b, maxRecords, maxBytes)
    ensures |b| <= |a|
  {
    hide Frames;
    if |a| < |b| {
      assert avail[..|b|] == b;
      FramePosMonotone(avail, |a| + 1, |b|);
    }
  }

  /** The budgets leave no choice: two slices of the same records are equal. */
  lemma SliceIsUnique(avail: seq<Record>, a: seq<Record>, b: seq<Record>, maxRecords: int, maxBytes: int)
    requires IsSlice(avail, a, maxRecords, maxBytes) && IsSlice(avail, b, maxRecords, maxBytes)
    ensures a == b
  {
    hide IsSlice;
    ShorterSlice(avail, a, b, maxRecords, maxBytes);
    ShorterSlice(avail, b, a, maxRecords, maxBytes);
    SliceIsPrefix(avail, a, maxRecords, maxBytes);
    SliceIsPrefix(avail, b, maxRecords, maxBytes);
  }

  lemma SliceIsPrefix(avail: seq<Record>, a: seq<Record>, maxRecords: int, maxBytes: int)
    requires IsSlice(avail, a, maxRecords, maxBytes)
    ensures a <= avail && a == avail[..|a|]
  {
  }

  lemma {:induction false} FromOffsetSplit(a: seq<Record>, b: seq<Record>, offset: int)
    requires forall i | 0 <= i < |a| :: a[i].offset < offset
    requires b != [] ==> b[0].offset >= offset
    ensures FromOffset(a + b, offset) == b
  {
    if a == [] {
      assert a + b == b;
    } else {
      assert (a + b)[1..] == a[1..] + b;
      FromOffsetSplit(a[1..], b, offset);
    }
  }

  /** In a log without gaps that starts at `first`, offsets are positions. */
  lemma FromOffsetInRun(log: seq<Record>, first: int, offset: int)
    requires Run(log, first) && first <= offset <= first + |log|
    ensures FromOffset(log, offset) == log[offset - first..]
  {
    var k := offset - first;
    FromOffsetSplit(log[..k], log[k..], offset);
    assert log == log[..k] + log[k..];
  }

  // ----- reading inside a segment -----

  lemma DecodeAt(recs: seq<Record>, base: int, k: nat)
    requires Run(recs, base) && k < |recs|
    ensures var n := |Frame(recs[k])|;
            && Decode(Frames(recs[k..]), base + k) == Good(recs[k], n)
            && n <= |Frames(recs[k..])| && Frames(recs[k..])[n..] == Frames(recs[k + 1..])
  {
    hide Decode, Frame, Frames;
    FramesCons(recs[k..]);
    assert recs[k..][1..] == recs[k + 1..];
    DecodeOfFrame(recs[k], Frames(recs[k + 1..]), base + k);
  }

  lemma EntryFor(sg: SegState, recs: seq<Record>, interval: int, fenced: bool, target: nat, e: IndexEntry)
    requires interval > 0 && SegHolds(sg, recs, interval, fenced) && IsLookup(sg.index, target, e)
    requires target < |recs| || target == |recs| == 0
    ensures 0 <= e.relOffset <= target && e.position == FramePos(recs, e.relOffset)
    ensures FramePos(recs, target) - e.position < interval
  {
    hide Frames, Run, IndexUpTo;
    var starts := FrameStarts(recs);
    assert recs[..0] == [];
    EmptyRun();
    var k := if sg.index == IndexFor(recs, interval) then |recs| else |recs| + 1;
    if target < k {
      LookupIsClose(starts, k, interval, target, e);
    } else {
      EmptyIndexLookup(sg.index, e);
    }
  }

  lemma EmptyIndexLookup(index: seq<IndexEntry>, e: IndexEntry)
    requires index == [] && IsLookup(index, 0, e)
    ensures e == IndexEntry(0, 0)
  {
  }

  lemma IndexSearchable(sg: SegState, recs: seq<Record>, interval: int, fenced: bool)
    requires SegHolds(sg, recs, interval, fenced)
    ensures Increasing(sg.index)
  {
    hide Frames, Run, IndexUpTo;
    IndexShape(FrameStarts(recs), |recs|, interval);
    IndexShape(FrameStarts(recs), |recs| + 1, interval);
  }

  /** The published bytes from an entry's position on are the frames from its record on. */
  lemma SectionFrom(sg: SegState, recs: seq<Record>, interval: int, fenced: bool, k: nat)
    requires SegHolds(sg, recs, interval, fenced) && k <= |recs|
    ensures FramePos(recs, k) <= sg.sizeBytes
    ensures sg.file.data[FramePos(recs, k)..sg.sizeBytes] == Frames(recs[k..])
  {
    hide Frames, Run, IndexFor, IndexUpTo, FrameStarts;
    FramesSplit(recs, k);
    var pos := FramePos(recs, k);
    assert sg.file.data[pos..sg.sizeBytes] == PublishedBytes(sg)[pos..];
  }

  /** Index cost bound: from the entry found for any published record, fewer than one index interval
      of bytes are decoded and thrown away, so at most interval/21 records. */
  lemma SkippedBytes(sg: SegState, limits: Limits, fenced: bool, target: nat, e: IndexEntry)
    requires limits.indexIntervalBytes > 0 && SegOk(sg, limits.indexIntervalBytes, fenced)
    requires target < sg.records && IsLookup(sg.index, target, e)
    ensures 0 <= e.relOffset <= target
    ensures e.position == FramePos(Content(sg), e.relOffset)
    ensures FramePos(Content(sg), target) - e.position < limits.indexIntervalBytes
    ensures 21 * (target - e.relOffset) < limits.indexIntervalBytes
  {
    hide Frames, Run, SegHolds, Content, IsLookup;
    HoldsFacts(sg, Content(sg), limits.indexIntervalBytes, fenced);
    EntryFor(sg, Content(sg), limits.indexIntervalBytes, fenced, target, e);
    FramePosSteps(Content(sg), e.relOffset, target);
  }

  /** The in-memory index of a healthy segment: strictly increasing, every entry at its record's
      frame start, and at most one entry per interval of published bytes plus the first. */
  lemma PublishedIndex(sg: SegState, limits: Limits)
    requires limits.indexIntervalBytes > 0 && SegOk(sg, limits.indexIntervalBytes, false)
    ensures forall i, j | 0 <= i < j < |sg.index| ::
              sg.index[i].relOffset < sg.index[j].relOffset && sg.index[i].position < sg.index[j].position
    ensures forall i | 0 <= i < |sg.index| ::
              && 0 <= sg.index[i].relOffset < sg.records
              && sg.index[i].position == FramePos(Content(sg), sg.index[i].relOffset)
    ensures |sg.index| <= 1 + sg.sizeBytes / limits.indexIntervalBytes
  {
    hide Frames, Run, SegHolds, Content, IndexUpTo;
    var recs, interval := Content(sg), limits.indexIntervalBytes;
    HoldsFacts(sg, recs, interval, false);
    var starts := FrameStarts(recs);
    IndexShape(starts, |recs|, interval);
    forall i, j | 0 <= i < j < |sg.index|
      ensures sg.index[i].position < sg.index[j].position
    {
      IncreasingPositions(sg.index, interval, i, j);
    }
    assert recs[..|recs|] == recs;
    if recs != [] {
      forall i | 0 <= i < |recs|
        ensures starts[i] <= starts[|recs|]
      {
        FramePosMonotone(recs, i, |recs|);
      }
      IndexSize(starts, |recs|, interval);
    } else {
      EmptyRun();
    }
  }

  lemma {:induction false} IncreasingPositions(index: seq<IndexEntry>, interval: int, i: nat, j: nat)
    requires interval > 0 && Spaced(index, interval) && i < j < |index|
    ensures index[i].position < index[j].position
  {
    if i < j - 1 {
      IncreasingPositions(index, interval, i, j - 1);
    }
  }

  datatype Progress = Progress(out: seq<Record>, totalBytes: int, full: bool)

  /** What has been read so far keeps within both budgets. */
  ghost predicate Fits(p: Progress, maxRecords: int, maxBytes: int) {
    && |p.out| <= maxRecords && p.totalBytes == |Frames(p.out)|
    && (|p.out| <= 1 || p.totalBytes <= maxBytes)
  }

  /** Of a segment's records, those from k up to c have been added to what was read before. */
  ghost predicate Reading(p: Progress, was: Progress, recs: seq<Record>, k: int, c: int, maxRecords: int,
                          maxBytes: int) {
    && 0 <= k && 0 <= c <= |recs| && (k < |recs| || k == 0)
    && p.out == was.out + recs[k..if c < k then k else c]
    && Fits(p, maxRecords, maxBytes) && !p.full
  }

  /** `count` records from k on were added; reading stopped at the segment's end, at the record
      budget, or because the next frame is over the byte budget. */
  ghost predicate SegmentRead(p: Progress, was: Progress, recs: seq<Record>, k: int, count: int, maxRecords: int,
                              maxBytes: int) {
    && 0 <= k && 0 <= count && k + count <= |recs| && p.out == was.out + recs[k..k + count]
    && Fits(p, maxRecords, maxBytes)
    && if p.full then k + count < |recs| && |p.out| < maxRecords && p.out != []
       && |Frames(p.out + [recs[k + count]])| > maxBytes
       else k + count == |recs| || |p.out| == maxRecords
  }

  lemma StartReading(was: Progress, recs: seq<Record>, k: int, c: int, maxRecords: int, maxBytes: int)
    requires 0 <= c <= k && (k < |recs| || k == 0) && Fits(was, maxRecords, maxBytes) && !was.full
    ensures Reading(was, was, recs, k, c, maxRecords, maxBytes)
  {
  }

  lemma KeepReading(p: Progress, was: Progress, recs: seq<Record>, k: int, c: int, maxRecords: int, maxBytes: int)
    requires Reading(p, was, recs, k, c, maxRecords, maxBytes) && c < |recs| && |p.out| < maxRecords
    ensures c < k ==> Reading(p, was, recs, k, c + 1, maxRecords, maxBytes)
    ensures c >= k ==>
              var n := |Frame(recs[c])|;
              if |p.out| > 0 && p.totalBytes + n > maxBytes
              then SegmentRead(p.(full := true), was, recs, k, c - k, maxRecords, maxBytes)
              else Reading(Progress(p.out + [recs[c]], p.totalBytes + n, false), was, recs, k, c + 1,
                           maxRecords, maxBytes)
  {
    hide Frames, Frame;
    FramesSnoc(p.out, recs[c]);
    if c >= k {
      assert recs[k..c + 1] == recs[k..c] + [recs[c]];
    }
  }

  lemma FinishReading(p: Progress, was: Progress, recs: seq<Record>, k: int, c: int, maxRecords: int, maxBytes: int)
    returns (count: int)
    requires Reading(p, was, recs, k, c, maxRecords, maxBytes) && (c == |recs| || |p.out| >= maxRecords)
    requires |was.out| < maxRecords
    ensures SegmentRead(p, was, recs, k, count, maxRecords, maxBytes)
  {
    count := c - k;
  }

  /** One segment read: either the slice is complete, or the whole of the segment has been added. */
  lemma SegmentReadSlice(avail: seq<Record>, p: Progress, was: Progress, recs: seq<Record>, later: seq<Record>, k: int,
                         count: int, maxRecords: int, maxBytes: int)
    requires SegmentRead(p, was, recs, k, count, maxRecords, maxBytes) && 0 < maxRecords
    requires k <= |recs| && avail == was.out + (recs[k..] + later)
    ensures p.full || |p.out| == maxRecords ==> IsSlice(avail, p.out, maxRecords, maxBytes)
    ensures !p.full && |p.out| != maxRecords ==> avail == p.out + later
  {
    hide Frames;
    var rest := recs[k + count..] + later;
    assert recs[k..] == recs[k..k + count] + recs[k + count..];
    assert avail == p.out + rest;
    if p.full {
      assert rest[0] == recs[k + count];
      assert avail[..|p.out| + 1] == p.out + [rest[0]];
    } else if |p.out| != maxRecords {
      assert rest == later;
    }
  }

  lemma EmptySlice(maxRecords: int, maxBytes: int)
    requires maxRecords > 0
    ensures IsSlice([], [], maxRecords, maxBytes)
  {
  }

  lemma NothingMoreToRead(avail: seq<Record>, p: Progress, maxRecords: int, maxBytes: int)
    requires Fits(p, maxRecords, maxBytes) && avail == p.out + []
    ensures IsSlice(avail, p.out, maxRecords, maxBytes)
  {
    hide Frames;
  }

  // ----- across segments -----

  ghost predicate Countable(sg: SegState) {
    Run(Content(sg), sg.base) && |Content(sg)| == sg.records
  }

  lemma {:induction false} EarlierOffsets(segs: seq<SegState>, offset: int)
    requires forall i | 0 <= i < |segs| :: Countable(segs[i]) && EndOf(segs[i]) <= offset
    ensures forall k | 0 <= k < |LogOf(segs)| :: LogOf(segs)[k].offset < offset
  {
    hide Content;
    if segs != [] {
      var n := |segs| - 1;
      assert forall i | 0 <= i < n :: segs[..n][i] == segs[i];
      EarlierOffsets(segs[..n], offset);
      assert Countable(segs[n]);
    }
  }

  /** Where the records at or after an offset start: inside the first segment that ends past it, and
      at its front when the offset lies in a gap before it. */
  function FirstWanted(sg: SegState, offset: int): int {
    if offset < sg.base then 0 else offset - sg.base
  }

  lemma WantedRecords(segs: seq<SegState>, si: nat, offset: int)
    requires si < |segs| && forall i | 0 <= i < |segs| :: Countable(segs[i])
    requires forall i | 0 <= i < si :: EndOf(segs[i]) <= offset
    requires EndOf(segs[si]) > offset && (segs[si].records > 0 || si == |segs| - 1)
    ensures var k := FirstWanted(segs[si], offset);
            && 0 <= k <= |Content(segs[si])|
            && FromOffset(LogOf(segs), offset) == Content(segs[si])[k..] + LogOf(segs[si + 1..])
  {
    hide Content, FromOffset, LogOf;
    var front, later := segs[..si], LogOf(segs[si + 1..]);
    var recs, k := Content(segs[si]), FirstWanted(segs[si], offset);
    assert Countable(segs[si]);
    assert forall i | 0 <= i < si :: front[i] == segs[i];
    EarlierOffsets(front, offset);
    LogOfConcat(front + [segs[si]], segs[si + 1..]);
    LogOfSnoc(front, segs[si]);
    assert segs == front + [segs[si]] + segs[si + 1..];
    var below, avail := LogOf(front) + recs[..k], recs[k..] + later;
    assert LogOf(segs) == below + avail;
    if recs == [] {
      EmptyTail(segs, si);
      assert avail == [];
    } else {
      assert avail[0] == recs[k];
    }
    FromOffsetSplit(below, avail, offset);
  }

  lemma EmptyTail(segs: seq<SegState>, si: nat)
    requires si == |segs| - 1
    ensures LogOf(segs[si + 1..]) == []
  {
  }

  lemma AllCountable(s: LogState)
    requires Inv(s)
    ensures forall i | 0 <= i < |Segs(s)| :: Countable(Segs(s)[i])
  {
    hide Content, FrameStart, Run, SegHolds;
    forall i | 0 <= i < |Segs(s)|
      ensures Countable(Segs(s)[i])
    {
      if i < |s.sealed| {
        assert Sealed(s.sealed[i], s.limits);
        HoldsFacts(s.sealed[i], Content(s.sealed[i]), s.limits.indexIntervalBytes, false);
      } else {
        HoldsFacts(s.active, Content(s.active), s.limits.indexIntervalBytes, s.failed);
      }
    }
  }

  /** Nothing is published at or after the log end. */
  lemma NothingAtEnd(s: LogState)
    requires Inv(s)
    ensures FromOffset(Log(s), s.nextOffset) == []
  {
    hide Content, FromOffset, LogOf, Countable, Sealed, ActiveOk;
    AllCountable(s);
    LogIsAll(s);
    var segs := Segs(s);
    forall i | 0 <= i < |segs|
      ensures EndOf(segs[i]) <= s.nextOffset
    {
      RecordsCounted(s, i);
      RecordsCounted(s, |s.sealed|);
    }
    EarlierOffsets(segs, s.nextOffset);
    FromOffsetSplit(Log(s), [], s.nextOffset);
    assert Log(s) + [] == Log(s);
  }

  lemma RecordsCounted(s: LogState, i: nat)
    requires Inv(s) && i < |Segs(s)|
    ensures Segs(s)[i].records >= 0
  {
    hide Content, Run, SegHolds;
    AllCountable(s);
    assert Countable(Segs(s)[i]);
  }

  lemma EndAfterStart(s: LogState)
    requires Inv(s)
    ensures Segs(s)[0].base <= s.nextOffset
  {
    hide Content, Sealed, ActiveOk;
    RecordsCounted(s, 0);
    RecordsCounted(s, |s.sealed|);
    assert |s.sealed| > 0 ==> EndOf(Segs(s)[0]) <= Segs(s)[|s.sealed|].base;
  }

  lemma LogOfFrom(segs: seq<SegState>, i: nat)
    requires i < |segs|
    ensures LogOf(segs[i..]) == Content(segs[i]) + LogOf(segs[i + 1..])
  {
    hide Content;
    assert segs[i..] == [segs[i]] + segs[i + 1..];
    LogOfConcat([segs[i]], segs[i + 1..]);
    assert [segs[i]][..0] == [];
  }

  lemma SearchFacts(s: LogState)
    requires Inv(s)
    ensures forall i, j | 0 <= i <= j < |Segs(s)| :: EndOf(Segs(s)[i]) <= EndOf(Segs(s)[j])
    ensures EndOf(Segs(s)[|Segs(s)| - 1]) == s.nextOffset
  {
    hide Content, Sealed, ActiveOk;
    forall i | 0 <= i < |Segs(s)|
      ensures Segs(s)[i].records >= 0
    {
      RecordsCounted(s, i);
    }
  }

  lemma ReadStart(s: LogState, first: nat, offset: int)
    requires Inv(s) && first < |Segs(s)| && EndOf(Segs(s)[first]) > offset
    requires forall i | 0 <= i < first :: EndOf(Segs(s)[i]) <= offset
    requires offset >= Segs(s)[0].base
    ensures var segs := Segs(s); var k := FirstWanted(segs[first], offset);
            && 0 <= k <= |Content(segs[first])|
            && FromOffset(Log(s), offset) == [] + (Content(segs[first])[k..] + LogOf(segs[first + 1..]))
  {
    hide Content, LogOf, FromOffset, Sealed, ActiveOk;
    AllCountable(s);
    LogIsAll(s);
    if first < |s.sealed| {
      SealedNotEmpty(s, first);
    }
    WantedRecords(Segs(s), first, offset);
  }

  lemma SealedNotEmpty(s: LogState, i: nat)
    requires Inv(s) && i < |s.sealed|
    ensures Segs(s)[i].records > 0
  {
    hide SegOk, ActiveOk;
    assert Sealed(s.sealed[i], s.limits);
  }

  lemma EmptyProgress(maxRecords: int, maxBytes: int)
    requires maxRecords > 0
    ensures Fits(Progress([], 0, false), maxRecords, maxBytes)
  {
  }

  lemma SegmentIsReadable(s: LogState, i: nat)
    requires Inv(s) && i < |Segs(s)|
    ensures SegHolds(Segs(s)[i], Content(Segs(s)[i]), s.limits.indexIntervalBytes, s.failed && i == |s.sealed|)
    ensures s.limits.indexIntervalBytes > 0
  {
    hide Content, SegHolds;
    if i < |s.sealed| {
      assert Sealed(s.sealed[i], s.limits);
    }
  }

  /** Reading starts at the offset in the first segment, and at the base of every later one. */
  lemma StartsInside(s: LogState, first: nat, i: nat, offset: int)
    requires Inv(s) && first <= i < |Segs(s)| && EndOf(Segs(s)[first]) > offset
    ensures var sg := Segs(s)[i]; var start := if offset < sg.base then sg.base else offset;
            && (start < EndOf(sg) || start == sg.base)
            && start - sg.base == FirstWanted(sg, offset)
            && (i > first ==> start == sg.base)
  {
    hide Content, Sealed, ActiveOk;
    assert EndOf(Segs(s)[first]) <= Segs(s)[i].base || i == first;
  }

  lemma HoldsCount(sg: SegState, recs: seq<Record>, interval: int, fenced: bool)
    requires SegHolds(sg, recs, interval, fenced)
    ensures Run(recs, sg.base) && sg.records == |recs|
  {
  }

  // ----- the loop over segments -----

  /** What is left to read when the loop has come to segment i. */
  ghost predicate IsRest(s: LogState, first: nat, i: nat, offset: int, rest: seq<Record>) {
    && first <= i <= |Segs(s)|
    && if i == first && first < |Segs(s)| then
         var k := FirstWanted(Segs(s)[first], offset); var recs := Content(Segs(s)[first]);
         0 <= k <= |recs| && rest == recs[k..] + LogOf(Segs(s)[first + 1..])
       else rest == LogOf(Segs(s)[i..])
  }

  ghost function FirstRest(s: LogState, first: nat, offset: int): (rest: seq<Record>)
    requires Inv(s) && first < |Segs(s)| && EndOf(Segs(s)[first]) > offset
    requires forall i | 0 <= i < first :: EndOf(Segs(s)[i]) <= offset
    requires offset >= Segs(s)[0].base
    ensures IsRest(s, first, first, offset, rest) && FromOffset(Log(s), offset) == [] + rest
  {
    ReadStart(s, first, offset);
    Content(Segs(s)[first])[FirstWanted(Segs(s)[first], offset)..] + LogOf(Segs(s)[first + 1..])
  }

  lemma AfterSegment(s: LogState, first: nat, i: nat, offset: int, avail: seq<Record>, rest: seq<Record>,
                     was: Progress, p: Progress, k: int, count: int, maxRecords: int, maxBytes: int)
    returns (rest': seq<Record>)
    requires i < |Segs(s)| && IsRest(s, first, i, offset, rest) && avail == was.out + rest && 0 < maxRecords
    requires k == FirstWanted(Segs(s)[i], offset) && (i > first ==> k == 0)
    requires SegmentRead(p, was, Content(Segs(s)[i]), k, count, maxRecords, maxBytes)
    ensures Fits(p, maxRecords, maxBytes)
    ensures p.full || |p.out| >= maxRecords ==> IsSlice(avail, p.out, maxRecords, maxBytes)
    ensures !p.full && |p.out| < maxRecords ==> IsRest(s, first, i + 1, offset, rest') && avail == p.out + rest'
  {
    hide Content, LogOf, Frames;
    var recs := Content(Segs(s)[i]);
    rest' := LogOf(Segs(s)[i + 1..]);
    if i > first {
      LogOfFrom(Segs(s), i);
      assert recs[0..] == recs;
    }
    SegmentReadSlice(avail, p, was, recs, rest', k, count, maxRecords, maxBytes);
  }

  lemma RestIsEmpty(s: LogState, first: nat, i: nat, offset: int, rest: seq<Record>)
    requires IsRest(s, first, i, offset, rest) && i == |Segs(s)| && first < i
    ensures rest == []
  {
    hide Content;
    assert Segs(s)[i..] == [];
  }

  // ----- ascending offsets -----

  ghost predicate Ascending(log: seq<Record>, end: int) {
    && (forall i, j | 0 <= i < j < |log| :: log[i].offset < log[j].offset)
    && (forall i | 0 <= i < |log| :: log[i].offset < end)
  }

  lemma {:induction false} SegmentsAscend(segs: seq<SegState>)
    requires Ordered(segs) && forall i | 0 <= i < |segs| :: Countable(segs[i]) && segs[i].records >= 0
    ensures segs != [] ==> Ascending(LogOf(segs), EndOf(segs[|segs| - 1]))
    ensures segs == [] ==> LogOf(segs) == []
  {
    hide Content;
    if segs != [] {
      var n := |segs| - 1;
      var front, base := segs[..n], segs[n].base;
      assert forall i | 0 <= i < n :: front[i] == segs[i];
      SegmentsAscend(front);
      EarlierOffsets(front, base);
      RunAfter(LogOf(front), Content(segs[n]), base);
    }
  }

  lemma RunAfter(a: seq<Record>, b: seq<Record>, base: int)
    requires forall i, j | 0 <= i < j < |a| :: a[i].offset < a[j].offset
    requires forall i | 0 <= i < |a| :: a[i].offset < base
    requires Run(b, base)
    ensures Ascending(a + b, base + |b|)
  {
  }

  /** Offsets in the log ascend, and stay below the log end. */
  lemma LogAscends(s: LogState)
    requires Inv(s)
    ensures Ascending(Log(s), s.nextOffset)
  {
    hide Content, LogOf, Countable, Sealed, ActiveOk, Ascending;
    AllCountable(s);
    LogIsAll(s);
    forall i | 0 <= i < |Segs(s)|
      ensures Segs(s)[i].records >= 0
    {
      RecordsCounted(s, i);
    }
    SegmentsAscend(Segs(s));
  }

  lemma {:induction false} FromOffsetCuts(log: seq<Record>, offset: int)
    ensures |FromOffset(log, offset)| <= |log|
    ensures log == log[..|log| - |FromOffset(log, offset)|] + FromOffset(log, offset)
    ensures FromOffset(log, offset) != [] ==> FromOffset(log, offset)[0].offset >= offset
  {
    if log != [] && log[0].offset < offset {
      FromOffsetCuts(log[1..], offset);
    }
  }

  /** Reading on after the last record taken gives exactly what was left. */
  lemma ReadOn(log: seq<Record>, end: int, offset: int, taken: seq<Record>)
    requires Ascending(log, end) && taken != [] && taken <= FromOffset(log, offset)
    ensures var next := taken[|taken| - 1].offset + 1;
            offset < next <= end && FromOffset(log, offset) == taken + FromOffset(log, next)
  {
    hide FromOffset;
    var avail := FromOffset(log, offset);
    FromOffsetCuts(log, offset);
    var skipped, rest := log[..|log| - |avail|], avail[|taken|..];
    var n := |skipped| + |taken|;
    assert avail == taken + rest;
    ConcatAssoc(skipped, taken, rest);
    assert log == (skipped + taken) + rest;
    assert log[n - 1] == taken[|taken| - 1];
    assert log[|skipped|] == taken[0];
    forall i | 0 <= i < n
      ensures (skipped + taken)[i].offset < log[n - 1].offset + 1
    {
      assert (skipped + taken)[i] == log[i];
    }
    assert rest != [] ==> rest[0] == log[n];
    FromOffsetSplit(skipped + taken, rest, log[n - 1].offset + 1);
  }

  lemma {:induction false} ContiguousIsRun(segs: seq<SegState>)
    requires segs != [] && Contiguous(segs) && forall i | 0 <= i < |segs| :: Countable(segs[i])
    ensures Run(LogOf(segs), segs[0].base) && segs[0].base + |LogOf(segs)| == EndOf(segs[|segs| - 1])
  {
    hide Content;
    var n := |segs| - 1;
    assert Countable(segs[n]);
    if n == 0 {
      assert LogOf(segs) == [] + Content(segs[0]);
    } else {
      assert forall i | 0 <= i < n :: segs[..n][i] == segs[i];
      ContiguousIsRun(segs[..n]);
      RunConcat(LogOf(segs[..n]), Content(segs[n]), segs[0].base);
    }
  }

  // ----- reading one offset -----

  /** Reading at an offset begins with this record. */
  ghost predicate ReadsAt(s: LogState, r: Record) {
    var avail := FromOffset(Log(s), r.offset);
    Segs(s)[0].base <= r.offset < s.nextOffset && avail != [] && avail[0] == r
  }

  lemma InLogIsRead(s: LogState, r: Record)
    requires Inv(s) && r in Log(s)
    ensures ReadsAt(s, r)
  {
    hide Inv, Log, FromOffset;
    LogAscends(s);
    var i :| 0 <= i < |Log(s)| && Log(s)[i] == r;
    FromOffsetSplit(Log(s)[..i], Log(s)[i..], r.offset);
    assert Log(s)[..i] + Log(s)[i..] == Log(s);
    FirstOffset(s, i);
  }

  /** No record lies below the first base. */
  lemma FirstOffset(s: LogState, i: nat)
    requires Inv(s) && i < |Log(s)|
    ensures Segs(s)[0].base <= Log(s)[i].offset
  {
    hide Content, Sealed, ActiveOk, LogOf, Countable;
    AllCountable(s);
    LogIsAll(s);
    var x := RecordInSegment(Segs(s), Log(s)[i]);
    assert Countable(Segs(s)[x]);
    RecordInside(Segs(s)[x], Log(s)[i]);
    if x > 0 {
      RecordsCounted(s, 0);
      assert EndOf(Segs(s)[0]) <= Segs(s)[x].base;
    }
  }

  lemma {:induction false} RecordInSegment(segs: seq<SegState>, r: Record) returns (x: nat)
    requires r in LogOf(segs)
    ensures x < |segs| && r in Content(segs[x])
  {
    hide Content;
    x := |segs| - 1;
    if r !in Content(segs[x]) {
      x := RecordInSegment(segs[..x], r);
    }
  }

  lemma RecordInside(sg: SegState, r: Record)
    requires Countable(sg) && r in Content(sg)
    ensures sg.base <= r.offset < EndOf(sg)
  {
    hide Content, Encodable;
  }

  lemma {:induction false} SegmentInLog(segs: seq<SegState>, x: nat, r: Record)
    requires x < |segs| && r in Content(segs[x])
    ensures r in LogOf(segs)
  {
    hide Content;
    if x < |segs| - 1 {
      SegmentInLog(segs[..|segs| - 1], x, r);
    }
  }

  lemma RecordFor(sg: SegState, offset: int) returns (r: Record)
    requires Countable(sg) && sg.base <= offset < EndOf(sg)
    ensures r in Content(sg) && r.offset == offset
  {
    hide Content, Encodable;
    r := Content(sg)[offset - sg.base];
  }

  /** Below the log end, the first record read is the one asked for exactly when the offset lies in a
      surviving segment. */
  lemma FirstReadIsAskedIff(s: LogState, offset: int)
    requires Inv(s) && Segs(s)[0].base <= offset < s.nextOffset
    ensures var avail := FromOffset(Log(s), offset);
            (avail != [] && avail[0].offset == offset)
            <==> exists x :: 0 <= x < |Segs(s)| && Segs(s)[x].base <= offset < EndOf(Segs(s)[x])
  {
    hide Content, LogOf, FromOffset, Countable, Inv;
    AllCountable(s);
    LogIsAll(s);
    var avail := FromOffset(Log(s), offset);
    if avail != [] && avail[0].offset == offset {
      FromOffsetCuts(Log(s), offset);
      assert avail[0] in Log(s);
      var x := RecordInSegment(Segs(s), avail[0]);
      RecordInside(Segs(s)[x], avail[0]);
    }
    if x :| 0 <= x < |Segs(s)| && Segs(s)[x].base <= offset < EndOf(Segs(s)[x]) {
      var r := RecordFor(Segs(s)[x], offset);
      SegmentInLog(Segs(s), x, r);
      InLogIsRead(s, r);
    }
  }
}
