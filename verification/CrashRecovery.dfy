/** Crashes at any point of any run: what is on the device is always enough to reopen the partition,
    and the recovered log never loses an acknowledged record. */
module CrashRecovery {
  import opened Bytes
  import opened Records
  import opened FrameRuns
  import opened SparseIndex
  import opened SegmentScan
  import opened LogStates
  import opened LogInvariant
  import opened Reopening
  import opened ReadSlices
  import opened RetentionPolicy

  // ----- the system -----

  /** A partition is served by a running process, or only its files are left. */
  datatype World = Up(log: LogState) | Down(disk: seq<DiskFile>)

  /** What the partition was asked to keep and has not deleted, oldest first, the last record perhaps
      only in part; the offset below which everything is acknowledged with acks=1 or older than a record
      that is; and whether the segments follow one another without a gap. */
  datatype History = History(written: seq<Record>, ackedTo: int, gapless: bool)

  datatype Config = Config(world: World, hist: History)

  datatype Event =
    | Append(key: seq<byte>, value: seq<byte>, acks: int, now: Int64, faults: Faults)
    | DeleteSegments(gone: set<int>)
    | Stop
    | Crash
    | Open

  /** A crash keeps a prefix of each file, at least as long as what was synced. */
  ghost predicate FileAfterCrash(f: FileState, g: FileState) {
    f.synced <= |g.data| && g.data <= f.data && g.synced == |g.data|
  }

  /** A file whose directory entry was not synced may be gone altogether. */
  ghost predicate DiskAfterCrash(d: seq<DiskFile>, e: seq<DiskFile>) {
    && (|e| == |d| || (d != [] && !d[|d| - 1].entrySynced && |e| == |d| - 1))
    && forall i | 0 <= i < |e| :: e[i].base == d[i].base && e[i].entrySynced && FileAfterCrash(d[i].file, e[i].file)
  }

  function HistoryAfter(h: History, r: Record, acks: int, res: AppendResult): History {
    match res
    case Appended(_) =>
      h.(written := h.written + [r], ackedTo := if acks == ACKS_LEADER then r.offset + 1 else h.ackedTo)
    case Uncertain => h.(written := h.written + [r])
    case _ => h
  }

  function After<T>(s: seq<T>, n: nat): seq<T> {
    if n <= |s| then s[n..] else []
  }

  /** The records of deleted segments are no longer asked for. */
  ghost function HistoryWithout(h: History, s: LogState, gone: set<int>): History {
    History(LogOf(Keep(s.sealed, gone)) + After(h.written, |LogOf(s.sealed)|), h.ackedTo,
            Contiguous(Segs(Without(s, gone))))
  }

  ghost predicate Step(c: Config, ev: Event, c': Config, limits: Limits) {
    match ev
    case Append(key, value, acks, now, faults) =>
      c.world.Up? &&
      var (t, res) := AppendSpec(c.world.log, key, value, acks, now, faults);
      c' == Config(Up(t), HistoryAfter(c.hist, NewRecord(c.world.log, key, value, now), acks, res))
    case DeleteSegments(gone) =>
      c.world.Up? && !c.world.log.failed &&
      c' == Config(Up(Without(c.world.log, gone)), HistoryWithout(c.hist, c.world.log, gone))
    case Stop =>
      c.world.Up? && c' == Config(Down(DiskOf(c.world.log)), c.hist)
    case Crash =>
      c'.world.Down? && c'.hist == c.hist &&
      DiskAfterCrash(if c.world.Up? then DiskOf(c.world.log) else c.world.disk, c'.world.disk)
    case Open =>
      c.world.Down? && OpenSpec(c.world.disk, limits).Some? &&
      var t := OpenSpec(c.world.disk, limits).value;
      c' == Config(Up(t), c.hist.(written := Log(t)))
  }

  /** A freshly created partition: one empty segment, its directory entry synced. */
  function Fresh(limits: Limits): Config {
    Config(Up(LogState([], EmptySegment(0), 0, false, false, limits)), History([], 0, true))
  }

  ghost predicate IsRun(run: seq<Config>, evs: seq<Event>, limits: Limits) {
    && limits.indexIntervalBytes > 0
    && |run| == |evs| + 1 && run[0] == Fresh(limits)
    && forall i | 0 <= i < |evs| :: Step(run[i], evs[i], run[i + 1], limits)
  }

  // ----- the invariant -----

  /** The active file holds a prefix of the frames of the records meant for it, the acknowledged
      ones within its synced part. */
  ghost predicate LastFileOk(f: FileState, rest: seq<Record>, acked: int, limits: Limits) {
    && f.synced <= |f.data| && f.data <= Frames(rest)
    && (acked > 0 ==> acked <= |rest| && FramePos(rest, acked) <= f.synced)
    && forall j | 0 <= j <= |rest| && FramePos(rest, j) <= |f.data| ::
       j <= 1 || FramePos(rest, j) <= limits.maxSegmentBytes
  }

  /** The sealed segments, and a last one at `base`, lie in order, and without a gap if so recorded. */
  ghost predicate Placed(sealed: seq<SegState>, base: int, gapless: bool) {
    var all := sealed + [EmptySegment(base)];
    Ordered(all) && (gapless ==> Contiguous(all))
  }

  ghost predicate Covers(sealed: seq<SegState>, base: int, last: FileState, h: History, limits: Limits) {
    var k := |LogOf(sealed)|;
    && limits.indexIntervalBytes > 0
    && AllSealed(sealed, limits) && Placed(sealed, base, h.gapless)
    && LogOf(sealed) <= h.written && Run(h.written[k..], base)
    && LastFileOk(last, h.written[k..], h.ackedTo - base, limits)
  }

  ghost predicate UpOk(s: LogState, h: History, limits: Limits) {
    && Inv(s) && s.limits == limits
    && Covers(s.sealed, s.active.base, s.active.file, h, limits)
    && Log(s) <= h.written && h.ackedTo <= s.nextOffset
    && (h.written == Log(s) || (s.failed && |h.written| == |Log(s)| + 1))
  }

  ghost predicate DiskCovers(d: seq<DiskFile>, h: History, limits: Limits) {
    d != [] &&
    var n := |d| - 1;
    var sealed := OpenSealedSpec(d[..n], limits.indexIntervalBytes);
    && (forall i | 0 <= i < n :: d[i].entrySynced)
    && sealed.Some? && Covers(sealed.value, d[n].base, d[n].file, h, limits)
  }

  ghost predicate DownOk(d: seq<DiskFile>, h: History, limits: Limits) {
    && DiskCovers(d, h, limits)
    && (!d[|d| - 1].entrySynced ==> DiskCovers(d[..|d| - 1], h, limits))
  }

  ghost predicate ConfigOk(c: Config, limits: Limits) {
    match c.world
    case Up(s) => UpOk(s, c.hist, limits)
    case Down(d) => DownOk(d, c.hist, limits)
  }

  // ----- the active file -----

  lemma CrashedLastFile(f: FileState, g: FileState, rest: seq<Record>, acked: int, limits: Limits)
    requires LastFileOk(f, rest, acked, limits) && FileAfterCrash(f, g)
    ensures LastFileOk(g, rest, acked, limits)
  {
    hide Frames;
  }

  /** One more record is meant for the file, and some bytes of its frame get there. */
  lemma LastFileGrows(f: FileState, g: FileState, rest: seq<Record>, r: Record, acked: int, acked': int, limits: Limits)
    requires LastFileOk(f, rest, acked, limits) && f.data == Frames(rest)
    requires f.data <= g.data && g.data[|f.data|..] <= Frame(r) && f.synced <= g.synced <= |g.data|
    requires |g.data| == |f.data| + |Frame(r)| ==> rest == [] || |g.data| <= limits.maxSegmentBytes
    requires acked' == acked || (acked' == |rest| + 1 && g.synced == |g.data| == |f.data| + |Frame(r)|)
    ensures LastFileOk(g, rest + [r], acked', limits)
  {
    hide Frames, Frame, FramePos;
    var more := rest + [r];
    assert g.data <= Frames(more) && |Frames(more)| == |f.data| + |Frame(r)| by {
      FramesSnoc(rest, r);
      PrefixExtends(f.data, g.data, Frame(r));
    }
    assert forall j | 0 <= j <= |more| && FramePos(more, j) <= |g.data| ::
        j <= 1 || FramePos(more, j) <= limits.maxSegmentBytes by {
      WholeRunLimited(f, rest, acked, limits);
      LimitGrows(rest, r, |g.data|, limits.maxSegmentBytes);
    }
    AckedGrows(rest, r, acked, acked', f.synced, g.synced);
  }

  lemma AckedGrows(rest: seq<Record>, r: Record, acked: int, acked': int, synced: nat, synced': nat)
    requires acked > 0 ==> acked <= |rest| && FramePos(rest, acked) <= synced
    requires synced <= synced'
    requires acked' == acked || (acked' == |rest| + 1 && synced' == |Frames(rest)| + |Frame(r)|)
    ensures acked' > 0 ==> acked' <= |rest| + 1 && FramePos(rest + [r], acked') <= synced'
  {
    hide Frames, Frame, FramePos;
    FramePosOfMore(rest, r);
  }

  lemma WholeRunLimited(f: FileState, rest: seq<Record>, acked: int, limits: Limits)
    requires LastFileOk(f, rest, acked, limits) && f.data == Frames(rest)
    ensures forall j | 0 <= j <= |rest| :: j <= 1 || FramePos(rest, j) <= limits.maxSegmentBytes
  {
    hide Frames;
    assert rest[..|rest|] == rest;
    forall j | 0 <= j <= |rest|
      ensures j <= 1 || FramePos(rest, j) <= limits.maxSegmentBytes
    {
      FramePosMonotone(rest, j, |rest|);
    }
  }

  lemma LimitGrows(rest: seq<Record>, r: Record, n: nat, max: int)
    requires forall j | 0 <= j <= |rest| :: j <= 1 || FramePos(rest, j) <= max
    requires n <= |Frames(rest)| + |Frame(r)|
    requires n == |Frames(rest)| + |Frame(r)| ==> rest == [] || n <= max
    ensures forall j | 0 <= j <= |rest| + 1 && FramePos(rest + [r], j) <= n :: j <= 1 || FramePos(rest + [r], j) <= max
  {
    hide Frames, Frame, FramePos;
    FramePosOfMore(rest, r);
    forall j | 0 <= j <= |rest| + 1 && FramePos(rest + [r], j) <= n
      ensures j <= 1 || FramePos(rest + [r], j) <= max
    {
      if j <= |rest| {
        assert FramePos(rest + [r], j) == FramePos(rest, j);
      }
    }
  }

  lemma LimitedActive(sg: SegState, rest: seq<Record>, c: nat, f: FileState, acked: int, limits: Limits)
    requires LastFileOk(f, rest, acked, limits) && c <= |rest|
    requires FramePos(rest, c) <= |f.data| && sg.records == c && sg.sizeBytes == FramePos(rest, c)
    ensures Limited(sg, limits.maxSegmentBytes)
  {
    hide Frames;
  }

  /** Scanning the active file finds every acknowledged record and nothing that was not written. */
  lemma OpenLastFile(base: int, f: FileState, entrySynced: bool, rest: seq<Record>, acked: int, limits: Limits)
    requires LastFileOk(f, rest, acked, limits) && Run(rest, base)
    ensures var res := OpenSegmentSpec(DiskFile(base, f, entrySynced), true, limits.indexIntervalBytes);
            && res.Some? && res.value.base == base
            && ActiveOk(res.value, limits, false)
            && Content(res.value) <= rest && acked <= |Content(res.value)|
            && LastFileOk(res.value.file, Content(res.value), acked, limits)
  {
    hide Frames, Run, Decode, Frame, Parse, IndexFor, FrameStart;
    var n := |f.data|;
    var c := CountWithin(rest, n);
    CountWithinIsLargest(rest, n);
    ParsePrefix(rest, n, base);
    assert f.data == Frames(rest)[..n];
    RunSplit(rest, c, base);
    var recs, size := rest[..c], FramePos(rest, c);
    FramesSplit(rest, c);
    var sg := OpenSegmentSpec(DiskFile(base, f, entrySynced), true, limits.indexIntervalBytes).value;
    assert PublishedBytes(sg) == f.data[..size] == Frames(recs);
    assert Tail(sg) == [];
    ContentIs(sg, recs, limits.indexIntervalBytes, false);
    LimitedActive(sg, rest, c, f, acked, limits);
    NothingStartsAFrame();
    ScannedLastFile(sg, f, rest, c, acked, limits);
  }

  lemma ScannedLastFile(sg: SegState, f: FileState, rest: seq<Record>, c: nat, acked: int, limits: Limits)
    requires LastFileOk(f, rest, acked, limits) && c <= |rest|
    requires sg.file.data == Frames(rest[..c]) && |sg.file.data| <= |f.data|
    requires forall j | 0 <= j <= |rest| && FramePos(rest, j) <= |f.data| :: j <= c
    requires sg.file == f || sg.file.synced == |sg.file.data|
    ensures acked <= c && LastFileOk(sg.file, rest[..c], acked, limits)
  {
    hide Frames;
    FramePosOfPrefix(rest, c);
    if acked > 0 {
      FramePosSteps(rest, acked, c);
    }
  }

  // ----- opening -----

  lemma PlacedSegs(sealed: seq<SegState>, active: SegState, gapless: bool)
    requires Placed(sealed, active.base, gapless)
    ensures Ordered(sealed + [active]) && (gapless ==> Contiguous(sealed + [active]))
  {
    var all, segs := sealed + [EmptySegment(active.base)], sealed + [active];
    forall i | 0 <= i < |segs|
      ensures segs[i].base == all[i].base && (i < |sealed| ==> EndOf(segs[i]) == EndOf(all[i]))
    {
    }
  }

  lemma SegsPlaced(sealed: seq<SegState>, active: SegState, gapless: bool)
    requires Ordered(sealed + [active]) && (gapless ==> Contiguous(sealed + [active]))
    ensures Placed(sealed, active.base, gapless)
  {
    var all, segs := sealed + [EmptySegment(active.base)], sealed + [active];
    forall i | 0 <= i < |segs|
      ensures segs[i].base == all[i].base && (i < |sealed| ==> EndOf(segs[i]) == EndOf(all[i]))
    {
    }
  }

  lemma PlacedGrows(sealed: seq<SegState>, sg: SegState, gapless: bool)
    requires Placed(sealed, sg.base, gapless) && sg.records >= 0
    ensures Placed(sealed + [sg], EndOf(sg), gapless)
  {
    PlacedSegs(sealed, sg, gapless);
    var segs := sealed + [sg];
    var all := segs + [EmptySegment(EndOf(sg))];
    assert forall i | 0 <= i < |segs| :: all[i] == segs[i];
    forall i | 0 <= i < |segs|
      ensures EndOf(segs[i]) <= EndOf(sg)
    {
      assert i < |sealed| ==> EndOf(segs[i]) <= segs[|sealed|].base;
    }
  }

  /** Opening succeeds on whatever a run leaves on the device. The recovered log is a prefix of what
      was written and contains everything acknowledged. */
  lemma OpenRecovers(d: seq<DiskFile>, h: History, limits: Limits)
    requires DiskCovers(d, h, limits)
    ensures var t := OpenSpec(d, limits);
            && t.Some? && !t.value.failed
            && Log(t.value) <= h.written && h.ackedTo <= t.value.nextOffset
            && UpOk(t.value, h.(written := Log(t.value)), limits)
  {
    hide Run, Parse, SegHolds, AllSealed, Contiguous, Ordered, LogOf, LastFileOk, OpenSegmentSpec, Content, FrameStart,
         Placed;
    var n := |d| - 1;
    var sealed := OpenSealedSpec(d[..n], limits.indexIntervalBytes).value;
    var k := |LogOf(sealed)|;
    var rest := h.written[k..];
    OpenLastFile(d[n].base, d[n].file, d[n].entrySynced, rest, h.ackedTo - d[n].base, limits);
    var t := OpenSpec(d, limits).value;
    var recs := Content(t.active);
    assert t.sealed == sealed;
    assert h.written == LogOf(sealed) + rest;
    assert Log(t) == h.written[..k + |recs|];
    assert Log(t)[k..] == recs;
    HoldsFacts(t.active, recs, limits.indexIntervalBytes, false);
    PlacedSegs(sealed, t.active, h.gapless);
  }

  // ----- appending -----

  /** What one publish step does to the active file. */
  lemma PublishedFile(s: LogState, r: Record, acks: int, f: Faults)
    ensures var (t, res) := PublishSpec(s, r, acks, f); var was, now := s.active.file, t.active.file;
            && t.sealed == s.sealed && t.active.base == s.active.base
            && was.data <= now.data && now.data[|was.data|..] <= Frame(r)
            && (was.synced <= |was.data| ==> was.synced <= now.synced <= |now.data|)
            && (res.Appended? ==>
                  |now.data| == |was.data| + |Frame(r)| && (acks == ACKS_LEADER ==> now.synced == |now.data|))
            && (res.Appended? || res.Uncertain?)
  {
    hide Frame;
  }

  lemma HealthyFile(s: LogState, h: History, limits: Limits)
    requires UpOk(s, h, limits) && !s.failed
    ensures var k := |LogOf(s.sealed)|;
            && k <= |h.written| && h.written == Log(s) && h.written[k..] == Content(s.active)
            && s.active.file.data == Frames(h.written[k..])
            && s.active.records == |h.written[k..]| && s.nextOffset == s.active.base + |h.written[k..]|
            && s.active.sizeBytes == |s.active.file.data|
  {
    hide Run, Parse, AllSealed, Contiguous, Ordered, LogOf, LastFileOk, Content, FrameStart, Frames, IndexFor;
    ActiveHolds(s);
    HoldsFacts(s.active, Content(s.active), limits.indexIntervalBytes, false);
    assert s.active.file.data == PublishedBytes(s.active) + Tail(s.active);
  }

  /** The files still cover the history when one more record, written whole or in part, is meant for
      the active file. */
  lemma CoversMore(s: LogState, g: FileState, h: History, r: Record, ackedTo': int, limits: Limits)
    requires UpOk(s, h, limits) && !s.failed && Encodable(r) && r.offset == s.nextOffset
    requires s.active.file.data <= g.data && g.data[|s.active.file.data|..] <= Frame(r)
    requires s.active.file.synced <= g.synced <= |g.data|
    requires |g.data| == |s.active.file.data| + |Frame(r)| ==> !NeedsRoll(s, r)
    requires || ackedTo' == h.ackedTo
             || (ackedTo' == r.offset + 1 && g.synced == |g.data| == |s.active.file.data| + |Frame(r)|)
    ensures Covers(s.sealed, s.active.base, g, h.(written := h.written + [r], ackedTo := ackedTo'), limits)
  {
    hide Run, Parse, AllSealed, Contiguous, Ordered, LogOf, LastFileOk, Content, FrameStart, Frames, Frame, Placed,
         Encodable, Inv;
    var k := |LogOf(s.sealed)|;
    HealthyFile(s, h, limits);
    var rest, base := h.written[k..], s.active.base;
    assert (h.written + [r])[k..] == rest + [r];
    RunSnoc(rest, r, base);
    LastFileGrows(s.active.file, g, rest, r, h.ackedTo - base, ackedTo' - base, limits);
  }

  lemma PublishUp(s: LogState, h: History, r: Record, acks: int, f: Faults, limits: Limits)
    requires UpOk(s, h, limits) && !s.failed && Encodable(r) && r.offset == s.nextOffset && !NeedsRoll(s, r)
    ensures var (t, res) := PublishSpec(s, r, acks, f);
            UpOk(t, HistoryAfter(h, r, acks, res), limits)
  {
    hide Run, Parse, AllSealed, Contiguous, Ordered, LogOf, LastFileOk, Content, FrameStart, Frame, Covers, Encodable,
         Inv, PublishSpec, Log, NeedsRoll;
    PublishKeeps(s, r, acks, f);
    PublishedFile(s, r, acks, f);
    var (t, res) := PublishSpec(s, r, acks, f);
    var h' := HistoryAfter(h, r, acks, res);
    FileInRange(s);
    CoversMore(s, t.active.file, h, r, h'.ackedTo, limits);
  }

  lemma FileInRange(s: LogState)
    requires Inv(s)
    ensures s.active.file.synced <= |s.active.file.data|
  {
    hide Content;
    HoldsFacts(s.active, Content(s.active), s.limits.indexIntervalBytes, s.failed);
  }

  lemma RollUp(s: LogState, h: History, f: Faults, limits: Limits)
    requires UpOk(s, h, limits) && !s.failed && s.active.records > 0
    ensures var (t, ok) := RollSpec(s, f);
            if ok then UpOk(t, h, limits)
            else !t.failed && UpOk(t.(stray := false), h, limits) && Inv(t.(failed := true))
                 && t.active.file.data == s.active.file.data
  {
    hide Run, Parse, AllSealed, Contiguous, Ordered, LogOf, LastFileOk, Content, FrameStart, Inv, SegHolds, Placed;
    RollKeeps(s, f);
    SyncedUp(s, h, limits);
    var synced := s.(active := Synced(s.active));
    EmptyActiveUp(synced, h, limits);
    NotStray(s);
  }

  lemma SyncedUp(s: LogState, h: History, limits: Limits)
    requires UpOk(s, h, limits) && !s.failed
    ensures var t := s.(active := Synced(s.active));
            UpOk(t, h, limits) && (s.active.records > 0 ==> Sealed(t.active, limits))
  {
    hide Run, Parse, AllSealed, Contiguous, Ordered, LogOf, Content, FrameStart, Inv, SegHolds, Placed, Frames;
    SyncActive(s);
  }

  lemma EmptyActiveUp(s: LogState, h: History, limits: Limits)
    requires UpOk(s, h, limits) && !s.failed && (s.active.records > 0 ==> Sealed(s.active, limits))
    ensures s.active.records > 0 ==>
              var t := s.(sealed := Segs(s), active := EmptySegment(s.nextOffset)); UpOk(t, h, limits)
  {
    hide Run, Parse, Ordered, LogOf, Content, FrameStart, Inv, SegOk, Frames;
    if s.active.records > 0 {
      FileInRange(s);
      HealthyFile(s, h, limits);
      AddEmpty(s);
      LogIsAll(s);
      EmptyRun();
      assert h.written[|h.written|..] == [];
      LastFileEmpty([], h.ackedTo - s.nextOffset, limits);
      PlacedGrows(s.sealed, s.active, h.gapless);
    }
  }

  /** A record that a failed roll kept out of every file. */
  lemma RollFailedUp(s: LogState, m: LogState, h: History, r: Record, limits: Limits)
    requires UpOk(m.(stray := false), h, limits) && !m.failed && Inv(m.(failed := true))
    requires Encodable(r) && r.offset == m.nextOffset
    ensures UpOk(m.(failed := true), h.(written := h.written + [r]), limits)
  {
    hide Run, Parse, AllSealed, Contiguous, Ordered, LogOf, LastFileOk, Content, FrameStart, Frame, Covers, Encodable,
         Inv;
    var s := m.(stray := false);
    FileInRange(m.(failed := true));
    CoversMore(s, m.active.file, h, r, h.ackedTo, limits);
  }

  lemma AppendUp(s: LogState, h: History, key: seq<byte>, value: seq<byte>, acks: int, now: Int64, f: Faults,
                 limits: Limits)
    requires UpOk(s, h, limits)
    ensures var (t, res) := AppendSpec(s, key, value, acks, now, f);
            UpOk(t, HistoryAfter(h, NewRecord(s, key, value, now), acks, res), limits)
  {
    hide UpOk, Frame, Encodable, PublishSpec, RollSpec, Inv;
    var r := NewRecord(s, key, value, now);
    if !s.failed && (acks == ACKS_NONE || acks == ACKS_LEADER) && s.nextOffset != MAX_INT64 && Encodable(r) {
      if NeedsRoll(s, r) {
        RollUp(s, h, f, limits);
        RollKeepsOffset(s, f, h, limits);
        var (rolled, ok) := RollSpec(s, f);
        if ok {
          PublishUp(rolled, h, r, acks, f, limits);
          PublishedFile(rolled, r, acks, f);
        } else {
          RollFailedUp(s, rolled, h, r, limits);
        }
      } else {
        PublishUp(s, h, r, acks, f, limits);
        PublishedFile(s, r, acks, f);
      }
    }
  }

  lemma RollKeepsOffset(s: LogState, f: Faults, h: History, limits: Limits)
    requires UpOk(s, h, limits) && !s.failed && s.active.records > 0
    ensures var (t, ok) := RollSpec(s, f); t.nextOffset == s.nextOffset && (ok ==> t.active.records == 0 && !t.failed)
  {
    hide Inv, Covers, Log;
  }

  // ----- deleting segments -----

  lemma DeleteUp(s: LogState, h: History, limits: Limits, gone: set<int>)
    requires UpOk(s, h, limits) && !s.failed
    ensures UpOk(Without(s, gone), HistoryWithout(h, s, gone), limits)
  {
    hide Run, LogOf, Content, ActiveOk, Sealed, LastFileOk, Ordered, Contiguous, Keep, Placed;
    var t, h' := Without(s, gone), HistoryWithout(h, s, gone);
    var front, rest := LogOf(t.sealed), h.written[|LogOf(s.sealed)|..];
    WithoutKeeps(s, gone);
    SegsPlaced(t.sealed, t.active, h'.gapless);
    HealthyRest(s, h, limits);
    assert h'.written == front + rest;
    assert h'.written[|front|..] == rest;
  }

  lemma HealthyRest(s: LogState, h: History, limits: Limits)
    requires UpOk(s, h, limits) && !s.failed
    ensures |LogOf(s.sealed)| <= |h.written| && h.written[|LogOf(s.sealed)|..] == Content(s.active)
  {
    hide LogOf, Content, Inv, Covers;
  }

  // ----- stopping and crashing -----

  lemma StopDown(s: LogState, h: History, limits: Limits)
    requires UpOk(s, h, limits)
    ensures DownOk(DiskOf(s), h, limits)
  {
    hide Run, Parse, LogOf, Content, Covers, Ordered, Inv, OpenSealedSpec, Log;
    var healthyDisk := FilesOf(Segs(s));
    var n := |s.sealed|;
    assert healthyDisk[..n] == FilesOf(s.sealed);
    SealedOf(s, h, limits);
    RescanSealed(s.sealed, limits);
    assert DiskCovers(healthyDisk, h, limits);
    if s.stray {
      var d := DiskOf(s);
      assert d[..n + 1] == healthyDisk;
      StrayCovers(s, h, limits);
      RescanSealed(Segs(s), limits);
    } else {
      assert DiskOf(s) == healthyDisk;
    }
  }

  lemma SealedOf(s: LogState, h: History, limits: Limits)
    requires UpOk(s, h, limits)
    ensures AllSealed(s.sealed, limits)
  {
    hide Log;
  }

  lemma StrayCovers(s: LogState, h: History, limits: Limits)
    requires UpOk(s, h, limits) && s.stray
    ensures AllSealed(Segs(s), limits) && Covers(Segs(s), s.nextOffset, FileState([], 0), h, limits)
  {
    hide Run, Parse, LogOf, Content, Ordered, Frames, IndexFor;
    LogIsAll(s);
    HoldsFacts(s.active, Content(s.active), limits.indexIntervalBytes, false);
    PlacedGrows(s.sealed, s.active, h.gapless);
    StrayRest(s, h, limits);
    LastFileEmpty(h.written[|Log(s)|..], h.ackedTo - s.nextOffset, limits);
  }

  lemma StrayRest(s: LogState, h: History, limits: Limits)
    requires UpOk(s, h, limits) && s.stray
    ensures |Log(s)| <= |h.written| && Run(h.written[|Log(s)|..], s.nextOffset)
  {
    hide Parse, LogOf, Content, Ordered, Frames, IndexFor, LastFileOk, Placed, Encodable;
    var k := |LogOf(s.sealed)|;
    HoldsFacts(s.active, Content(s.active), limits.indexIntervalBytes, s.failed);
    var n := |Content(s.active)|;
    RunSplit(h.written[k..], n, s.active.base);
    assert h.written[k..][n..] == h.written[k + n..];
  }

  lemma LastFileEmpty(rest: seq<Record>, acked: int, limits: Limits)
    requires acked <= 0
    ensures LastFileOk(FileState([], 0), rest, acked, limits)
  {
    forall j | 0 <= j <= |rest| && FramePos(rest, j) <= 0
      ensures j <= 1
    {
      FramePosSteps(rest, 0, j);
    }
  }

  lemma {:induction false} OpenedFiles(d: seq<DiskFile>, interval: int)
    requires OpenSealedSpec(d, interval).Some?
    ensures forall i | 0 <= i < |d| :: OpenSealedSpec(d, interval).value[i].file == d[i].file
  {
    hide ScanOf;
    if d != [] {
      OpenedFiles(d[..|d| - 1], interval);
    }
  }

  /** Sealed files are wholly synced, so a crash leaves them as they are. */
  lemma CrashCovers(d: seq<DiskFile>, e: seq<DiskFile>, h: History, limits: Limits)
    requires DiskCovers(d, h, limits) && |e| == |d|
    requires forall i | 0 <= i < |e| ::
               e[i].base == d[i].base && e[i].entrySynced && FileAfterCrash(d[i].file, e[i].file)
    ensures DiskCovers(e, h, limits)
  {
    hide Run, Parse, LogOf, Content, SegOk, Placed, LastFileOk, OpenSealedSpec;
    var n := |d| - 1;
    var sealed := OpenSealedSpec(d[..n], limits.indexIntervalBytes).value;
    OpenedFiles(d[..n], limits.indexIntervalBytes);
    forall i | 0 <= i < n
      ensures e[i] == d[i]
    {
      assert sealed[i].file == d[..n][i].file == d[i].file;
      assert Sealed(sealed[i], limits);
    }
    assert e[..n] == d[..n];
    var k := |LogOf(sealed)|;
    CrashedLastFile(d[n].file, e[n].file, h.written[k..], h.ackedTo - d[n].base, limits);
  }

  lemma CrashDown(d: seq<DiskFile>, e: seq<DiskFile>, h: History, limits: Limits)
    requires DownOk(d, h, limits) && DiskAfterCrash(d, e)
    ensures DownOk(e, h, limits)
  {
    hide DiskCovers, FileAfterCrash;
    assert d != [] by {
      NotEmptyDisk(d, h, limits);
    }
    if |e| == |d| {
      CrashCovers(d, e, h, limits);
    } else {
      CrashCovers(d[..|d| - 1], e, h, limits);
    }
    NotEmptyDisk(e, h, limits);
  }

  lemma NotEmptyDisk(d: seq<DiskFile>, h: History, limits: Limits)
    requires DiskCovers(d, h, limits)
    ensures d != []
  {
  }

  // ----- whole runs -----

  lemma FreshOk(limits: Limits)
    requires limits.indexIntervalBytes > 0
    ensures ConfigOk(Fresh(limits), limits)
  {
    hide Parse, Frames, IndexUpTo, FrameStarts;
    EmptyRun();
    NothingStartsAFrame();
    EmptyHolds(0, limits.indexIntervalBytes);
    ContentIs(EmptySegment(0), [], limits.indexIntervalBytes, false);
    LastFileEmpty([], 0, limits);
    var none: seq<Record> := [];
    assert none[0..] == none;
  }

  lemma StepKeeps(c: Config, ev: Event, c': Config, limits: Limits)
    requires ConfigOk(c, limits) && Step(c, ev, c', limits)
    ensures ConfigOk(c', limits)
  {
    hide UpOk, DiskCovers, AppendSpec, OpenSpec, DiskOf, DiskAfterCrash, HistoryAfter, LogOf, HistoryWithout, Log,
         Without;
    match ev
    case Append(key, value, acks, now, faults) =>
      AppendUp(c.world.log, c.hist, key, value, acks, now, faults, limits);
    case DeleteSegments(gone) =>
      DeleteUp(c.world.log, c.hist, limits, gone);
    case Stop =>
      StopDown(c.world.log, c.hist, limits);
    case Crash =>
      if c.world.Up? {
        StopDown(c.world.log, c.hist, limits);
        CrashDown(DiskOf(c.world.log), c'.world.disk, c.hist, limits);
      } else {
        CrashDown(c.world.disk, c'.world.disk, c.hist, limits);
      }
    case Open =>
      OpenRecovers(c.world.disk, c.hist, limits);
  }

  lemma {:induction false} RunKeeps(run: seq<Config>, evs: seq<Event>, limits: Limits, i: nat)
    requires IsRun(run, evs, limits) && i < |run|
    ensures ConfigOk(run[i], limits)
  {
    hide ConfigOk, Step;
    if i == 0 {
      FreshOk(limits);
    } else {
      RunKeeps(run, evs, limits, i - 1);
      StepKeeps(run[i - 1], evs[i - 1], run[i], limits);
    }
  }

  /** A record the partition must not lose: acknowledged, and not deleted. */
  ghost predicate Promised(h: History, r: Record) {
    r in h.written && r.offset < h.ackedTo
  }

  /** Crash recovery: in every run of appends, rolls, failures, deletions of any sealed segments,
      restarts and crashes, the files left at any point reopen; the recovered log is a prefix of what
      was written and not deleted, at the same offsets, and holds everything acknowledged with acks=1.
      It has no gap unless deletions left one. */
  lemma RecoveryAlwaysSucceeds(run: seq<Config>, evs: seq<Event>, limits: Limits, i: nat)
    requires IsRun(run, evs, limits) && i < |run| && run[i].world.Down?
    ensures var t := OpenSpec(run[i].world.disk, limits); var h := run[i].hist;
            && t.Some? && Inv(t.value) && !t.value.failed
            && Log(t.value) <= h.written && (forall r | Promised(h, r) :: r in Log(t.value))
            && h.ackedTo <= t.value.nextOffset
            && (h.gapless ==> Contiguous(Segs(t.value)))
  {
    hide Step, OpenSpec, Log, LastFileOk, LogOf, IsRun, DiskCovers, UpOk, Promised;
    RunKeeps(run, evs, limits, i);
    var d, h := run[i].world.disk, run[i].hist;
    OpenRecovers(d, h, limits);
    var t := OpenSpec(d, limits).value;
    UpLayout(t, h.(written := Log(t)), limits);
    forall r | Promised(h, r)
      ensures r in Log(t)
    {
      OpenKeepsPromise(d, h, limits, r);
    }
  }

  lemma OpenKeepsPromise(d: seq<DiskFile>, h: History, limits: Limits, r: Record)
    requires DiskCovers(d, h, limits) && Promised(h, r)
    ensures OpenSpec(d, limits).Some? && r in Log(OpenSpec(d, limits).value)
  {
    hide Parse, SegHolds, AllSealed, Contiguous, Ordered, LogOf, LastFileOk, OpenSegmentSpec, Content, FrameStart,
         Placed, Encodable;
    OpenRecovers(d, h, limits);
    var n := |d| - 1;
    var sealed := OpenSealedSpec(d[..n], limits.indexIntervalBytes).value;
    var k := |LogOf(sealed)|;
    var t := OpenSpec(d, limits).value;
    OpenedBase(d[n], limits.indexIntervalBytes);
    ActiveCounts(t);
    KnownPosition(h.written, Log(t), k, d[n].base, t.nextOffset, r);
  }

  lemma OpenedBase(df: DiskFile, interval: int)
    ensures var res := OpenSegmentSpec(df, true, interval); res.Some? ==> res.value.base == df.base
  {
    hide ScanOf;
  }

  /** A record whose offset lies below the end of a prefix is in the prefix. */
  lemma KnownPosition(written: seq<Record>, log: seq<Record>, k: nat, base: int, end: int, r: Record)
    requires log <= written && k <= |log| && Run(written[k..], base) && end == base + |log| - k
    requires r in written && r.offset < end
    ensures r in log
  {
    var i :| 0 <= i < |written| && written[i] == r;
    if i >= k {
      assert written[k..][i - k].offset == base + (i - k);
    }
    assert log[i] == r;
  }

  /** What holds of a running partition: valid, without a gap unless deletions left one, and with every
      promised record to be read at its offset. */
  lemma UpLayout(s: LogState, h: History, limits: Limits)
    requires UpOk(s, h, limits)
    ensures Inv(s) && s.limits == limits && (h.gapless ==> Contiguous(Segs(s)))
  {
    hide Run, Parse, LogOf, LastFileOk, SegHolds, Ordered, Content, Contiguous, Placed;
    PlacedSegs(s.sealed, s.active, h.gapless);
  }

  lemma PromisedIsRead(s: LogState, h: History, limits: Limits, r: Record)
    requires UpOk(s, h, limits) && Promised(h, r)
    ensures ReadsAt(s, r)
  {
    hide Parse, LogOf, LastFileOk, SegHolds, Ordered, Content, Contiguous, Placed, Inv, Encodable, FromOffset;
    ActiveCounts(s);
    var k := |LogOf(s.sealed)|;
    KnownPosition(h.written, Log(s), k, s.active.base, s.nextOffset, r);
    InLogIsRead(s, r);
  }

  lemma ActiveCounts(s: LogState)
    requires Inv(s)
    ensures s.nextOffset == s.active.base + |Content(s.active)|
  {
    hide Content;
    HoldsFacts(s.active, Content(s.active), s.limits.indexIntervalBytes, s.failed);
  }

  lemma {:induction false} KeptRecords(segs: seq<SegState>, gone: set<int>, x: nat, r: Record)
    requires x < |segs| && segs[x].base !in gone && r in Content(segs[x])
    ensures r in LogOf(Keep(segs, gone))
  {
    hide Content;
    var n := |segs| - 1;
    if x < n {
      KeptRecords(segs[..n], gone, x, r);
    }
    if segs[n].base !in gone {
      LogOfSnoc(Keep(segs[..n], gone), segs[n]);
    }
  }

  /** An offset of a sealed segment that is deleted. */
  ghost predicate InDeleted(s: LogState, gone: set<int>, offset: int) {
    exists x :: 0 <= x < |s.sealed| && s.sealed[x].base in gone && s.sealed[x].base <= offset < EndOf(s.sealed[x])
  }

  ghost predicate DeletedAt(c: Config, ev: Event, offset: int) {
    c.world.Up? && ev.DeleteSegments? && InDeleted(c.world.log, ev.gone, offset)
  }

  lemma DeleteKeepsPromise(s: LogState, h: History, limits: Limits, gone: set<int>, r: Record)
    requires UpOk(s, h, limits) && Promised(h, r)
    ensures Promised(HistoryWithout(h, s, gone), r) || InDeleted(s, gone, r.offset)
  {
    hide Content, LogOf, Keep, Run, LastFileOk, Placed, ActiveOk, Sealed, Countable;
    var front := LogOf(s.sealed);
    if r in front {
      var x := RecordInSegment(s.sealed, r);
      if s.sealed[x].base in gone {
        AllCountable(s);
        assert Segs(s)[x] == s.sealed[x];
        RecordInside(s.sealed[x], r);
      } else {
        KeptRecords(s.sealed, gone, x, r);
      }
    } else {
      assert h.written == front + h.written[|front|..];
    }
  }

  /** One step keeps a promise, or deletes the segment the record is in. */
  lemma StepKeepsPromise(c: Config, ev: Event, c': Config, limits: Limits, r: Record)
    requires ConfigOk(c, limits) && Step(c, ev, c', limits) && Promised(c.hist, r)
    ensures Promised(c'.hist, r) || DeletedAt(c, ev, r.offset)
  {
    hide AppendSpec, OpenSpec, DiskOf, DiskAfterCrash, Log, LogOf, DiskCovers, UpOk, HistoryWithout, InDeleted;
    match ev
    case Append(key, value, acks, now, faults) =>
      AppendKeepsPromise(c.world.log, c.hist, limits, ev, r);
    case DeleteSegments(gone) =>
      DeleteKeepsPromise(c.world.log, c.hist, limits, gone, r);
    case Open =>
      OpenKeepsPromise(c.world.disk, c.hist, limits, r);
    case _ =>
  }

  lemma AppendKeepsPromise(s: LogState, h: History, limits: Limits, ev: Event, r: Record)
    requires UpOk(s, h, limits) && ev.Append? && Promised(h, r)
    ensures var (t, res) := AppendSpec(s, ev.key, ev.value, ev.acks, ev.now, ev.faults);
            Promised(HistoryAfter(h, NewRecord(s, ev.key, ev.value, ev.now), ev.acks, res), r)
  {
    hide AppendSpec, Log, LogOf, Covers, Inv;
  }

  /** Over any run a promised record stays promised, until a deletion takes its segment. */
  lemma {:induction false} PromisesAreKept(run: seq<Config>, evs: seq<Event>, limits: Limits, i: nat, j: nat, r: Record)
    requires IsRun(run, evs, limits) && i <= j < |run| && Promised(run[i].hist, r)
    ensures Promised(run[j].hist, r) || exists k :: i <= k < j && DeletedAt(run[k], evs[k], r.offset)
  {
    hide ConfigOk, Step, Promised, DeletedAt;
    if i < j {
      PromisesAreKept(run, evs, limits, i, j - 1, r);
      RunKeeps(run, evs, limits, j - 1);
      if Promised(run[j - 1].hist, r) {
        StepKeepsPromise(run[j - 1], evs[j - 1], run[j], limits, r);
      }
    }
  }

  /** An acknowledged record is never lost: once an append with acks=1 reports success, a read at its
      offset begins with that record in every later state of the partition, after any crashes and
      reopens, until a deletion takes the very segment it is in. */
  lemma AcknowledgedSurvives(run: seq<Config>, evs: seq<Event>, limits: Limits, i: nat, j: nat, r: Record)
    requires IsRun(run, evs, limits) && i < j < |run|
    requires evs[i].Append? && evs[i].acks == ACKS_LEADER && run[i].world.Up?
    requires AppendSpec(run[i].world.log, evs[i].key, evs[i].value, evs[i].acks, evs[i].now, evs[i].faults).1
             == Appended(r)
    requires run[j].world.Up?
    ensures ReadsAt(run[j].world.log, r) || exists k :: i < k < j && DeletedAt(run[k], evs[k], r.offset)
  {
    hide AppendSpec, UpOk, DeletedAt, ReadsAt;
    RunKeeps(run, evs, limits, i);
    RunKeeps(run, evs, limits, j);
    StepAt(run, evs, limits, i);
    AcknowledgedNow(run[i].world.log, run[i].hist, evs[i], r, limits);
    PromisesAreKept(run, evs, limits, i + 1, j, r);
    if Promised(run[j].hist, r) {
      PromisedIsRead(run[j].world.log, run[j].hist, limits, r);
    }
  }

  /** As long as every deletion takes the oldest segments only, no gap arises. */
  lemma {:induction false} PrefixDeletionsLeaveNoGap(run: seq<Config>, evs: seq<Event>, limits: Limits, i: nat)
    requires IsRun(run, evs, limits) && i < |run|
    requires forall k | 0 <= k < i && evs[k].DeleteSegments? && run[k].world.Up? ::
             OldestGone(run[k].world.log.sealed, evs[k].gone)
    ensures run[i].hist.gapless
  {
    hide ConfigOk, Step, OldestGone;
    if i > 0 {
      PrefixDeletionsLeaveNoGap(run, evs, limits, i - 1);
      RunKeeps(run, evs, limits, i - 1);
      StepAt(run, evs, limits, i - 1);
      GaplessStep(run[i - 1], evs[i - 1], run[i], limits);
    }
  }

  lemma GaplessStep(c: Config, ev: Event, c': Config, limits: Limits)
    requires ConfigOk(c, limits) && Step(c, ev, c', limits) && c.hist.gapless
    requires ev.DeleteSegments? && c.world.Up? ==> OldestGone(c.world.log.sealed, ev.gone)
    ensures c'.hist.gapless
  {
    hide UpOk, DiskCovers, AppendSpec, OpenSpec, DiskOf, DiskAfterCrash, LogOf, Log, OldestGone, Contiguous, Inv;
    if ev.DeleteSegments? {
      UpLayout(c.world.log, c.hist, limits);
      ContiguousIffPrefix(c.world.log, ev.gone);
    }
  }

  lemma StepAt(run: seq<Config>, evs: seq<Event>, limits: Limits, i: nat)
    requires IsRun(run, evs, limits) && i < |evs|
    ensures Step(run[i], evs[i], run[i + 1], limits)
  {
    hide Step;
  }

  lemma AcknowledgedNow(s: LogState, h: History, ev: Event, r: Record, limits: Limits)
    requires UpOk(s, h, limits) && ev.Append? && ev.acks == ACKS_LEADER
    requires AppendSpec(s, ev.key, ev.value, ev.acks, ev.now, ev.faults).1 == Appended(r)
    ensures Promised(HistoryAfter(h, NewRecord(s, ev.key, ev.value, ev.now), ev.acks, Appended(r)), r)
  {
    hide Log, LogOf, LastFileOk, Run, Covers, Inv, AppendSpec, Contiguous;
    AppendKeeps(s, ev.key, ev.value, ev.acks, ev.now, ev.faults);
  }

  // ----- a crash of any valid partition -----

  /** Every valid partition is one that some history asks for. */
  lemma ValidHasHistory(s: LogState) returns (h: History)
    requires Inv(s)
    ensures UpOk(s, h, s.limits)
  {
    hide Run, Parse, LogOf, SegHolds, Ordered, Content, Contiguous, Placed, FrameStart, LastFileOk, Sealed, Tail,
         Frame, Frames, TailFits, Limited;
    var extra := UnpublishedRecord(s);
    var recs := Content(s.active);
    h := History(Log(s) + extra, s.active.base, Contiguous(Segs(s)));
    SegsPlaced(s.sealed, s.active, h.gapless);
    var k := |LogOf(s.sealed)|;
    ConcatAssoc(LogOf(s.sealed), recs, extra);
    assert h.written[k..] == recs + extra;
    ActiveFileOk(s, extra);
    ActiveCounts(s);
  }

  /** The record whose frame an unpublished tail starts. */
  lemma UnpublishedRecord(s: LogState) returns (extra: seq<Record>)
    requires Inv(s)
    ensures if Tail(s.active) == [] then extra == []
            else
              && s.failed && |extra| == 1 && Encodable(extra[0]) && extra[0].offset == s.nextOffset
              && Tail(s.active) <= Frame(extra[0])
  {
    hide SegHolds, Ordered, Content, Sealed, Frame;
    if Tail(s.active) == [] {
      extra := [];
    } else {
      var r :| Encodable(r) && Tail(s.active) <= Frame(r);
      SameFrame(r, s.nextOffset);
      extra := [r.(offset := s.nextOffset)];
    }
  }

  lemma SameFrame(r: Record, offset: int)
    ensures Frame(r.(offset := offset)) == Frame(r)
  {
  }

  lemma ActiveFileOk(s: LogState, extra: seq<Record>)
    requires Inv(s)
    requires if Tail(s.active) == [] then extra == []
             else
               && |extra| == 1 && Encodable(extra[0]) && extra[0].offset == s.nextOffset
               && Tail(s.active) <= Frame(extra[0])
    ensures var rest := Content(s.active) + extra;
            Run(rest, s.active.base) && LastFileOk(s.active.file, rest, 0, s.limits)
  {
    hide Run, Parse, LogOf, Ordered, Content, FrameStart, Sealed, Frame, Frames, IndexFor, LastFileOk;
    var recs, f := Content(s.active), s.active.file;
    ActiveCounts(s);
    FileInRange(s);
    assert f.data == Frames(recs) + Tail(s.active);
    PublishedLimited(s);
    if extra == [] {
      assert recs + extra == recs;
      assert Frames(recs) + [] == Frames(recs);
    } else {
      assert extra == [extra[0]];
      RunSnoc(recs, extra[0], s.active.base);
      LastFileGrows(FileState(Frames(recs), 0), FileState(f.data, f.synced), recs, extra[0], 0, 0, s.limits);
      assert FileState(f.data, f.synced) == f;
    }
  }

  lemma PublishedLimited(s: LogState)
    requires Inv(s)
    ensures var recs := Content(s.active);
            LastFileOk(FileState(Frames(recs), 0), recs, 0, s.limits)
            && (Tail(s.active) == [] && s.active.file.synced <= |s.active.file.data|
                && s.active.file.data == Frames(recs)
                ==> LastFileOk(s.active.file, recs, 0, s.limits))
  {
    hide Run, Parse, LogOf, Ordered, Content, FrameStart, Sealed, Frames, IndexFor;
    var recs := Content(s.active);
    ActiveCounts(s);
    assert recs[..|recs|] == recs;
    forall j | 0 <= j <= |recs|
      ensures j <= 1 || FramePos(recs, j) <= s.limits.maxSegmentBytes
    {
      FramePosMonotone(recs, j, |recs|);
    }
  }

  lemma {:induction false} OpenedBases(d: seq<DiskFile>, interval: int)
    requires OpenSealedSpec(d, interval).Some?
    ensures forall i | 0 <= i < |d| :: OpenSealedSpec(d, interval).value[i].base == d[i].base
  {
    hide ScanOf;
    if d != [] {
      OpenedBases(d[..|d| - 1], interval);
    }
  }

  /** Whatever a crash leaves of a valid partition reopens to a valid one that starts where it did. */
  lemma CrashOfValid(s: LogState, e: seq<DiskFile>)
    requires Inv(s) && DiskAfterCrash(DiskOf(s), e)
    ensures var t := OpenSpec(e, s.limits);
            && t.Some? && Inv(t.value) && !t.value.failed && t.value.limits == s.limits
            && Segs(t.value)[0].base == Segs(s)[0].base
  {
    hide UpOk, DiskCovers, DiskAfterCrash, OpenSpec, Inv, DiskOf;
    var h := ValidHasHistory(s);
    StopDown(s, h, s.limits);
    CrashDown(DiskOf(s), e, h, s.limits);
    NotEmptyDisk(e, h, s.limits);
    OpenRecovers(e, h, s.limits);
    var t := OpenSpec(e, s.limits).value;
    UpLayout(t, h.(written := Log(t)), s.limits);
    FirstBaseKept(s, e, t);
  }

  lemma FirstBaseKept(s: LogState, e: seq<DiskFile>, t: LogState)
    requires DiskAfterCrash(DiskOf(s), e) && e != [] && OpenSpec(e, s.limits) == Some(t)
    ensures Segs(t)[0].base == Segs(s)[0].base
  {
    hide FileAfterCrash, OpenSpec;
    OpenedFirst(e, t, s.limits);
    FirstFile(s);
  }

  /** What a partition can come back as after a crash. */
  ghost predicate Recovers(s: LogState, t: LogState) {
    exists e :: DiskAfterCrash(DiskOf(s), e) && OpenSpec(e, s.limits) == Some(t)
  }

  lemma RecoversValid(s: LogState, t: LogState)
    requires Inv(s) && Recovers(s, t)
    ensures Inv(t) && !t.failed && t.limits == s.limits && Segs(t)[0].base == Segs(s)[0].base
  {
    hide Inv, DiskAfterCrash, OpenSpec, DiskOf;
    var e :| DiskAfterCrash(DiskOf(s), e) && OpenSpec(e, s.limits) == Some(t);
    CrashOfValid(s, e);
  }

  /** A plain restart reopens whatever state the partition was in, fenced or not. */
  lemma RestartOfValid(s: LogState)
    requires Inv(s)
    ensures var t := OpenSpec(DiskOf(s), s.limits);
            && t.Some? && Inv(t.value) && !t.value.failed && t.value.limits == s.limits
            && Segs(t.value)[0].base == Segs(s)[0].base
  {
    hide UpOk, DiskCovers, OpenSpec, Inv, DiskOf;
    var h := ValidHasHistory(s);
    StopDown(s, h, s.limits);
    NotEmptyDisk(DiskOf(s), h, s.limits);
    OpenRecovers(DiskOf(s), h, s.limits);
    var t := OpenSpec(DiskOf(s), s.limits).value;
    UpLayout(t, h.(written := Log(t)), s.limits);
    OpenedFirst(DiskOf(s), t, s.limits);
    FirstFile(s);
  }

  lemma FirstFile(s: LogState)
    ensures DiskOf(s) != [] && DiskOf(s)[0].base == Segs(s)[0].base
  {
  }

  lemma OpenedFirst(d: seq<DiskFile>, t: LogState, limits: Limits)
    requires d != [] && OpenSpec(d, limits) == Some(t)
    ensures Segs(t)[0].base == d[0].base
  {
    hide OpenSegmentSpec;
    var n := |d| - 1;
    OpenedBases(d[..n], limits.indexIntervalBytes);
    OpenedBase(d[n], limits.indexIntervalBytes);
  }
}
