/** The deletion pass over one partition. */
module Retention {
  import opened LogStates
  import opened LogInvariant
  import opened ReadSlices
  import opened PartitionLogs
  import opened RetentionPolicy

  datatype PassResult = PassClosed | Passed(deleted: nat, errors: nat)

  function MtimesOf(segs: seq<Segment>): (mtimes: seq<int>)
    reads FilesIn(segs)
    ensures |mtimes| == |segs| && forall i | 0 <= i < |segs| :: mtimes[i] == segs[i].file.mtime
  {
    seq(|segs|, i requires 0 <= i < |segs| reads FilesIn(segs) => segs[i].file.mtime)
  }

  /** The sealed segments' states and mtimes, read off a partition. */
  ghost predicate Reads(p: PartitionLog, s: LogState, mtimes: seq<int>)
    requires p.segments != []
    reads p, p.segments, FilesIn(p.segments)
  {
    && |p.segments| == |s.sealed| + 1 && |mtimes| == |s.sealed|
    && (forall i | 0 <= i < |p.segments| :: p.segments[i].State() == Segs(s)[i])
    && (forall i | 0 <= i < |mtimes| :: mtimes[i] == p.segments[i].file.mtime)
  }

  /** Marks the sealed segments below the clamp whose last write is older than the cutoff. */
  method DoomByAge(p: PartitionLog, policy: Policy, now: int, clamp: Clamp, ghost s: LogState, ghost mtimes: seq<int>)
    returns (doomed: set<int>)
    requires p.segments != [] && Reads(p, s, mtimes)
    ensures doomed == AgeDoomed(s.sealed, mtimes, policy, now, clamp)
  {
    doomed := {};
    if policy.retentionMs > 0 {
      var cutoff := now - policy.retentionMs * NS_PER_MS;
      var i := 0;
      while i < |p.segments| - 1
        invariant 0 <= i <= Reach(s.sealed, clamp)
        invariant doomed == set k | 0 <= k < i && mtimes[k] < cutoff :: s.sealed[k].base
      {
        var seg := p.segments[i];
        assert Segs(s)[i] == s.sealed[i];
        if !(clamp.Unclamped? || seg.baseOffset + seg.records <= clamp.bound) {
          break;
        }
        if seg.file.mtime < cutoff {
          doomed := doomed + {seg.baseOffset};
        }
        i := i + 1;
      }
    }
  }

  /** The bytes of all segments, the active one included. */
  method SumBytes(p: PartitionLog, ghost s: LogState) returns (total: int)
    requires |p.segments| == |Segs(s)| && forall i | 0 <= i < |p.segments| :: p.segments[i].State() == Segs(s)[i]
    ensures total == TotalBytes(Segs(s))
  {
    total := 0;
    var i := 0;
    while i < |p.segments|
      invariant 0 <= i <= |p.segments| && total == TotalBytes(Segs(s)[..i])
    {
      assert Segs(s)[..i + 1][..i] == Segs(s)[..i];
      total := total + p.segments[i].sizeBytes;
      i := i + 1;
    }
    assert Segs(s)[..i] == Segs(s);
  }

  /** Marks the oldest sealed segments below the clamp until the rest fits the byte budget. */
  method DoomBySize(p: PartitionLog, policy: Policy, clamp: Clamp, ghost s: LogState) returns (doomed: set<int>)
    requires |p.segments| == |Segs(s)| && forall i | 0 <= i < |p.segments| :: p.segments[i].State() == Segs(s)[i]
    ensures doomed == SizeDoomed(s, policy, clamp)
  {
    doomed := {};
    if policy.retentionBytes > 0 {
      var total := SumBytes(p, s);
      assert forall i | 0 <= i < |s.sealed| :: Segs(s)[i] == s.sealed[i];
      doomed := DoomOldest(p, policy.retentionBytes, total, clamp, s.sealed);
    }
  }

  method DoomOldest(p: PartitionLog, budget: int, bytes: int, clamp: Clamp, ghost sealed: seq<SegState>)
    returns (doomed: set<int>)
    requires |p.segments| == |sealed| + 1 && forall i | 0 <= i < |sealed| :: p.segments[i].State() == sealed[i]
    ensures doomed == BasesOf(sealed[..SizeCut(sealed, bytes, budget, clamp)])
  {
    hide BasesOf;
    doomed := {};
    var total := bytes;
    ghost var all := SizeCut(sealed, total, budget, clamp);
    var i := 0;
    assert sealed[0..] == sealed;
    BasesOfNone(sealed);
    while i < |p.segments| - 1
      invariant 0 <= i <= |sealed| && doomed == BasesOf(sealed[..i])
      invariant all == i + SizeCut(sealed[i..], total, budget, clamp)
    {
      var seg := p.segments[i];
      assert seg.State() == sealed[i] == sealed[i..][0];
      if total <= budget || !(clamp.Unclamped? || seg.baseOffset + seg.records <= clamp.bound) {
        break;
      }
      BasesOfSnoc(sealed, i);
      assert sealed[i..][1..] == sealed[i + 1..];
      doomed := doomed + {seg.baseOffset};
      total := total - seg.sizeBytes;
      i := i + 1;
    }
  }

  lemma BasesOfNone(segs: seq<SegState>)
    ensures BasesOf(segs[..0]) == {}
  {
  }

  lemma BasesOfSnoc(segs: seq<SegState>, i: nat)
    requires i < |segs|
    ensures BasesOf(segs[..i + 1]) == BasesOf(segs[..i]) + {segs[i].base}
  {
    var a, b := segs[..i], segs[..i + 1];
    assert b[i] == segs[i] && forall k | 0 <= k < i :: a[k] == b[k];
  }

  // ----- deleting -----

  function KeepSegs(segs: seq<Segment>, gone: set<int>): seq<Segment> {
    if segs == [] then []
    else
      var front, last := KeepSegs(segs[..|segs| - 1], gone), segs[|segs| - 1];
      if last.baseOffset in gone then front else front + [last]
  }

  /** Unlinks a segment's files by name. */
  method Remove(dir: Directory, base: int)
    modifies dir
    ensures dir.files == KeepEntries(old(dir.files), {base})
  {
    var left: seq<DirEntry> := [];
    var i := 0;
    while i < |dir.files|
      invariant 0 <= i <= |dir.files| && left == KeepEntries(dir.files[..i], {base})
    {
      assert dir.files[..i + 1][..i] == dir.files[..i];
      if dir.files[i].base != base {
        left := left + [dir.files[i]];
      }
      i := i + 1;
    }
    assert dir.files[..i] == dir.files;
    dir.files := left;
  }

  lemma {:induction false} RemovedTwice(files: seq<DirEntry>, a: set<int>, b: set<int>)
    ensures KeepEntries(KeepEntries(files, a), b) == KeepEntries(files, a + b)
  {
    if files != [] {
      var front, last := files[..|files| - 1], files[|files| - 1];
      RemovedTwice(front, a, b);
      assert (KeepEntries(front, a) + [last])[..|KeepEntries(front, a)|] == KeepEntries(front, a);
    }
  }

  function BaseOffsets(segs: seq<Segment>): set<int> {
    set seg | seg in segs :: seg.baseOffset
  }

  lemma NoOffsets()
    ensures BaseOffsets([]) == {}
  {
  }

  lemma OneMoreOffset(segs: seq<Segment>, seg: Segment)
    ensures BaseOffsets(segs + [seg]) == BaseOffsets(segs) + {seg.baseOffset}
  {
  }

  /** Unlinks the files of the doomed segments. A segment is kept if one of its files could not be
      removed: either its `.log`, which then stays in the directory, or only its `.index`. */
  method Unlink(p: PartitionLog, doomed: set<int>, stuckLog: set<int>, stuckIndex: set<int>)
    returns (kept: seq<Segment>, deleted: nat, errors: nat)
    modifies p.dir
    ensures kept == KeepSegs(p.segments, doomed - stuckLog - stuckIndex) && |kept| + deleted == |p.segments|
    ensures p.dir.files == KeepEntries(old(p.dir.files), (doomed - stuckLog) * BaseOffsets(p.segments))
    ensures |kept| == |KeepSegs(p.segments, doomed)| + errors
    ensures stuckLog == stuckIndex == {} ==> errors == 0
  {
    hide BaseOffsets, KeepEntries;
    kept, deleted, errors := [], 0, 0;
    ghost var removed: set<int> := {};
    NoOffsets();
    NothingRemoved(p.dir.files);
    var i := 0;
    while i < |p.segments|
      invariant 0 <= i <= |p.segments| && |kept| + deleted == i
      invariant kept == KeepSegs(p.segments[..i], doomed - stuckLog - stuckIndex)
      invariant removed == (doomed - stuckLog) * BaseOffsets(p.segments[..i])
      invariant p.dir.files == KeepEntries(old(p.dir.files), removed)
      invariant |kept| == |KeepSegs(p.segments[..i], doomed)| + errors
      invariant stuckLog == stuckIndex == {} ==> errors == 0
    {
      var seg := p.segments[i];
      assert p.segments[..i + 1] == p.segments[..i] + [seg];
      OneMoreOffset(p.segments[..i], seg);
      if seg.baseOffset !in doomed {
        kept := kept + [seg];
      } else {
        if seg.baseOffset !in stuckLog {
          Remove(p.dir, seg.baseOffset);
          RemovedTwice(old(p.dir.files), removed, {seg.baseOffset});
          removed := removed + {seg.baseOffset};
        }
        if seg.baseOffset in stuckLog || seg.baseOffset in stuckIndex {
          errors := errors + 1;
          kept := kept + [seg];
        } else {
          deleted := deleted + 1;
        }
      }
      i := i + 1;
    }
    assert p.segments[..i] == p.segments;
  }

  // ----- the kept segments -----

  lemma {:induction false} KeptStates(segs: seq<Segment>, gone: set<int>)
    ensures StatesOf(KeepSegs(segs, gone)) == Keep(StatesOf(segs), gone)
    decreases |segs|
  {
    if segs != [] {
      var front, last := segs[..|segs| - 1], segs[|segs| - 1];
      KeptStates(front, gone);
      assert (KeepSegs(front, gone) + [last])[..|KeepSegs(front, gone)|] == KeepSegs(front, gone);
    }
  }

  lemma {:induction false} KeptEntries(segs: seq<Segment>, gone: set<int>)
    ensures EntriesOf(KeepSegs(segs, gone)) == KeepEntries(EntriesOf(segs), gone)
  {
    if segs != [] {
      var front, last := segs[..|segs| - 1], segs[|segs| - 1];
      KeptEntries(front, gone);
      assert EntriesOf(segs)[..|front|] == EntriesOf(front);
      assert EntriesOf(KeepSegs(front, gone) + [last]) == EntriesOf(KeepSegs(front, gone))
          + [DirEntry(last.baseOffset, last.file)];
    }
  }

  lemma {:induction false} SameEntries(segs: seq<Segment>, a: set<int>, b: set<int>)
    requires forall seg | seg in segs :: seg.baseOffset in a <==> seg.baseOffset in b
    ensures KeepEntries(EntriesOf(segs), a) == KeepEntries(EntriesOf(segs), b)
  {
    if segs != [] {
      var front := segs[..|segs| - 1];
      assert EntriesOf(segs)[..|front|] == EntriesOf(front);
      SameEntries(front, a, b);
    }
  }

  lemma {:induction false} KeptApart(segs: seq<Segment>, gone: set<int>)
    requires AllApart(segs)
    ensures AllApart(KeepSegs(segs, gone))
    ensures forall seg | seg in KeepSegs(segs, gone) :: seg in segs && seg.baseOffset !in gone
  {
    if segs != [] {
      var front, last := segs[..|segs| - 1], segs[|segs| - 1];
      KeptApart(front, gone);
      assert forall seg | seg in front :: seg != last && seg.file != last.file;
    }
  }

  // ----- the pass -----

  /** The base offsets of the segments both policies want gone. */
  ghost function DoomedIn(p: PartitionLog, policy: Policy, now: int, clamp: Clamp): set<int>
    requires p.segments != []
    reads p, p.segments, FilesIn(p.segments)
  {
    Doomed(p.State(), MtimesOf(p.Front()), policy, now, clamp)
  }

  /** One pass over one partition. Only sealed segments wholly below the clamp and expired, by age or
      by size, go; the active segment and every segment with a file that cannot be removed stay. Of
      the latter, those whose `.log` is gone are served until the partition is next opened. */
  method EnforceRetention(p: PartitionLog, policy: Policy, now: int, clamp: Clamp, stuckLog: set<int>,
                          stuckIndex: set<int>)
    returns (res: PassResult)
    requires p.Valid()
    modifies p`segments, p`unlinked, p.dir
    ensures p.Valid()
    ensures p.closed ==> res == PassClosed && p.State() == old(p.State()) && p.unlinked == old(p.unlinked)
    ensures !p.closed && p.failed ==>
              res == Passed(0, 0) && p.State() == old(p.State()) && p.unlinked == old(p.unlinked)
    ensures !p.closed && !p.failed ==>
              && p.State() == Without(old(p.State()), old(DoomedIn(p, policy, now, clamp)) - stuckLog - stuckIndex)
              && p.unlinked == old(p.unlinked) + (old(DoomedIn(p, policy, now, clamp)) - stuckLog)
              && res.Passed? && res.deleted == old(|p.segments|) - |p.segments|
              && res.errors == |p.segments| - 1 - |Keep(old(p.State()).sealed, old(DoomedIn(p, policy, now, clamp)))|
              && (stuckLog == stuckIndex == {} ==> res.errors == 0)
  {
    hide Inv, DoomedIn;
    if p.closed {
      return PassClosed;
    }
    if p.failed {
      return Passed(0, 0);
    }
    var doomed := FindDoomed(p, policy, now, clamp);
    if doomed == {} {
      NothingDoomed(p.State(), stuckLog, stuckIndex);
      return Passed(0, 0);
    }
    res := DeleteDoomed(p, doomed, stuckLog, stuckIndex);
  }

  /** Both policies' verdicts together. */
  method FindDoomed(p: PartitionLog, policy: Policy, now: int, clamp: Clamp) returns (doomed: set<int>)
    requires p.Valid()
    ensures p.State() == old(p.State()) && p.Valid()
    ensures doomed == old(DoomedIn(p, policy, now, clamp))
    ensures forall b | b in doomed :: b < p.Active().baseOffset
  {
    hide Inv, Doomed, AgeDoomed, SizeDoomed;
    ghost var s, mtimes := p.State(), MtimesOf(p.Front());
    p.SegsAt();
    FrontReads(p);
    var byAge := DoomByAge(p, policy, now, clamp, s, mtimes);
    var bySize := DoomBySize(p, policy, clamp, s);
    doomed := byAge + bySize;
    DoomedIs(s, mtimes, policy, now, clamp);
    StatesKept(p.Front());
  }

  lemma DoomedIs(s: LogState, mtimes: seq<int>, policy: Policy, now: int, clamp: Clamp)
    requires |mtimes| == |s.sealed| && Inv(s)
    ensures Doomed(s, mtimes, policy, now, clamp) == AgeDoomed(s.sealed, mtimes, policy, now, clamp)
            + SizeDoomed(s, policy, clamp)
    ensures forall b | b in Doomed(s, mtimes, policy, now, clamp) :: b < s.active.base
  {
    hide Sealed, ActiveOk, AgeDoomed, SizeDoomed;
    DoomedIsBelowClamp(s, mtimes, policy, now, clamp);
    BasesIncrease(s);
    var n := Reach(s.sealed, clamp);
    forall i | 0 <= i < n
      ensures s.sealed[..n][i].base < s.active.base
    {
      assert Segs(s)[i].base < Segs(s)[|s.sealed|].base;
    }
  }

  lemma NothingDoomed(s: LogState, stuckLog: set<int>, stuckIndex: set<int>)
    ensures Without(s, {} - stuckLog - stuckIndex) == s && Keep(s.sealed, {}) == s.sealed
  {
    KeepAll(s.sealed, {});
    KeepAll(s.sealed, {} - stuckLog - stuckIndex);
  }

  lemma FrontReads(p: PartitionLog)
    requires p.Structured()
    ensures Reads(p, p.State(), MtimesOf(p.Front()))
  {
    p.SegsAt();
  }

  lemma NotStrayFile(p: PartitionLog)
    requires p.Valid() && !p.failed
    ensures p.strayFile == null
  {
    NotStray(p.State());
  }

  /** The survivors are still apart, and are what the directory lists. */
  lemma SurvivorsStructured(p: PartitionLog, segs: seq<Segment>, gone: set<int>, removed: set<int>, before: set<int>)
    requires segs != [] && AllApart(segs) && segs[|segs| - 1].baseOffset !in gone && gone <= removed
    requires p.strayFile == null && p.segments == KeepSegs(segs, gone) && p.unlinked == before + removed
    requires p.dir.files == KeepEntries(KeepEntries(EntriesOf(segs), before), removed * BaseOffsets(segs))
    requires forall b | b in p.unlinked :: b < segs[|segs| - 1].baseOffset && b < p.nextOffset
    ensures p.Structured() && p.Active() == segs[|segs| - 1] && p.Front() == KeepSegs(segs[..|segs| - 1], gone)
  {
    KeptApart(segs, gone);
    SurvivorsListed(segs, gone, removed, before);
  }

  lemma SurvivorsListed(segs: seq<Segment>, gone: set<int>, removed: set<int>, before: set<int>)
    requires gone <= removed
    ensures KeepEntries(KeepEntries(EntriesOf(segs), before), removed * BaseOffsets(segs))
            == KeepEntries(EntriesOf(KeepSegs(segs, gone)), before + removed)
  {
    hide KeepEntries, KeepSegs;
    KeptEntries(segs, gone);
    RemovedTwice(EntriesOf(segs), gone, before + removed);
    RemovedTwice(EntriesOf(segs), before, removed * BaseOffsets(segs));
    SameEntries(segs, gone + (before + removed), before + removed * BaseOffsets(segs));
  }

  /** With the doomed segments gone from memory and directory, the rest is a valid log. */
  lemma SurvivorsValid(p: PartitionLog, s: LogState, segs: seq<Segment>, gone: set<int>, removed: set<int>,
                       before: set<int>)
    requires segs != [] && AllApart(segs) && segs[|segs| - 1].baseOffset !in gone && gone <= removed
    requires Inv(s) && StatesOf(segs[..|segs| - 1]) == s.sealed && segs[|segs| - 1].State() == s.active
    requires p.nextOffset == s.nextOffset && p.failed == s.failed && p.limits == s.limits && !s.stray
    requires p.strayFile == null && p.segments == KeepSegs(segs, gone) && p.unlinked == before + removed
    requires p.dir.files == KeepEntries(KeepEntries(EntriesOf(segs), before), removed * BaseOffsets(segs))
    requires forall b | b in p.unlinked :: b < segs[|segs| - 1].baseOffset && b < p.nextOffset
    ensures p.Valid() && p.State() == Without(s, gone)
  {
    hide Inv, BaseOffsets, KeepEntries, KeepSegs, Keep, AllApart;
    WithoutKeeps(s, gone);
    SurvivorsStructured(p, segs, gone, removed, before);
    KeptStates(segs[..|segs| - 1], gone);
  }

  lemma ActiveBelowEnd(s: LogState)
    requires Inv(s)
    ensures s.active.base <= s.nextOffset
  {
    RecordsCounted(s, |s.sealed|);
  }

  /** How many segments would be left if every doomed one went. */
  lemma KeptCount(segs: seq<Segment>, s: LogState, doomed: set<int>)
    requires segs != [] && segs[|segs| - 1].baseOffset !in doomed && StatesOf(segs[..|segs| - 1]) == s.sealed
    ensures |KeepSegs(segs, doomed)| == |Keep(s.sealed, doomed)| + 1
  {
    KeptStates(segs[..|segs| - 1], doomed);
  }

  method DeleteDoomed(p: PartitionLog, doomed: set<int>, stuckLog: set<int>, stuckIndex: set<int>)
    returns (res: PassResult)
    requires p.Valid() && !p.failed && forall b | b in doomed :: b < p.Active().baseOffset
    modifies p`segments, p`unlinked, p.dir
    ensures p.Valid() && p.State() == Without(old(p.State()), doomed - stuckLog - stuckIndex)
    ensures p.unlinked == old(p.unlinked) + (doomed - stuckLog)
    ensures res.Passed? && res.deleted == old(|p.segments|) - |p.segments|
    ensures res.errors == |p.segments| - 1 - |Keep(old(p.State()).sealed, doomed)|
    ensures stuckLog == stuckIndex == {} ==> res.errors == 0
  {
    hide Inv, BaseOffsets, KeepEntries, Keep, EntriesOf, KeepSegs;
    ghost var s, segs, before := p.State(), p.segments, p.unlinked;
    NotStrayFile(p);
    ActiveBelowEnd(s);
    assert p.dir.files == KeepEntries(EntriesOf(segs), before);
    var kept, deleted, errors := Unlink(p, doomed, stuckLog, stuckIndex);
    p.segments := kept;
    p.unlinked := before + (doomed - stuckLog);
    StatesKept(segs[..|segs| - 1]);
    SurvivorsValid(p, s, segs, doomed - stuckLog - stuckIndex, doomed - stuckLog, before);
    KeptCount(segs, s, doomed);
    res := Passed(deleted, errors);
  }
}
