/** The segment layout of every state a partition can reach, through any appends, rolls, failures,
    retention passes, restarts and crashes. */
module Layout {
  import opened Records
  import opened FrameRuns
  import opened LogStates
  import opened LogInvariant
  import opened ReadSlices
  import opened Reopening
  import opened RetentionPolicy
  import opened CrashRecovery

  /** Entries ascend, each at the start of its record's frame, and there are few of them. */
  ghost predicate IndexIsSound(sg: SegState, limits: Limits) {
    && limits.indexIntervalBytes > 0 && sg.records == |Content(sg)|
    && (forall i, j | 0 <= i < j < |sg.index| ::
          sg.index[i].relOffset < sg.index[j].relOffset && sg.index[i].position < sg.index[j].position)
    && (forall i | 0 <= i < |sg.index| ::
          && 0 <= sg.index[i].relOffset < sg.records
          && sg.index[i].position == FramePos(Content(sg), sg.index[i].relOffset))
    && |sg.index| <= 1 + sg.sizeBytes / limits.indexIntervalBytes
  }

  /** A log without gaps is one run of offsets up to its end. */
  ghost predicate IsOneRun(s: LogState) {
    Contiguous(Segs(s)) && Run(Log(s), Segs(s)[0].base) && Segs(s)[0].base + |Log(s)| == s.nextOffset
  }

  /** Segments lie in order up to the log end; sealed ones are not empty; no segment with more than one
      record is over the size limit; every index that no failed write left behind is sound; and as long
      as deletions take the oldest segments only, the log is one run of offsets. */
  lemma ReachableLayout(run: seq<Config>, evs: seq<Event>, limits: Limits, i: nat)
    requires IsRun(run, evs, limits) && i < |run| && run[i].world.Up?
    ensures var s := run[i].world.log;
            && s.limits == limits && Ordered(Segs(s)) && s.nextOffset == EndOf(s.active)
            && (forall j | 0 <= j < |s.sealed| :: s.sealed[j].records > 0)
            && (forall j | 0 <= j < |Segs(s)| ::
                  Segs(s)[j].records <= 1 || Segs(s)[j].sizeBytes <= limits.maxSegmentBytes)
            && (forall j | 0 <= j < |Segs(s)| && (j < |s.sealed| || !s.failed) :: IndexIsSound(Segs(s)[j], limits))
            && ((forall k | 0 <= k < i && evs[k].DeleteSegments? && run[k].world.Up? ::
                   OldestGone(run[k].world.log.sealed, evs[k].gone))
                ==> IsOneRun(s))
  {
    hide Run, Log, Contiguous, Covers, Ordered, SegOk, IndexIsSound, FrameStart, TailFits, Step, OldestGone, IsOneRun;
    RunKeeps(run, evs, limits, i);
    var s := run[i].world.log;
    UpLayout(s, run[i].hist, limits);
    if forall k | 0 <= k < i && evs[k].DeleteSegments? && run[k].world.Up? ::
        OldestGone(run[k].world.log.sealed, evs[k].gone) {
      PrefixDeletionsLeaveNoGap(run, evs, limits, i);
      GaplessIsOneRun(s);
    }
    forall j | 0 <= j < |Segs(s)|
      ensures j < |s.sealed| ==> Segs(s)[j].records > 0
      ensures Segs(s)[j].records <= 1 || Segs(s)[j].sizeBytes <= limits.maxSegmentBytes
      ensures j < |s.sealed| || !s.failed ==> IndexIsSound(Segs(s)[j], limits)
    {
      if j < |s.sealed| {
        assert Sealed(s.sealed[j], limits);
      }
      if j < |s.sealed| || !s.failed {
        SoundIndex(Segs(s)[j], limits);
      }
    }
  }

  lemma GaplessIsOneRun(s: LogState)
    requires Inv(s) && Contiguous(Segs(s))
    ensures IsOneRun(s)
  {
    hide Content, LogOf, Countable, Sealed, ActiveOk, Run;
    AllCountable(s);
    LogIsAll(s);
    ContiguousIsRun(Segs(s));
  }

  lemma SoundIndex(sg: SegState, limits: Limits)
    requires limits.indexIntervalBytes > 0 && SegOk(sg, limits.indexIntervalBytes, false)
    ensures IndexIsSound(sg, limits)
  {
    hide SegHolds, Content, FramePos;
    HoldsCount(sg, Content(sg), limits.indexIntervalBytes, false);
    PublishedIndex(sg, limits);
  }

  /** A roll, which happens only past a nonempty segment, gives its new segment a base above all
      bases in use. */
  lemma RollTakesANewBase(s: LogState, r: Record, f: Faults, i: nat)
    requires Inv(s) && NeedsRoll(s, r) && RollSpec(s, f).1 && i < |Segs(s)|
    ensures var t := RollSpec(s, f).0;
            t.active.base == s.nextOffset && Segs(s)[i].base < t.active.base && Segs(t)[i].base == Segs(s)[i].base
  {
    hide Content, Frame, SegOk, FrameStart, TailFits;
    if i < |s.sealed| {
      assert Sealed(s.sealed[i], s.limits);
      assert EndOf(Segs(s)[i]) <= Segs(s)[|s.sealed|].base;
    }
  }

  /** Whatever sealed segments a pass deletes, even all of them, the log end is the same afterwards and
      after a reopen. */
  lemma DeletionSurvivesReopen(s: LogState, gone: set<int>)
    requires Inv(s) && !s.failed
    ensures var t := Without(s, gone); OpenSpec(DiskOf(t), t.limits) == Some(t) && t.nextOffset == s.nextOffset
  {
    hide Inv, OpenSpec, DiskOf;
    WithoutKeeps(s, gone);
    ReopenIsIdentity(Without(s, gone));
  }
}
