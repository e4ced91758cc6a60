/** Runs of the whole system, from a new topic on, that reach what the theorems rule out or leave open:
    a gap, records lost to a rewind or a join, and a cursor below the oldest record. */
module RetentionWitnesses {
  import opened Records
  import opened LogStates
  import opened LogInvariant
  import opened Reopening
  import opened RetentionPolicy
  import opened GroupStates
  import opened RetentionSafety
  import opened CursorBounds
  import opened SegmentScan
  import opened FrameRuns
  import CrashRecovery
  import Groups
  import Cursors

  // ----- five records in three segments -----

  /** Two of the smallest records fill a segment. */
  const SMALL := Limits(42, 1)

  function NewLog(): LogState {
    LogState([], EmptySegment(0), 0, false, false, SMALL)
  }

  function Fill(s: LogState): LogState {
    AppendSpec(s, [], [], ACKS_LEADER, 0, HEALTHY).0
  }

  const FILL := Produce(0, [], [], ACKS_LEADER, 0, HEALTHY)

  /** A log of smallest records whose active segment holds `records` of them. */
  ghost predicate Filling(s: LogState, sealed: nat, records: nat) {
    && Inv(s) && Contiguous(Segs(s)) && !s.failed && s.limits == SMALL
    && |s.sealed| == sealed && s.active.records == records && s.active.sizeBytes == 21 * records
    && s.active.base == 2 * sealed && s.nextOffset == 2 * sealed + records
    && forall i | 0 <= i < sealed :: s.sealed[i].base == 2 * i && s.sealed[i].records == 2
  }

  lemma SmallFrame(r: Record)
    requires r.key == [] && r.value == []
    ensures Encodable(r) && |Frame(r)| == 21
  {
  }

  lemma FillKeeps(s: LogState)
    requires Inv(s) && Contiguous(Segs(s))
    ensures Inv(Fill(s)) && Contiguous(Segs(Fill(s)))
  {
    hide Inv, Log, Contiguous, AppendSpec;
    AppendKeeps(s, [], [], ACKS_LEADER, 0, HEALTHY);
  }

  lemma PublishSmall(s: LogState, r: Record)
    requires r.key == [] && r.value == []
    ensures var (t, res) := PublishSpec(s, r, ACKS_LEADER, HEALTHY);
            && res == Appended(r) && t.sealed == s.sealed && t.nextOffset == s.nextOffset + 1 && t.failed == s.failed
            && t.limits == s.limits
            && t.active.base == s.active.base && t.active.records == s.active.records + 1
            && t.active.sizeBytes == s.active.sizeBytes + 21
  {
    hide Frame;
    SmallFrame(r);
  }

  lemma FillOne(s: LogState, sealed: nat, records: nat)
    requires Filling(s, sealed, records) && records < 2 && s.nextOffset < 10
    ensures Filling(Fill(s), sealed, records + 1)
  {
    hide Inv, Contiguous, Frame, Encodable, PublishSpec, RollSpec;
    FillKeeps(s);
    var r := NewRecord(s, [], [], 0);
    SmallFrame(r);
    PublishSmall(s, r);
  }

  lemma FillNext(s: LogState, sealed: nat)
    requires Filling(s, sealed, 2) && s.nextOffset < 10
    ensures Filling(Fill(s), sealed + 1, 1)
  {
    hide Inv, Contiguous, Frame, Encodable, PublishSpec;
    FillKeeps(s);
    var r := NewRecord(s, [], [], 0);
    SmallFrame(r);
    PublishSmall(RollSpec(s, HEALTHY).0, r);
  }

  lemma NewLogFilling()
    ensures Filling(NewLog(), 0, 0)
  {
    hide Inv;
    PartitionsStartValid();
  }

  lemma PartitionsStartValid()
    ensures Inv(NewLog())
  {
    hide SegHolds, FrameStart, Content;
    NewActive();
    NothingStartsAFrame();
  }

  lemma NewActive()
    ensures SegOk(EmptySegment(0), 1, false)
  {
    hide SegHolds, Content;
    EmptyHolds(0, 1);
    ContentIs(EmptySegment(0), [], 1, false);
  }

  // ----- building runs -----

  ghost predicate StartsNew(topic: string, run: seq<Sys>, evs: seq<TopicEvent>) {
    IsTopicRun(topic, run, evs) && run[0] == Sys(map[], map[], [NewLog()], None)
  }

  lemma Extend(topic: string, run: seq<Sys>, evs: seq<TopicEvent>, ev: TopicEvent, b: Sys)
    requires StartsNew(topic, run, evs) && TopicStep(topic, run[|evs|], ev, b)
    ensures StartsNew(topic, run + [b], evs + [ev])
  {
    hide TopicStep, AllValid;
    var run', evs' := run + [b], evs + [ev];
    forall k | 0 <= k < |evs'|
      ensures TopicStep(topic, run'[k], evs'[k], run'[k + 1])
    {
      assert k < |evs| ==> TopicStep(topic, run[k], evs[k], run[k + 1]);
    }
  }

  lemma ExtendFill(topic: string, run: seq<Sys>, evs: seq<TopicEvent>, s: LogState)
    returns (run': seq<Sys>, evs': seq<TopicEvent>)
    requires StartsNew(topic, run, evs) && run[|evs|] == Sys(map[], map[], [s], None)
    ensures StartsNew(topic, run', evs') && run'[|evs'|] == Sys(map[], map[], [Fill(s)], None)
  {
    hide AppendSpec, StartsNew;
    var b := Sys(map[], map[], [Fill(s)], None);
    StartLength(topic, run, evs);
    Extend(topic, run, evs, FILL, b);
    run', evs' := run + [b], evs + [FILL];
  }

  lemma StartLength(topic: string, run: seq<Sys>, evs: seq<TopicEvent>)
    requires StartsNew(topic, run, evs)
    ensures |run| == |evs| + 1
  {
    hide TopicStep;
  }

  /** A run that only produces, to five records in two full segments and an active one. */
  lemma FiveRecords(topic: string) returns (run: seq<Sys>, evs: seq<TopicEvent>, s: LogState)
    ensures StartsNew(topic, run, evs) && run[|evs|] == Sys(map[], map[], [s], None) && Filling(s, 2, 1)
  {
    hide StartsNew, Filling, Fill;
    var s0 := NewLog();
    NewLogFilling();
    run, evs := [Sys(map[], map[], [s0], None)], [];
    JustStarted(topic, run, evs);
    FillFive(s0);
    var s1, s2, s3, s4 := Fill(s0), Fill(Fill(s0)), Fill(Fill(Fill(s0))), Fill(Fill(Fill(Fill(s0))));
    run, evs := ExtendFill(topic, run, evs, s0);
    run, evs := ExtendFill(topic, run, evs, s1);
    run, evs := ExtendFill(topic, run, evs, s2);
    run, evs := ExtendFill(topic, run, evs, s3);
    run, evs := ExtendFill(topic, run, evs, s4);
    s := Fill(s4);
  }

  lemma JustStarted(topic: string, run: seq<Sys>, evs: seq<TopicEvent>)
    requires run == [Sys(map[], map[], [NewLog()], None)] && evs == []
    ensures StartsNew(topic, run, evs)
  {
    hide Inv;
    PartitionsStartValid();
  }

  lemma FillFive(s0: LogState)
    requires Filling(s0, 0, 0)
    ensures Filling(Fill(Fill(Fill(Fill(Fill(s0))))), 2, 1)
  {
    hide Fill, Inv, Contiguous;
    FillOne(s0, 0, 0);
    FillOne(Fill(s0), 0, 1);
    FillNext(Fill(Fill(s0)), 0);
    FillOne(Fill(Fill(Fill(s0))), 1, 1);
    FillNext(Fill(Fill(Fill(Fill(s0)))), 1);
  }

  // ----- a gap -----

  /** A pass that leaves a gap: the second of two sealed segments has expired, the first has not. */
  lemma GapIsReached(topic: string) returns (run: seq<Sys>, evs: seq<TopicEvent>)
    ensures StartsNew(topic, run, evs) && |evs| > 0 && evs[|evs| - 1].Delete? && |run[|evs|].logs| == 1
    ensures Contiguous(Segs(run[|evs| - 1].logs[0])) && !Contiguous(Segs(run[|evs|].logs[0]))
  {
    hide StartsNew, Contiguous, Inv, Deleted;
    var s;
    run, evs, s := FiveRecords(topic);
    StartLength(topic, run, evs);
    var a := Sys(map[], map[], [s], Some([Unclamped]));
    Extend(topic, run, evs, Snapshot, a);
    run, evs := run + [a], evs + [Snapshot];
    var policy, mtimes := Policy(1, 0), [0, -1];
    var t := Deleted(s, Unclamped, policy, NS_PER_MS, mtimes, {});
    var b := a.(logs := [t]);
    var ev := Delete(0, policy, NS_PER_MS, mtimes, {});
    Extend(topic, run, evs, ev, b);
    SecondOnly(s, policy, mtimes);
    run, evs := run + [b], evs + [ev];
  }

  lemma SecondOnly(s: LogState, policy: Policy, mtimes: seq<int>)
    requires Filling(s, 2, 1) && policy == Policy(1, 0) && mtimes == [0, -1]
    ensures !Contiguous(Segs(Deleted(s, Unclamped, policy, NS_PER_MS, mtimes, {})))
  {
    hide Inv, Contiguous, Doomed, Keep;
    PassContiguousIff(s, mtimes, policy, NS_PER_MS, Unclamped, {});
    assert Goes(s, mtimes, policy, NS_PER_MS, Unclamped, {}, 1);
    assert !Goes(s, mtimes, policy, NS_PER_MS, Unclamped, {}, 0);
  }

  // ----- losses in the window -----

  /** The only group has joined and committed the last record; then clamps are read. */
  lemma CommittedAndSnapshot(topic: string, g: string) returns (run: seq<Sys>, evs: seq<TopicEvent>, a: Sys)
    requires ValidName(g)
    ensures StartsNew(topic, run, evs) && run[|evs|] == a && |evs| > 0 && evs[|evs| - 1].Snapshot?
    ensures |a.logs| == 1 && Filling(a.logs[0], 2, 1) && HasJoined(a.groups, g, topic)
    ensures NextOf(a.groups[g][topic], 0) == 5 && a.snapshot == Some([Below(5)])
    ensures a.groups.Keys == {g} && CursorsInLog(topic, a)
  {
    hide StartsNew, Filling, ValidName, JoinSpec, CommitSpec, Inv;
    var s;
    run, evs, s := FiveRecords(topic);
    StartLength(topic, run, evs);
    var joined, done := OneGroup(topic, g, 4, 5);
    FillingEnd(s);
    var b := Sys(joined, joined, [s], None);
    var join := JoinTopic(g, topic, "m", 1, true);
    Extend(topic, run, evs, join, b);
    run, evs := run + [b], evs + [join];
    var c := Sys(done, done, [s], None);
    var commit := CommitAt(g, topic, 0, 4, true);
    Extend(topic, run, evs, commit, c);
    run, evs := run + [c], evs + [commit];
    a := c.(snapshot := Some([Below(5)]));
    OneBound(done, topic, g);
    Extend(topic, run, evs, Snapshot, a);
    run, evs := run + [a], evs + [Snapshot];
    OnlyGroup(topic, g, a);
  }

  lemma OnlyGroup(topic: string, g: string, a: Sys)
    requires a.groups.Keys == {g} && HasJoined(a.groups, g, topic) && NextOf(a.groups[g][topic], 0) == 5
    requires |a.logs| == 1 && Earliest(a.logs[0]) <= 5
    ensures CursorsInLog(topic, a)
  {
    hide NextOf, Earliest;
  }

  lemma FillingEnd(s: LogState)
    requires Filling(s, 2, 1)
    ensures s.nextOffset == 5 && Earliest(s) == 0 && Inv(s) && !s.failed
  {
    hide Inv, Contiguous;
  }

  /** A single group of one member, before and after its first commit. */
  lemma OneGroup(topic: string, g: string, offset: int, latest: int) returns (joined: GroupsState, done: GroupsState)
    requires ValidName(g) && 0 <= offset < latest
    ensures JoinSpec(map[], 1, g, topic, "m", 1, true) == (joined, JoinSpec(map[], 1, g, topic, "m", 1, true).1)
    ensures JoinSpec(map[], 1, g, topic, "m", 1, true).1.Joined?
    ensures CommitSpec(joined, g, topic, 0, offset, latest, true) == (done, Committed)
    ensures done.Keys == {g} && HasJoined(done, g, topic) && NextOf(done[g][topic], 0) == offset + 1
  {
    hide PartsOf, GeneratedName, ValidName, IndexOf;
    joined := JoinSpec(map[], 1, g, topic, "m", 1, true).0;
    assert IndexOf([], "m") < 0;
    done := CommitSpec(joined, g, topic, 0, offset, latest, true).0;
  }

  lemma OneBound(gs: GroupsState, topic: string, g: string)
    requires gs.Keys == {g} && HasJoined(gs, g, topic) && NextOf(gs[g][topic], 0) == 5
    ensures AreClamps(gs, topic, [Below(5)], 1)
  {
  }

  /** A rewind in the window that loses records, at the end of a run from a new topic. */
  lemma RewindLossIsReached(topic: string, g: string) returns (run: seq<Sys>, evs: seq<TopicEvent>)
    requires ValidName(g)
    ensures StartsNew(topic, run, evs) && |evs| >= 3
    ensures var n := |evs|;
            && evs[n - 3].Snapshot? && evs[n - 2] == CommitAt(g, topic, 0, 0, true) && evs[n - 1].Delete?
            && Loses(run[n - 1], run[n], topic, g, 0)
  {
    hide StartsNew, ValidName, TopicStep, Loses, Inv, Contiguous;
    var a;
    run, evs, a := CommittedAndSnapshot(topic, g);
    StartLength(topic, run, evs);
    OnlyLogValid(a);
    FirstIsExposed(a.logs[0], Below(5));
    var b, ev, c := RewindInWindowLoses(topic, a, g, 0, 0);
    var rewind := CommitAt(g, topic, 0, 0, true);
    Extend(topic, run, evs, rewind, b);
    Extend(topic, run + [b], evs + [rewind], ev, c);
    run, evs := run + [b] + [c], evs + [rewind] + [ev];
  }

  lemma FirstIsExposed(s: LogState, clamp: Clamp)
    requires Filling(s, 2, 1) && (clamp == Unclamped || clamp == Below(5))
    ensures Exposed(s, clamp, 0) && Exposed(s, clamp, 1)
  {
    hide Inv, Contiguous;
    assert Reach(s.sealed, clamp) > 0;
    assert EndOf(s.sealed[0]) == 2;
  }

  lemma OnlyLogValid(a: Sys)
    requires |a.logs| == 1 && Filling(a.logs[0], 2, 1)
    ensures AllValid(a.logs)
  {
    hide Inv, Contiguous;
  }

  /** A join in the window that loses records, at the end of a run from a new topic. */
  lemma JoinLossIsReached(topic: string, g: string) returns (run: seq<Sys>, evs: seq<TopicEvent>)
    requires ValidName(g)
    ensures StartsNew(topic, run, evs) && |evs| >= 3
    ensures var n := |evs|;
            && evs[n - 3].Snapshot? && evs[n - 2] == JoinTopic(g, topic, "m", 1, true) && evs[n - 1].Delete?
            && Loses(run[n - 1], run[n], topic, g, 0)
  {
    hide StartsNew, ValidName, Loses, Inv, Contiguous, JoinSpec, Deleted;
    var s;
    run, evs, s := FiveRecords(topic);
    StartLength(topic, run, evs);
    var a := Sys(map[], map[], [s], Some([Unclamped]));
    Extend(topic, run, evs, Snapshot, a);
    OnlyLogValid(a);
    FirstIsExposed(s, Unclamped);
    var b, ev, c := JoinInWindowLoses(topic, a, g, "m", 0);
    var join := JoinTopic(g, topic, "m", 1, true);
    Extend(topic, run + [a], evs + [Snapshot], join, b);
    Extend(topic, run + [a] + [b], evs + [Snapshot] + [join], ev, c);
    run, evs := run + [a] + [b] + [c], evs + [Snapshot] + [join] + [ev];
  }

  // ----- a cursor below the oldest record -----

  /** At the end of a run from a new topic a commit is accepted that leaves a joined group's cursor below
      the oldest record; up to there no cursor was. */
  lemma CursorBelowEarliestIsReached(topic: string, g: string) returns (run: seq<Sys>, evs: seq<TopicEvent>)
    requires ValidName(g)
    ensures StartsNew(topic, run, evs) && |evs| >= 1
    ensures var n := |evs|;
            && evs[n - 1] == CommitAt(g, topic, 0, 0, true)
            && CursorsInLog(topic, run[n - 1]) && !CursorsInLog(topic, run[n])
            && |run[n].logs| == 1 && HasJoined(run[n].groups, g, topic)
            && NextOf(run[n].groups[g][topic], 0) == 1 < Earliest(run[n].logs[0]) <= run[n].logs[0].nextOffset
  {
    hide StartsNew, ValidName, Inv, Contiguous, Deleted, CommitSpec;
    var a;
    run, evs, a := CommittedAndSnapshot(topic, g);
    StartLength(topic, run, evs);
    var s := a.logs[0];
    var policy, mtimes := Policy(1, 0), [-1, 0];
    var t := Deleted(s, Below(5), policy, NS_PER_MS, mtimes, {});
    OldestDeleted(s, policy, mtimes);
    var b := a.(logs := [t]);
    var ev := Delete(0, policy, NS_PER_MS, mtimes, {});
    Extend(topic, run, evs, ev, b);
    run, evs := run + [b], evs + [ev];
    OnlyGroup(topic, g, b);
    CommitBelowEarliest(b, g, topic, 0, 0);
    var gs: GroupsState := CommitSpec(b.groups, g, topic, 0, 0, t.nextOffset, true).0;
    RewoundNext(b.groups, g, topic, t.nextOffset);
    var c := b.(groups := gs, saved := gs);
    var rewind := CommitAt(g, topic, 0, 0, true);
    Extend(topic, run, evs, rewind, c);
    run, evs := run + [c], evs + [rewind];
  }

  lemma RewoundNext(gs: GroupsState, g: string, topic: string, latest: int)
    requires HasJoined(gs, g, topic) && latest > 0
    ensures var gs' := CommitSpec(gs, g, topic, 0, 0, latest, true).0;
            HasJoined(gs', g, topic) && NextOf(gs'[g][topic], 0) == 1
  {
  }

  lemma OldestDeleted(s: LogState, policy: Policy, mtimes: seq<int>)
    requires Filling(s, 2, 1) && policy == Policy(1, 0) && mtimes == [-1, 0]
    ensures var t := Deleted(s, Below(5), policy, NS_PER_MS, mtimes, {}); Earliest(t) == 2 && t.nextOffset == 5
  {
    hide Inv, Contiguous, Doomed, Keep;
    OnlyOldestDoomed(s, mtimes, policy, NS_PER_MS, Below(5));
    FirstAfter(s, {0} - {});
    assert GoneFirst(s.sealed, {0} - {}) == 1;
  }

  // ----- a cursor past the log end -----

  /** A new log after one append without a sync. */
  function Unsynced(): LogState {
    AppendSpec(NewLog(), [], [], ACKS_NONE, 0, HEALTHY).0
  }

  lemma UnsyncedFacts()
    ensures var s := Unsynced();
            && s.nextOffset == 1 && s.sealed == [] && s.active.base == 0 && s.active.file.synced == 0 && !s.stray
            && s.limits == SMALL
  {
    hide Frame;
    SmallFrame(NewRecord(NewLog(), [], [], 0));
  }

  lemma NothingToScan()
    ensures OpenSpec([DiskFile(0, FileState([], 0), true)], SMALL) == Some(NewLog())
  {
    hide Frame, Decode, Frames, FramePos;
    NothingLeft(0);
    var d := [DiskFile(0, FileState([], 0), true)];
    assert d[..0] == [];
    assert Parse([], 0).records == [];
    assert ScanOf([], 0, 1) == Scanned(0, 0, [], false);
  }

  /** A crash may take the unsynced record. */
  lemma RecordLost()
    ensures CrashRecovery.Recovers(Unsynced(), NewLog())
  {
    hide OpenSpec, AppendSpec;
    UnsyncedFacts();
    NothingToScan();
    var e := [DiskFile(0, FileState([], 0), true)];
    assert CrashRecovery.DiskAfterCrash(DiskOf(Unsynced()), e);
  }

  /** Refilled, the log has one record, at the offset that was lost. */
  lemma Refilled()
    ensures var s := Fill(NewLog());
            s.nextOffset == 1 && exists r :: Log(s) == [r] && r.offset == 0
  {
    hide Inv, Log, AppendSpec, Contiguous;
    NewLogFilling();
    FillOne(NewLog(), 0, 0);
    AppendKeeps(NewLog(), [], [], ACKS_LEADER, 0, HEALTHY);
    NewLogIsEmpty();
    var r := NewRecord(NewLog(), [], [], 0);
    HealthyIsAppended();
    assert Log(Fill(NewLog())) == [] + [r];
  }

  lemma NewLogIsEmpty()
    ensures Log(NewLog()) == []
  {
    hide Decode;
    NothingLeft(0);
  }

  lemma HealthyIsAppended()
    ensures AppendSpec(NewLog(), [], [], ACKS_LEADER, 0, HEALTHY).1 == Appended(NewRecord(NewLog(), [], [], 0))
  {
    hide Frame, Encodable, PublishSpec;
    var r := NewRecord(NewLog(), [], [], 0);
    SmallFrame(r);
    PublishSmall(NewLog(), r);
  }

  /** With its cursor at 1, a group is given nothing of the refilled log. */
  lemma NothingDelivered(b: Binding, pf: Groups.PartitionFetch, maxRecords: int, maxBytes: int)
    requires NextOf(b, 0) == 1 && Groups.IsFetch(pf, 0, Fill(NewLog()), 1, maxRecords, maxBytes)
    ensures pf.records == []
  {
    hide Inv, AppendSpec, Groups.IsFetch;
    PartitionsStartValid();
    Refilled();
    var acts := [Cursors.Send([], [], ACKS_LEADER, 0, HEALTHY)];
    assert acts[..0] == [];
    assert Cursors.RunActs(NewLog(), []) == NewLog();
    assert Cursors.RunActs(NewLog(), acts) == Fill(NewLog());
    Cursors.RewoundCursor(NewLog(), b, 0, acts, pf, maxRecords, maxBytes);
  }

  /** A run from a new topic: a record is written without a sync, read and committed, and lost in a
      crash; another is then written at its offset, and no fetch of the group delivers it. */
  lemma RewoundCursorIsReached(topic: string, g: string) returns (run: seq<Sys>, evs: seq<TopicEvent>)
    requires ValidName(g)
    ensures StartsNew(topic, run, evs) && |evs| >= 2 && |run[|evs|].logs| == |run[|evs| - 1].logs| == 1
    ensures HasJoined(run[|evs| - 1].groups, g, topic) && run[|evs|].groups == run[|evs| - 1].groups
    ensures var n := |evs|; var next := NextOf(run[n].groups[g][topic], 0); var s := run[n].logs[0];
            && evs[n - 2].CrashAndReopen? && run[n - 1].logs[0].nextOffset < next
            && evs[n - 1].Produce? && (exists r :: Log(s) == [r] && r.offset == 0)
            && forall pf, maxRecords, maxBytes | Groups.IsFetch(pf, 0, s, next, maxRecords, maxBytes) ::
               pf.records == []
  {
    hide StartsNew, ValidName, JoinSpec, CommitSpec, AppendSpec, Inv, Log, Groups.IsFetch, CrashRecovery.Recovers;
    run, evs := [Sys(map[], map[], [NewLog()], None)], [];
    JustStarted(topic, run, evs);
    var joined, done := OneGroup(topic, g, 0, 1);
    UnsyncedFacts();
    RecordLost();
    Refilled();
    var a := Sys(map[], map[], [Unsynced()], None);
    var produce := Produce(0, [], [], ACKS_NONE, 0, HEALTHY);
    Extend(topic, run, evs, produce, a);
    run, evs := run + [a], evs + [produce];
    var b := Sys(joined, joined, [Unsynced()], None);
    var join := JoinTopic(g, topic, "m", 1, true);
    Extend(topic, run, evs, join, b);
    run, evs := run + [b], evs + [join];
    var c := Sys(done, done, [Unsynced()], None);
    var commit := CommitAt(g, topic, 0, 0, true);
    Extend(topic, run, evs, commit, c);
    run, evs := run + [c], evs + [commit];
    var d := Sys(done, done, [NewLog()], None);
    Extend(topic, run, evs, CrashAndReopen, d);
    run, evs := run + [d], evs + [CrashAndReopen];
    var e := Sys(done, done, [Fill(NewLog())], None);
    Extend(topic, run, evs, FILL, e);
    run, evs := run + [e], evs + [FILL];
    forall pf, maxRecords, maxBytes | Groups.IsFetch(pf, 0, Fill(NewLog()), 1, maxRecords, maxBytes)
      ensures pf.records == []
    {
      NothingDelivered(done[g][topic], pf, maxRecords, maxBytes);
    }
  }
}
