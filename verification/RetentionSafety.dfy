/** Retention against moving cursors: the clamp is read at one moment and used at a later one, with
    appends, joins, commits and fetches in between. */
module RetentionSafety {
  import opened Bytes
  import opened Records
  import opened LogStates
  import opened LogInvariant
  import opened ReadSlices
  import opened RetentionPolicy
  import opened GroupStates
  import CrashRecovery

  // ----- the system -----

  /** One topic: its groups in memory and as saved, its partitions, and the clamps a retention pass
      is holding. */
  datatype Sys = Sys(groups: GroupsState, saved: GroupsState, logs: seq<LogState>, snapshot: Option<seq<Clamp>>)

  datatype TopicEvent =
    | Produce(partition: nat, key: seq<byte>, value: seq<byte>, acks: int, now: Int64, faults: Faults)
    | JoinTopic(group: string, topic: string, member: string, size: int, saveWorks: bool)
    | CommitAt(group: string, topic: string, partition: nat, offset: int, saveWorks: bool)
    | Fetch
    | Snapshot
    | Delete(partition: nat, policy: Policy, time: int, mtimes: seq<int>, stuck: set<int>)
    | CrashAndReopen
    | Restart

  /** The boundary one partition's deletions must respect: the smallest next offset of any group that
      has joined the topic. */
  ghost predicate IsClamp(gs: GroupsState, topic: string, partition: int, clamp: Clamp) {
    match clamp
    case Unclamped => forall g :: !HasJoined(gs, g, topic)
    case Below(bound) => IsBound(gs, gs.Keys, topic, partition, bound)
  }

  ghost predicate AreClamps(gs: GroupsState, topic: string, clamps: seq<Clamp>, partitions: nat) {
    |clamps| == partitions && forall p | 0 <= p < partitions :: IsClamp(gs, topic, p, clamps[p])
  }

  function Deleted(s: LogState, clamp: Clamp, policy: Policy, now: int, mtimes: seq<int>, stuck: set<int>): LogState
    requires |mtimes| == |s.sealed|
  {
    if s.failed then s else Without(s, Doomed(s, mtimes, policy, now, clamp) - stuck)
  }

  ghost predicate TopicStep(topic: string, a: Sys, ev: TopicEvent, b: Sys) {
    match ev
    case Produce(p, key, value, acks, now, faults) =>
      p < |a.logs| && b == a.(logs := a.logs[p := AppendSpec(a.logs[p], key, value, acks, now, faults).0])
    case JoinTopic(group, t, member, size, saveWorks) =>
      size >= 1 && ValidName(group) &&
      var (gs, res) := JoinSpec(a.groups, |a.logs|, group, t, member, size, saveWorks);
      b == a.(groups := gs, saved := if res.Joined? then gs else a.saved)
    case CommitAt(group, t, p, offset, saveWorks) =>
      p < |a.logs| &&
      var (gs, res) := CommitSpec(a.groups, group, t, p, offset, a.logs[p].nextOffset, saveWorks);
      b == a.(groups := gs, saved := if res.Committed? then gs else a.saved)
    case Fetch => b == a
    case Snapshot =>
      b.snapshot.Some? && b == a.(snapshot := b.snapshot) && AreClamps(a.groups, topic, b.snapshot.value, |a.logs|)
    case Delete(p, policy, now, mtimes, stuck) =>
      a.snapshot.Some? && p < |a.logs| && p < |a.snapshot.value| && |mtimes| == |a.logs[p].sealed| &&
      b == a.(logs := a.logs[p := Deleted(a.logs[p], a.snapshot.value[p], policy, now, mtimes, stuck)])
    case CrashAndReopen =>
      b.snapshot == None && b.groups == b.saved == a.saved && |b.logs| == |a.logs| &&
      forall p | 0 <= p < |a.logs| :: CrashRecovery.Recovers(a.logs[p], b.logs[p])
    case Restart =>
      b.snapshot == None && b.groups == b.saved == a.saved && |b.logs| == |a.logs| &&
      forall p | 0 <= p < |a.logs| :: OpenSpec(DiskOf(a.logs[p]), a.logs[p].limits) == Some(b.logs[p])
  }

  ghost predicate AllValid(logs: seq<LogState>) {
    forall p | 0 <= p < |logs| :: Inv(logs[p])
  }

  ghost predicate IsTopicRun(topic: string, run: seq<Sys>, evs: seq<TopicEvent>) {
    && |run| == |evs| + 1 && AllValid(run[0].logs)
    && forall k | 0 <= k < |evs| :: TopicStep(topic, run[k], evs[k], run[k + 1])
  }

  // ----- what every step keeps -----

  lemma DeleteKeeps(s: LogState, clamp: Clamp, policy: Policy, now: int, mtimes: seq<int>, stuck: set<int>)
    requires Inv(s) && |mtimes| == |s.sealed|
    ensures Inv(Deleted(s, clamp, policy, now, mtimes, stuck))
    ensures Deleted(s, clamp, policy, now, mtimes, stuck).nextOffset == s.nextOffset
  {
    hide Inv, Doomed;
    if !s.failed {
      WithoutKeeps(s, Doomed(s, mtimes, policy, now, clamp) - stuck);
    }
  }

  lemma StepKeepsValid(topic: string, a: Sys, ev: TopicEvent, b: Sys)
    requires AllValid(a.logs) && TopicStep(topic, a, ev, b)
    ensures AllValid(b.logs) && |b.logs| == |a.logs|
  {
    hide Inv, AppendSpec, Deleted, JoinSpec, CommitSpec, AreClamps, Log, Contiguous, CrashRecovery.Recovers, OpenSpec,
         DiskOf;
    match ev
    case Produce(p, key, value, acks, now, faults) => AppendKeeps(a.logs[p], key, value, acks, now, faults);
    case Delete(p, policy, now, mtimes, stuck) =>
      DeleteKeeps(a.logs[p], a.snapshot.value[p], policy, now, mtimes, stuck);
    case CrashAndReopen =>
      forall p | 0 <= p < |a.logs|
        ensures Inv(b.logs[p])
      {
        CrashRecovery.RecoversValid(a.logs[p], b.logs[p]);
      }
    case Restart =>
      forall p | 0 <= p < |a.logs|
        ensures Inv(b.logs[p])
      {
        CrashRecovery.RestartOfValid(a.logs[p]);
      }
    case _ =>
  }

  lemma {:induction false} RunKeepsValid(topic: string, run: seq<Sys>, evs: seq<TopicEvent>, k: nat)
    requires IsTopicRun(topic, run, evs) && k < |run|
    ensures AllValid(run[k].logs) && |run[k].logs| == |run[0].logs|
  {
    hide TopicStep, AllValid;
    if k > 0 {
      RunKeepsValid(topic, run, evs, k - 1);
      StepKeepsValid(topic, run[k - 1], evs[k - 1], run[k]);
    }
  }

  // ----- the window between snapshot and deletion -----

  /** Joins by groups already in the topic, and commits that do not move a cursor back. */
  ghost predicate Harmless(topic: string, a: Sys, ev: TopicEvent) {
    match ev
    case JoinTopic(group, t, _, _, _) => t == topic ==> HasJoined(a.groups, group, topic)
    case CommitAt(group, t, p, offset, _) =>
      t == topic && HasJoined(a.groups, group, topic) ==> NextOf(a.groups[group][topic], p) <= offset + 1
    case _ => true
  }

  ghost predicate KeepsSnapshot(ev: TopicEvent) {
    !ev.Snapshot? && !ev.CrashAndReopen? && !ev.Restart?
  }

  /** Every group joined now was joined then, and is at least as far. */
  ghost predicate CursorsAdvanced(topic: string, gs: GroupsState, gs': GroupsState) {
    forall g | HasJoined(gs', g, topic) ::
      HasJoined(gs, g, topic) && forall p :: NextOf(gs[g][topic], p) <= NextOf(gs'[g][topic], p)
  }

  lemma JoinAdvances(gs: GroupsState, partitions: nat, group: string, t: string, member: string, size: int,
                     saveWorks: bool, topic: string)
    requires size >= 1 && (t == topic ==> HasJoined(gs, group, topic))
    ensures CursorsAdvanced(topic, gs, JoinSpec(gs, partitions, group, t, member, size, saveWorks).0)
  {
    hide PartsOf, GeneratedName, IndexOf;
  }

  lemma CommitAdvances(gs: GroupsState, group: string, t: string, p: int, offset: int, latest: int, saveWorks: bool,
                       topic: string)
    requires t == topic && HasJoined(gs, group, topic) ==> NextOf(gs[group][topic], p) <= offset + 1
    ensures CursorsAdvanced(topic, gs, CommitSpec(gs, group, t, p, offset, latest, saveWorks).0)
  {
  }

  lemma HarmlessAdvances(topic: string, a: Sys, ev: TopicEvent, b: Sys)
    requires TopicStep(topic, a, ev, b) && KeepsSnapshot(ev)
    ensures a.snapshot == b.snapshot
    ensures Harmless(topic, a, ev) ==> CursorsAdvanced(topic, a.groups, b.groups)
  {
    hide AppendSpec, Deleted, JoinSpec, CommitSpec, AreClamps, CursorsAdvanced;
    match ev
    case JoinTopic(group, t, member, size, saveWorks) =>
      if Harmless(topic, a, ev) {
        JoinAdvances(a.groups, |a.logs|, group, t, member, size, saveWorks, topic);
      }
    case CommitAt(group, t, p, offset, saveWorks) =>
      if Harmless(topic, a, ev) {
        CommitAdvances(a.groups, group, t, p, offset, a.logs[p].nextOffset, saveWorks, topic);
      }
    case _ => SameAdvanced(topic, a.groups);
  }

  lemma SameAdvanced(topic: string, gs: GroupsState)
    ensures CursorsAdvanced(topic, gs, gs)
  {
  }

  lemma AdvancedTransitive(topic: string, a: GroupsState, b: GroupsState, c: GroupsState)
    requires CursorsAdvanced(topic, a, b) && CursorsAdvanced(topic, b, c)
    ensures CursorsAdvanced(topic, a, c)
  {
    hide NextOf;
    forall g | HasJoined(c, g, topic)
      ensures HasJoined(a, g, topic) && forall p :: NextOf(a[g][topic], p) <= NextOf(c[g][topic], p)
    {
      forall p
        ensures NextOf(a[g][topic], p) <= NextOf(c[g][topic], p)
      {
        assert NextOf(a[g][topic], p) <= NextOf(b[g][topic], p) <= NextOf(c[g][topic], p);
      }
    }
  }

  lemma {:induction false} WindowAdvances(topic: string, run: seq<Sys>, evs: seq<TopicEvent>, i: nat, j: nat)
    requires IsTopicRun(topic, run, evs) && i < j < |run| && evs[i].Snapshot?
    requires forall k | i < k < j :: KeepsSnapshot(evs[k])
    ensures run[j].snapshot == run[i + 1].snapshot
    ensures (forall k | i < k < j :: Harmless(topic, run[k], evs[k]))
            ==> CursorsAdvanced(topic, run[i].groups, run[j].groups)
  {
    hide TopicStep, CursorsAdvanced, Harmless, KeepsSnapshot;
    if j == i + 1 {
      SnapshotKeepsGroups(topic, run[i], evs[i], run[j]);
      SameAdvanced(topic, run[i].groups);
    } else {
      WindowAdvances(topic, run, evs, i, j - 1);
      HarmlessAdvances(topic, run[j - 1], evs[j - 1], run[j]);
      if forall k | i < k < j :: Harmless(topic, run[k], evs[k]) {
        AdvancedTransitive(topic, run[i].groups, run[j - 1].groups, run[j].groups);
      }
    }
  }

  lemma SnapshotKeepsGroups(topic: string, a: Sys, ev: TopicEvent, b: Sys)
    requires TopicStep(topic, a, ev, b) && ev.Snapshot?
    ensures b.groups == a.groups && b.snapshot.Some? && AreClamps(a.groups, topic, b.snapshot.value, |a.logs|)
  {
    hide AreClamps;
  }

  // ----- safety -----

  lemma DeletedIsBelow(s: LogState, clamp: Clamp, policy: Policy, now: int, mtimes: seq<int>, stuck: set<int>,
                       offset: int)
    requires Inv(s) && |mtimes| == |s.sealed| && clamp.Below? && clamp.bound <= offset
    ensures FromOffset(Log(Deleted(s, clamp, policy, now, mtimes, stuck)), offset) == FromOffset(Log(s), offset)
  {
    hide Sealed, ActiveOk, Log, FromOffset, Doomed;
    var gone := Doomed(s, mtimes, policy, now, clamp) - stuck;
    forall i | 0 <= i < |s.sealed| && s.sealed[i].base in gone
      ensures EndOf(s.sealed[i]) <= offset
    {
      DeletedEndsBelow(s, mtimes, policy, now, clamp.bound, i);
    }
    WithoutFromOffset(s, gone, offset);
  }

  /** A delete step never removes a record at or above any group's next offset as of its snapshot,
      whatever happened in between. */
  lemma DeleteRespectsSnapshot(topic: string, run: seq<Sys>, evs: seq<TopicEvent>, i: nat, j: nat, g: string)
    requires IsTopicRun(topic, run, evs) && i < j < |evs| && evs[i].Snapshot? && evs[j].Delete?
    requires forall k | i < k < j :: KeepsSnapshot(evs[k])
    requires HasJoined(run[i].groups, g, topic)
    ensures var p := evs[j].partition;
            && p < |run[j].logs| && p < |run[j + 1].logs|
            && forall offset | offset >= NextOf(run[i].groups[g][topic], p) ::
                 FromOffset(Log(run[j + 1].logs[p]), offset) == FromOffset(Log(run[j].logs[p]), offset)
  {
    hide Inv, Deleted, FromOffset, Log, NextOf, AppendSpec, JoinSpec, CommitSpec;
    var p := evs[j].partition;
    WindowAdvances(topic, run, evs, i, j);
    SnapshotKeepsGroups(topic, run[i], evs[i], run[i + 1]);
    RunKeepsValid(topic, run, evs, i);
    RunKeepsValid(topic, run, evs, j);
    assert TopicStep(topic, run[j], evs[j], run[j + 1]);
    var clamp := run[j].snapshot.value[p];
    assert IsClamp(run[i].groups, topic, p, clamp);
    forall offset | offset >= NextOf(run[i].groups[g][topic], p)
      ensures FromOffset(Log(run[j + 1].logs[p]), offset) == FromOffset(Log(run[j].logs[p]), offset)
    {
      DeletedIsBelow(run[j].logs[p], clamp, evs[j].policy, evs[j].time, evs[j].mtimes, evs[j].stuck, offset);
    }
  }

  /** Retention safety with a stale clamp: if between snapshot and deletion no group joins the topic
      and no commit moves backwards, then no group joined at the time of the deletion loses a record
      at or above its next offset. */
  lemma NoGroupLosesRecords(topic: string, run: seq<Sys>, evs: seq<TopicEvent>, i: nat, j: nat, g: string)
    requires IsTopicRun(topic, run, evs) && i < j < |evs| && evs[i].Snapshot? && evs[j].Delete?
    requires forall k | i < k < j :: KeepsSnapshot(evs[k]) && Harmless(topic, run[k], evs[k])
    requires HasJoined(run[j].groups, g, topic)
    ensures var p := evs[j].partition;
            && p < |run[j].logs| && p < |run[j + 1].logs|
            && forall offset | offset >= NextOf(run[j].groups[g][topic], p) ::
                 FromOffset(Log(run[j + 1].logs[p]), offset) == FromOffset(Log(run[j].logs[p]), offset)
  {
    hide TopicStep, FromOffset, Log, NextOf, Harmless;
    WindowAdvances(topic, run, evs, i, j);
    DeleteRespectsSnapshot(topic, run, evs, i, j, g);
  }

  // ----- why the hypotheses are needed -----

  /** Exactly when a deletion is safe for a group: every segment it deletes ends at or below the
      group's next offset at that moment. */
  lemma DeletionSafeIff(topic: string, a: Sys, ev: TopicEvent, b: Sys, g: string)
    requires AllValid(a.logs) && ev.Delete? && TopicStep(topic, a, ev, b) && HasJoined(a.groups, g, topic)
    requires !a.logs[ev.partition].failed
    ensures var p := ev.partition; var s := a.logs[p]; var next := NextOf(a.groups[g][topic], p);
            var gone := Doomed(s, ev.mtimes, ev.policy, ev.time, a.snapshot.value[p]) - ev.stuck;
            (forall offset | offset >= next :: FromOffset(Log(b.logs[p]), offset) == FromOffset(Log(s), offset))
            <==> forall i | 0 <= i < |s.sealed| && s.sealed[i].base in gone :: EndOf(s.sealed[i]) <= next
  {
    hide Inv, Log, FromOffset, Doomed, NextOf;
    var p := ev.partition;
    var s, next := a.logs[p], NextOf(a.groups[g][topic], p);
    var gone := Doomed(s, ev.mtimes, ev.policy, ev.time, a.snapshot.value[p]) - ev.stuck;
    assert b.logs[p] == Without(s, gone);
    UnnoticedIff(s, gone, next);
    forall offset | offset >= next
      ensures (forall i | 0 <= i < |s.sealed| && s.sealed[i].base in gone :: EndOf(s.sealed[i]) <= next)
              ==> FromOffset(Log(b.logs[p]), offset) == FromOffset(Log(s), offset)
    {
      UnnoticedIff(s, gone, offset);
    }
  }

  lemma OnlyOldestDoomed(s: LogState, mtimes: seq<int>, policy: Policy, now: int, clamp: Clamp)
    requires s.sealed != [] && BelowClamp(s.sealed[0], clamp) && policy == Policy(1, 0) && now == NS_PER_MS
    requires |mtimes| == |s.sealed| && mtimes[0] == -1 && forall i | 0 < i < |mtimes| :: mtimes[i] == 0
    ensures Doomed(s, mtimes, policy, now, clamp) == {s.sealed[0].base}
  {
    assert Reach(s.sealed, clamp) > 0;
    assert mtimes[0] < Cutoff(policy, now);
  }

  /** The group has records to read in partition p that are no longer there. */
  ghost predicate Loses(b: Sys, c: Sys, topic: string, g: string, p: nat) {
    && HasJoined(b.groups, g, topic) && p < |b.logs| && p < |c.logs|
    && var next := NextOf(b.groups[g][topic], p);
       exists offset :: offset >= next && FromOffset(Log(c.logs[p]), offset) != FromOffset(Log(b.logs[p]), offset)
  }

  /** Some sealed segment within the clamp's reach ends past the offset. */
  predicate Exposed(s: LogState, clamp: Clamp, next: int) {
    exists i :: 0 <= i < Reach(s.sealed, clamp) && EndOf(s.sealed[i]) > next
  }

  /** A pass that finds every segment expired dooms all within the clamp's reach. */
  lemma AllDoomed(s: LogState, mtimes: seq<int>, clamp: Clamp, i: nat)
    requires i < Reach(s.sealed, clamp) && |mtimes| == |s.sealed| && forall k | 0 <= k < |mtimes| :: mtimes[k] == -1
    ensures s.sealed[i].base in Doomed(s, mtimes, Policy(1, 0), NS_PER_MS, clamp)
  {
    assert mtimes[i] < Cutoff(Policy(1, 0), NS_PER_MS);
  }

  lemma ExposedIsLost(topic: string, b: Sys, g: string, p: nat) returns (ev: TopicEvent, c: Sys)
    requires AllValid(b.logs) && p < |b.logs| && !b.logs[p].failed && HasJoined(b.groups, g, topic)
    requires b.snapshot.Some? && p < |b.snapshot.value|
    requires Exposed(b.logs[p], b.snapshot.value[p], NextOf(b.groups[g][topic], p))
    ensures ev.Delete? && ev.partition == p && TopicStep(topic, b, ev, c) && Loses(b, c, topic, g, p)
  {
    hide Inv, Log, FromOffset, Doomed, NextOf, Keep, Reach;
    var s, clamp, next := b.logs[p], b.snapshot.value[p], NextOf(b.groups[g][topic], p);
    var mtimes := seq(|s.sealed|, _ => -1);
    var gone := Doomed(s, mtimes, Policy(1, 0), NS_PER_MS, clamp) - {};
    var i :| 0 <= i < Reach(s.sealed, clamp) && EndOf(s.sealed[i]) > next;
    AllDoomed(s, mtimes, clamp, i);
    UnnoticedIff(s, gone, next);
    ev := Delete(p, Policy(1, 0), NS_PER_MS, mtimes, {});
    c := b.(logs := b.logs[p := Without(s, gone)]);
  }

  /** What a deletion takes from a group is exposed. */
  lemma LostWasExposed(topic: string, b: Sys, ev: TopicEvent, c: Sys, g: string, p: nat)
    requires AllValid(b.logs) && ev.Delete? && ev.partition == p && TopicStep(topic, b, ev, c)
             && Loses(b, c, topic, g, p)
    requires b.snapshot.Some? && p < |b.snapshot.value|
    ensures Exposed(b.logs[p], b.snapshot.value[p], NextOf(b.groups[g][topic], p))
  {
    hide Inv, Log, FromOffset, Deleted, NextOf, Exposed, AllValid;
    var s, clamp, next := b.logs[p], b.snapshot.value[p], NextOf(b.groups[g][topic], p);
    var offset :| offset >= next && FromOffset(Log(c.logs[p]), offset) != FromOffset(Log(s), offset);
    OneValid(b.logs, p);
    DeletedWasExposed(s, clamp, ev.policy, ev.time, ev.mtimes, ev.stuck, next, offset);
  }

  lemma OneValid(logs: seq<LogState>, p: nat)
    requires AllValid(logs) && p < |logs|
    ensures Inv(logs[p])
  {
    hide Inv;
  }

  lemma DeletedWasExposed(s: LogState, clamp: Clamp, policy: Policy, now: int, mtimes: seq<int>, stuck: set<int>,
                          next: int, offset: int)
    requires Inv(s) && |mtimes| == |s.sealed| && offset >= next
    requires FromOffset(Log(Deleted(s, clamp, policy, now, mtimes, stuck)), offset) != FromOffset(Log(s), offset)
    ensures Exposed(s, clamp, next)
  {
    hide Inv, Log, FromOffset, Doomed, Keep, Reach;
    var gone := Doomed(s, mtimes, policy, now, clamp) - stuck;
    UnnoticedIff(s, gone, offset);
    var i :| 0 <= i < |s.sealed| && s.sealed[i].base in gone && EndOf(s.sealed[i]) > offset;
    DoomedIsReached(s, mtimes, policy, now, clamp, i);
  }

  lemma DoomedIsReached(s: LogState, mtimes: seq<int>, policy: Policy, now: int, clamp: Clamp, i: nat)
    requires Inv(s) && |mtimes| == |s.sealed| && i < |s.sealed|
             && s.sealed[i].base in Doomed(s, mtimes, policy, now, clamp)
    ensures i < Reach(s.sealed, clamp)
  {
    hide Inv, Doomed, Reach, BasesOf;
    InvParts(s);
    BasesAscend(s);
    DoomedIsBelowClamp(s, mtimes, policy, now, clamp);
    BaseInIff(s.sealed, Reach(s.sealed, clamp), i);
  }

  /** A group can lose records to a deletion under the clamps held exactly when a sealed segment within
      the clamp's reach ends past its next offset. */
  lemma CanLoseIff(topic: string, b: Sys, g: string, p: nat)
    requires AllValid(b.logs) && p < |b.logs| && !b.logs[p].failed && HasJoined(b.groups, g, topic)
    requires b.snapshot.Some? && p < |b.snapshot.value|
    ensures (exists ev: TopicEvent, c ::
               ev.Delete? && ev.partition == p && TopicStep(topic, b, ev, c) && Loses(b, c, topic, g, p))
            <==> Exposed(b.logs[p], b.snapshot.value[p], NextOf(b.groups[g][topic], p))
  {
    hide TopicStep, Loses, Exposed, NextOf, AllValid;
    if Exposed(b.logs[p], b.snapshot.value[p], NextOf(b.groups[g][topic], p)) {
      var ev, c := ExposedIsLost(topic, b, g, p);
    }
    if ev: TopicEvent, c :| ev.Delete? && ev.partition == p && TopicStep(topic, b, ev, c) && Loses(b, c, topic, g, p) {
      LostWasExposed(topic, b, ev, c, g, p);
    }
  }

  /** A rewind inside the window can lose records: the group goes back before the end of a segment that
      the clamp had already released, and the deletion takes that segment. */
  lemma RewindInWindowLoses(topic: string, a: Sys, g: string, p: nat, offset: int)
    returns (b: Sys, ev: TopicEvent, c: Sys)
    requires AllValid(a.logs) && p < |a.logs| && !a.logs[p].failed && HasJoined(a.groups, g, topic)
    requires a.snapshot.Some? && p < |a.snapshot.value| && 0 <= offset
    requires Exposed(a.logs[p], a.snapshot.value[p], offset + 1)
    ensures TopicStep(topic, a, CommitAt(g, topic, p, offset, true), b)
    ensures ev.Delete? && TopicStep(topic, b, ev, c) && Loses(b, c, topic, g, p)
  {
    hide Inv, Loses, Reach;
    ExposedIsPublished(a.logs[p], a.snapshot.value[p], offset + 1);
    var gs: GroupsState := CommitSpec(a.groups, g, topic, p, offset, a.logs[p].nextOffset, true).0;
    assert NextOf(gs[g][topic], p) == offset + 1;
    b := a.(groups := gs, saved := gs);
    ev, c := ExposedIsLost(topic, b, g, p);
  }

  lemma ExposedIsPublished(s: LogState, clamp: Clamp, next: int)
    requires Inv(s) && Exposed(s, clamp, next)
    ensures next < s.nextOffset
  {
    hide Inv, Reach;
    var i :| 0 <= i < Reach(s.sealed, clamp) && EndOf(s.sealed[i]) > next;
    SearchFacts(s);
    assert Segs(s)[i] == s.sealed[i];
  }

  /** A join inside the window can lose records: nothing held back a segment the new group would have
      begun with. */
  lemma JoinInWindowLoses(topic: string, a: Sys, g: string, member: string, p: nat)
    returns (b: Sys, ev: TopicEvent, c: Sys)
    requires AllValid(a.logs) && p < |a.logs| && !a.logs[p].failed && ValidName(g) && !HasJoined(a.groups, g, topic)
    requires a.snapshot.Some? && p < |a.snapshot.value| && Exposed(a.logs[p], a.snapshot.value[p], 0)
    ensures TopicStep(topic, a, JoinTopic(g, topic, member, 1, true), b)
    ensures ev.Delete? && TopicStep(topic, b, ev, c) && Loses(b, c, topic, g, p)
  {
    hide Inv, Loses, PartsOf, GeneratedName, ValidName, Exposed;
    var gs: GroupsState := JoinSpec(a.groups, |a.logs|, g, topic, member, 1, true).0;
    b := a.(groups := gs, saved := gs);
    assert HasJoined(gs, g, topic) && NextOf(gs[g][topic], p) == 0;
    ev, c := ExposedIsLost(topic, b, g, p);
  }
}
