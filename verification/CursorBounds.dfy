/** When the cursors of joined groups stay at or above the oldest surviving record, and when not. */
module CursorBounds {
  import opened LogStates
  import opened LogInvariant
  import opened RetentionPolicy
  import opened GroupStates
  import opened RetentionSafety
  import CrashRecovery

  function Earliest(s: LogState): int {
    Segs(s)[0].base
  }

  /** No joined group would next read below the oldest surviving record. */
  ghost predicate CursorsInLog(topic: string, a: Sys) {
    forall g, p | HasJoined(a.groups, g, topic) && 0 <= p < |a.logs| ::
        Earliest(a.logs[p]) <= NextOf(a.groups[g][topic], p)
  }

  /** What is saved may lack members whose save failed, but its cursors are the ones in memory. */
  ghost predicate SavedBehind(topic: string, a: Sys) {
    forall g | HasJoined(a.saved, g, topic) ::
      HasJoined(a.groups, g, topic) && a.groups[g][topic].offsets == a.saved[g][topic].offsets
  }

  /** The first sealed segment from i on that does not go. */
  function FirstStaying(s: LogState, mtimes: seq<int>, policy: Policy, now: int, clamp: Clamp, stuck: set<int>,
                        i: nat): (n: nat)
    requires |mtimes| == |s.sealed| && i <= |s.sealed|
    ensures i <= n <= |s.sealed|
    ensures forall k | i <= k < n :: Goes(s, mtimes, policy, now, clamp, stuck, k)
    ensures n < |s.sealed| ==> !Goes(s, mtimes, policy, now, clamp, stuck, n)
    decreases |s.sealed| - i
  {
    if i == |s.sealed| || !Goes(s, mtimes, policy, now, clamp, stuck, i) then i
    else FirstStaying(s, mtimes, policy, now, clamp, stuck, i + 1)
  }

  /** Where the log starts once the leading segments that go are gone; a fenced one keeps everything. */
  function StartAfter(s: LogState, mtimes: seq<int>, policy: Policy, now: int, clamp: Clamp, stuck: set<int>): int
    requires |mtimes| == |s.sealed|
  {
    Segs(s)[if s.failed then 0 else FirstStaying(s, mtimes, policy, now, clamp, stuck, 0)].base
  }

  /** An accepted commit does not go below the oldest record; a group new to the topic finds every
      partition still starting at 0; a deletion does not move the start past any joined group. */
  ghost predicate CursorSafe(topic: string, a: Sys, ev: TopicEvent) {
    match ev
    case JoinTopic(group, t, _, _, _) =>
      t == topic && !HasJoined(a.groups, group, topic) ==> forall p | 0 <= p < |a.logs| :: Earliest(a.logs[p]) <= 0
    case CommitAt(group, t, p, offset, saveWorks) =>
      && t == topic && p < |a.logs|
      && CommitSpec(a.groups, group, t, p, offset, a.logs[p].nextOffset, saveWorks).1.Committed?
      ==> Earliest(a.logs[p]) <= offset + 1
    case Delete(p, policy, now, mtimes, stuck) =>
      p < |a.logs| && |mtimes| == |a.logs[p].sealed| && a.snapshot.Some? && p < |a.snapshot.value| ==>
        forall g | HasJoined(a.groups, g, topic) ::
          StartAfter(a.logs[p], mtimes, policy, now, a.snapshot.value[p], stuck) <= NextOf(a.groups[g][topic], p)
    case _ => true
  }

  // ----- one step -----

  lemma JoinCursors(topic: string, a: Sys, ev: TopicEvent, b: Sys)
    requires TopicStep(topic, a, ev, b) && ev.JoinTopic? && CursorsInLog(topic, a)
    ensures CursorsInLog(topic, b) <==> CursorSafe(topic, a, ev)
    ensures SavedBehind(topic, a) ==> SavedBehind(topic, b)
  {
    hide PartsOf, GeneratedName, ValidName, IndexOf, Earliest;
    JoinedOffsets(a.groups, |a.logs|, ev.group, ev.topic, ev.member, ev.size, ev.saveWorks, topic);
    var was, now := a.groups, b.groups;
    if ev.topic == topic && !HasJoined(was, ev.group, topic) {
      assert forall p :: NextOf(now[ev.group][topic], p) == 0;
    }
    forall g, p | HasJoined(was, g, topic) && 0 <= p < |a.logs|
      ensures HasJoined(now, g, topic) && NextOf(now[g][topic], p) == NextOf(was[g][topic], p)
    {
    }
  }

  /** A join changes no cursor; a binding it creates has none. */
  lemma JoinedOffsets(gs: GroupsState, partitions: nat, group: string, t: string, member: string, size: int,
                      saveWorks: bool, topic: string)
    requires size >= 1
    ensures var gs' := JoinSpec(gs, partitions, group, t, member, size, saveWorks).0;
            && (forall g | HasJoined(gs, g, topic) ::
                  HasJoined(gs', g, topic) && gs'[g][topic].offsets == gs[g][topic].offsets)
            && (t == topic && !HasJoined(gs, group, topic) ==>
                  HasJoined(gs', group, topic) && gs'[group][topic].offsets == map[])
            && (forall g | HasJoined(gs', g, topic) :: HasJoined(gs, g, topic) || (g == group && t == topic))
  {
    hide PartsOf, GeneratedName, IndexOf;
    assert t == topic && !HasJoined(gs, group, topic) ==> IndexOf([], member) < 0;
  }

  lemma CommitCursors(topic: string, a: Sys, ev: TopicEvent, b: Sys)
    requires TopicStep(topic, a, ev, b) && ev.CommitAt? && CursorsInLog(topic, a)
    ensures CursorsInLog(topic, b) <==> CursorSafe(topic, a, ev)
    ensures SavedBehind(topic, a) ==> SavedBehind(topic, b)
  {
    hide Earliest;
    var was, now := a.groups, b.groups;
    var latest := a.logs[ev.partition].nextOffset;
    var accepted :=
      CommitSpec(was, ev.group, ev.topic, ev.partition, ev.offset, latest, ev.saveWorks).1.Committed?;
    forall g, p | HasJoined(now, g, topic) && 0 <= p < |a.logs|
      ensures HasJoined(was, g, topic)
      ensures NextOf(now[g][topic], p)
              == if accepted && g == ev.group && topic == ev.topic && p == ev.partition
                 then ev.offset + 1 else NextOf(was[g][topic], p)
    {
    }
    if accepted && ev.topic == topic {
      assert HasJoined(now, ev.group, topic) && NextOf(now[ev.group][topic], ev.partition) == ev.offset + 1;
    }
  }

  /** That is where it does start. */
  lemma StartAfterIs(s: LogState, mtimes: seq<int>, policy: Policy, now: int, clamp: Clamp, stuck: set<int>)
    requires Inv(s) && |mtimes| == |s.sealed|
    ensures Earliest(Deleted(s, clamp, policy, now, mtimes, stuck)) == StartAfter(s, mtimes, policy, now, clamp, stuck)
  {
    hide Inv, Doomed, Goes, Keep;
    if !s.failed {
      var gone := Doomed(s, mtimes, policy, now, clamp) - stuck;
      var n, m := FirstStaying(s, mtimes, policy, now, clamp, stuck, 0), GoneFirst(s.sealed, gone);
      FirstAfter(s, gone);
      if n < |s.sealed| {
        GoesIff(s, mtimes, policy, now, clamp, stuck, n);
      }
      if m < |s.sealed| {
        GoesIff(s, mtimes, policy, now, clamp, stuck, m);
      }
      assert m == n;
    }
  }

  lemma DeleteCursors(topic: string, a: Sys, ev: TopicEvent, b: Sys)
    requires TopicStep(topic, a, ev, b) && ev.Delete? && CursorsInLog(topic, a) && Inv(a.logs[ev.partition])
    ensures CursorsInLog(topic, b) <==> CursorSafe(topic, a, ev)
    ensures SavedBehind(topic, a) ==> SavedBehind(topic, b)
  {
    hide Earliest, NextOf, Deleted, StartAfter, Inv;
    StartAfterIs(a.logs[ev.partition], ev.mtimes, ev.policy, ev.time, a.snapshot.value[ev.partition], ev.stuck);
    var s, clamp := a.logs[ev.partition], a.snapshot.value[ev.partition];
    assert b.logs[ev.partition] == Deleted(s, clamp, ev.policy, ev.time, ev.mtimes, ev.stuck);
    assert forall p | 0 <= p < |a.logs| && p != ev.partition :: b.logs[p] == a.logs[p];
  }

  lemma CrashCursors(topic: string, a: Sys, ev: TopicEvent, b: Sys)
    requires TopicStep(topic, a, ev, b) && ev.CrashAndReopen? && CursorsInLog(topic, a) && AllValid(a.logs)
             && SavedBehind(topic, a)
    ensures CursorsInLog(topic, b) && SavedBehind(topic, b)
  {
    hide Inv, CrashRecovery.Recovers;
    forall p | 0 <= p < |a.logs|
      ensures Earliest(b.logs[p]) == Earliest(a.logs[p])
    {
      CrashRecovery.RecoversValid(a.logs[p], b.logs[p]);
    }
    forall g, p | HasJoined(b.groups, g, topic) && 0 <= p < |b.logs|
      ensures Earliest(b.logs[p]) <= NextOf(b.groups[g][topic], p)
    {
      assert NextOf(b.groups[g][topic], p) == NextOf(a.groups[g][topic], p);
    }
  }

  lemma RestartCursors(topic: string, a: Sys, ev: TopicEvent, b: Sys)
    requires TopicStep(topic, a, ev, b) && ev.Restart? && CursorsInLog(topic, a) && AllValid(a.logs)
             && SavedBehind(topic, a)
    ensures CursorsInLog(topic, b) && SavedBehind(topic, b)
  {
    hide Inv, OpenSpec, DiskOf;
    forall p | 0 <= p < |a.logs|
      ensures Earliest(b.logs[p]) == Earliest(a.logs[p])
    {
      CrashRecovery.RestartOfValid(a.logs[p]);
    }
    forall g, p | HasJoined(b.groups, g, topic) && 0 <= p < |b.logs|
      ensures Earliest(b.logs[p]) <= NextOf(b.groups[g][topic], p)
    {
      assert NextOf(b.groups[g][topic], p) == NextOf(a.groups[g][topic], p);
    }
  }

  lemma ProduceCursors(topic: string, a: Sys, ev: TopicEvent, b: Sys)
    requires TopicStep(topic, a, ev, b) && ev.Produce? && CursorsInLog(topic, a)
    ensures CursorsInLog(topic, b) && (SavedBehind(topic, a) ==> SavedBehind(topic, b))
  {
    hide AppendSpec, NextOf;
    AppendKeepsFirst(a.logs[ev.partition], ev.key, ev.value, ev.acks, ev.now, ev.faults);
    assert forall p | 0 <= p < |a.logs| && p != ev.partition :: b.logs[p] == a.logs[p];
  }

  /** From a state where no cursor is below the oldest record, a step keeps this exactly when it is safe;
      appends, fetches, snapshots and crashes always are. */
  lemma CursorStepIff(topic: string, a: Sys, ev: TopicEvent, b: Sys)
    requires TopicStep(topic, a, ev, b) && AllValid(a.logs) && SavedBehind(topic, a) && CursorsInLog(topic, a)
    ensures CursorsInLog(topic, b) <==> CursorSafe(topic, a, ev)
    ensures SavedBehind(topic, b)
  {
    hide JoinSpec, CommitSpec, AppendSpec, Deleted, AreClamps, Inv, Earliest, StartAfter, NextOf,
         CrashRecovery.Recovers, OpenSpec, DiskOf;
    match ev
    case Produce(_, _, _, _, _, _) => ProduceCursors(topic, a, ev, b);
    case JoinTopic(_, _, _, _, _) => JoinCursors(topic, a, ev, b);
    case CommitAt(_, _, _, _, _) => CommitCursors(topic, a, ev, b);
    case Delete(_, _, _, _, _) => DeleteCursors(topic, a, ev, b);
    case CrashAndReopen => CrashCursors(topic, a, ev, b);
    case Restart => RestartCursors(topic, a, ev, b);
    case _ =>
  }

  // ----- whole runs -----

  /** Over any run, cursors stay at or above the oldest records all the way exactly when every step is
      safe: no commit below the oldest record, no join after a deletion, no deletion past a cursor. */
  lemma {:induction false} CursorRunIff(topic: string, run: seq<Sys>, evs: seq<TopicEvent>, n: nat)
    requires IsTopicRun(topic, run, evs) && n < |run| && CursorsInLog(topic, run[0]) && SavedBehind(topic, run[0])
    ensures (forall k | 0 <= k <= n :: CursorsInLog(topic, run[k]))
            <==> (forall k | 0 <= k < n :: CursorSafe(topic, run[k], evs[k]))
    ensures (forall k | 0 <= k <= n :: CursorsInLog(topic, run[k])) ==> SavedBehind(topic, run[n])
  {
    hide TopicStep, AllValid, CursorsInLog, CursorSafe, SavedBehind;
    if n > 0 {
      CursorRunIff(topic, run, evs, n - 1);
      if forall k | 0 <= k <= n - 1 :: CursorsInLog(topic, run[k]) {
        RunKeepsValid(topic, run, evs, n - 1);
        CursorStepIff(topic, run[n - 1], evs[n - 1], run[n]);
      }
    }
  }

  // ----- deletions under a current clamp -----

  /** How many leading segments go. */
  function GoneFirst(segs: seq<SegState>, gone: set<int>): (n: nat)
    ensures n <= |segs| && (forall i | 0 <= i < n :: segs[i].base in gone) && (n < |segs| ==> segs[n].base !in gone)
  {
    if segs == [] || segs[0].base !in gone then 0 else 1 + GoneFirst(segs[1..], gone)
  }

  lemma KeepOfCons(sg: SegState, rest: seq<SegState>, gone: set<int>)
    ensures Keep([sg] + rest, gone) == (if sg.base in gone then [] else [sg]) + Keep(rest, gone)
  {
    KeepConcat([sg], rest, gone);
    assert [sg][..0] == [];
  }

  lemma {:induction false} FirstKept(segs: seq<SegState>, gone: set<int>)
    ensures var n := GoneFirst(segs, gone);
            if n == |segs| then Keep(segs, gone) == [] else Keep(segs, gone) != [] && Keep(segs, gone)[0] == segs[n]
  {
    hide Keep;
    if segs != [] {
      KeepOfCons(segs[0], segs[1..], gone);
      assert segs == [segs[0]] + segs[1..];
      FirstKept(segs[1..], gone);
    } else {
      KeepNone(segs, gone);
    }
  }

  lemma FirstAfter(s: LogState, gone: set<int>)
    ensures Earliest(Without(s, gone)) == Segs(s)[GoneFirst(s.sealed, gone)].base
  {
    hide Keep, GoneFirst;
    FirstKept(s.sealed, gone);
  }

  /** In a log without gaps, a deletion whose clamp does not exceed a group's cursor, and a start that
      did not, leave the start at or below it. */
  lemma ClampedDeletionIsSafe(s: LogState, clamp: Clamp, policy: Policy, now: int, mtimes: seq<int>, stuck: set<int>,
                              next: int)
    requires Inv(s) && Contiguous(Segs(s)) && |mtimes| == |s.sealed|
    requires clamp.Below? && clamp.bound <= next && Earliest(s) <= next
    ensures Earliest(Deleted(s, clamp, policy, now, mtimes, stuck)) <= next
  {
    hide Doomed, Sealed, ActiveOk;
    if !s.failed {
      var gone := Doomed(s, mtimes, policy, now, clamp) - stuck;
      FirstAfter(s, gone);
      var n := GoneFirst(s.sealed, gone);
      if n > 0 {
        DeletedEndsBelow(s, mtimes, policy, now, clamp.bound, n - 1);
        assert Segs(s)[n].base == EndOf(Segs(s)[n - 1]);
        assert Segs(s)[n - 1] == s.sealed[n - 1];
      }
    }
  }

  /** A deletion under a clamp no join or rewind has overtaken is safe in a partition without gaps. */
  lemma HarmlessDeletionIsSafe(topic: string, run: seq<Sys>, evs: seq<TopicEvent>, i: nat, j: nat)
    requires IsTopicRun(topic, run, evs) && i < j < |evs| && evs[i].Snapshot? && evs[j].Delete?
    requires forall k | i < k < j :: KeepsSnapshot(evs[k]) && Harmless(topic, run[k], evs[k])
    requires CursorsInLog(topic, run[j]) && forall p | 0 <= p < |run[j].logs| :: Contiguous(Segs(run[j].logs[p]))
    ensures CursorSafe(topic, run[j], evs[j])
  {
    hide Inv, Deleted, NextOf, Contiguous, Earliest, StartAfter, Harmless, KeepsSnapshot, TopicStep;
    WindowAdvances(topic, run, evs, i, j);
    SnapshotKeepsGroups(topic, run[i], evs[i], run[i + 1]);
    RunKeepsValid(topic, run, evs, i);
    RunKeepsValid(topic, run, evs, j);
    var a, ev := run[j], evs[j];
    var p := ev.partition;
    if p < |a.logs| && |ev.mtimes| == |a.logs[p].sealed| && a.snapshot.Some? && p < |a.snapshot.value| {
      var clamp := a.snapshot.value[p];
      assert IsClamp(run[i].groups, topic, p, clamp);
      StartAfterIs(a.logs[p], ev.mtimes, ev.policy, ev.time, clamp, ev.stuck);
      forall g | HasJoined(a.groups, g, topic)
        ensures Earliest(Deleted(a.logs[p], clamp, ev.policy, ev.time, ev.mtimes, ev.stuck))
                <= NextOf(a.groups[g][topic], p)
      {
        assert HasJoined(run[i].groups, g, topic);
        assert NextOf(run[i].groups[g][topic], p) <= NextOf(a.groups[g][topic], p);
        ClampedDeletionIsSafe(a.logs[p], clamp, ev.policy, ev.time, ev.mtimes, ev.stuck, NextOf(a.groups[g][topic], p));
      }
    }
  }

  /** Any rewind below the oldest record is accepted, and leaves the cursor there. */
  lemma CommitBelowEarliest(a: Sys, group: string, topic: string, p: nat, offset: int)
    requires HasJoined(a.groups, group, topic) && p < |a.logs|
    requires 0 <= offset && offset + 1 < Earliest(a.logs[p]) <= a.logs[p].nextOffset
    ensures var (gs, res) := CommitSpec(a.groups, group, topic, p, offset, a.logs[p].nextOffset, true);
            res == Committed && HasJoined(gs, group, topic) && NextOf(gs[group][topic], p) < Earliest(a.logs[p])
  {
    hide Earliest;
  }
}
