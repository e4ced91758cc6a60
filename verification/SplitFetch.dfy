/** A fetch looks up the readable range under one lock hold and reads under another. What may happen in
    between, and when the read is still in range. */
module SplitFetch {
  import opened Bytes
  import opened Records
  import opened LogStates
  import opened LogInvariant
  import opened ReadSlices
  import opened RetentionPolicy
  import opened GroupStates
  import opened RetentionSafety
  import opened CursorBounds
  import opened EndToEnd
  import opened Groups

  /** The range a read accepts. */
  predicate InRange(s: LogState, offset: int) {
    Earliest(s) <= offset <= s.nextOffset
  }

  /** Between two lock holds of one process there is neither a crash nor a restart. */
  ghost predicate SameProcess(evs: seq<TopicEvent>, i: nat, j: nat)
    requires i <= j <= |evs|
  {
    forall k | i <= k < j :: !evs[k].CrashAndReopen? && !evs[k].Restart?
  }

  /** No deletion of the partition in between moves its start past the offset. */
  ghost predicate StartStaysBelow(run: seq<Sys>, evs: seq<TopicEvent>, i: nat, j: nat, p: nat, offset: int)
    requires i <= j <= |evs| && |run| == |evs| + 1
  {
    forall k | i <= k < j && evs[k].Delete? && evs[k].partition == p ::
      && p < |run[k].logs| && |evs[k].mtimes| == |run[k].logs[p].sealed|
      && run[k].snapshot.Some? && p < |run[k].snapshot.value|
      && var ev, clamp := evs[k], run[k].snapshot.value[p];
         StartAfter(run[k].logs[p], ev.mtimes, ev.policy, ev.time, clamp, ev.stuck) <= offset
  }

  lemma DeletionRaisesStart(s: LogState, clamp: Clamp, policy: Policy, now: int, mtimes: seq<int>, stuck: set<int>)
    requires Inv(s) && |mtimes| == |s.sealed|
    ensures Earliest(s) <= Earliest(Deleted(s, clamp, policy, now, mtimes, stuck))
    ensures Deleted(s, clamp, policy, now, mtimes, stuck).nextOffset == s.nextOffset
  {
    hide Inv, Doomed, Keep;
    if !s.failed {
      var gone := Doomed(s, mtimes, policy, now, clamp) - stuck;
      FirstAfter(s, gone);
      InvParts(s);
      BasesIncrease(s);
      var n := GoneFirst(s.sealed, gone);
      assert n > 0 ==> Segs(s)[0].base < Segs(s)[n].base;
    }
  }

  lemma AppendRaisesEnd(s: LogState, key: seq<byte>, value: seq<byte>, acks: int, now: Int64, f: Faults)
    requires Inv(s)
    ensures var t := AppendSpec(s, key, value, acks, now, f).0;
            s.nextOffset <= t.nextOffset && Earliest(t) == Earliest(s)
  {
    hide Inv, AppendSpec, Log, Contiguous;
    AppendKeeps(s, key, value, acks, now, f);
    AppendKeepsFirst(s, key, value, acks, now, f);
  }

  /** One step that is no crash or restart moves start and end only upwards, the start by deletions. */
  lemma StepMovesUp(topic: string, a: Sys, ev: TopicEvent, b: Sys, p: nat)
    requires AllValid(a.logs) && TopicStep(topic, a, ev, b) && p < |a.logs| && !ev.CrashAndReopen? && !ev.Restart?
    ensures p < |b.logs| && Earliest(a.logs[p]) <= Earliest(b.logs[p]) && a.logs[p].nextOffset <= b.logs[p].nextOffset
    ensures if ev.Delete? && ev.partition == p then
              && |ev.mtimes| == |a.logs[p].sealed| && a.snapshot.Some? && p < |a.snapshot.value|
              && Earliest(b.logs[p])
                 == StartAfter(a.logs[p], ev.mtimes, ev.policy, ev.time, a.snapshot.value[p], ev.stuck)
            else Earliest(b.logs[p]) == Earliest(a.logs[p])
  {
    hide Inv, AppendSpec, JoinSpec, CommitSpec, AreClamps, Deleted, StartAfter, Earliest;
    match ev
    case Produce(q, key, value, acks, now, faults) =>
      AppendRaisesEnd(a.logs[p], key, value, acks, now, faults);
    case Delete(q, policy, now, mtimes, stuck) =>
      if q == p {
        DeletionRaisesStart(a.logs[p], a.snapshot.value[p], policy, now, mtimes, stuck);
        StartAfterIs(a.logs[p], mtimes, policy, now, a.snapshot.value[p], stuck);
      }
    case _ =>
  }

  lemma {:induction false} WindowMovesUp(topic: string, run: seq<Sys>, evs: seq<TopicEvent>, i: nat, j: nat, p: nat,
                                         offset: int)
    requires IsTopicRun(topic, run, evs) && i <= j <= |evs| && SameProcess(evs, i, j) && p < |run[i].logs|
    requires Earliest(run[i].logs[p]) <= offset
    ensures p < |run[j].logs| && run[i].logs[p].nextOffset <= run[j].logs[p].nextOffset
    ensures Earliest(run[j].logs[p]) <= offset <==> StartStaysBelow(run, evs, i, j, p, offset)
  {
    hide TopicStep, AllValid, Earliest, StartAfter;
    if i < j {
      var k := j - 1;
      WindowMovesUp(topic, run, evs, i, k, p, offset);
      RunKeepsValid(topic, run, evs, k);
      StepMovesUp(topic, run[k], evs[k], run[j], p);
    }
  }

  /** A fetch chooses its start at step i and reads at step j. The read is in range exactly when no
      deletion in between moves the partition's start past it. */
  lemma SplitFetchIff(topic: string, run: seq<Sys>, evs: seq<TopicEvent>, i: nat, j: nat, p: nat, next: int)
    requires IsTopicRun(topic, run, evs) && i <= j <= |evs| && SameProcess(evs, i, j) && p < |run[i].logs|
    ensures p < |run[j].logs|
    ensures var start := StartIn(run[i].logs[p], next);
            InRange(run[j].logs[p], start) <==> StartStaysBelow(run, evs, i, j, p, start)
  {
    hide Inv, StartAfter, StartStaysBelow;
    RunKeepsValid(topic, run, evs, i);
    RangeOfStart(run[i].logs[p], next);
    WindowMovesUp(topic, run, evs, i, j, p, StartIn(run[i].logs[p], next));
  }

  lemma RangeOfStart(s: LogState, next: int)
    requires Inv(s)
    ensures InRange(s, StartIn(s, next))
  {
    hide Inv;
    EndAfterStart(s);
  }

  /** In a partition without gaps, deletions under clamps that are still good for a group leave the read
      in range, as long as the group's cursor has not got past the start chosen. */
  lemma {:induction false} HarmlessWindowsKeepRange(topic: string, run: seq<Sys>, evs: seq<TopicEvent>, i: nat, j: nat,
                                                    p: nat, g: string, next: int)
    requires IsTopicRun(topic, run, evs) && i <= j <= |evs| && SameProcess(evs, i, j) && p < |run[i].logs|
    requires forall k | i <= k < j && evs[k].Delete? && evs[k].partition == p ::
               && p < |run[k].logs| && Contiguous(Segs(run[k].logs[p])) && HarmlessWindow(topic, run, evs, k)
               && HasJoined(run[k].groups, g, topic)
               && NextOf(run[k].groups[g][topic], p) <= StartIn(run[i].logs[p], next)
    ensures p < |run[j].logs| && InRange(run[j].logs[p], StartIn(run[i].logs[p], next))
  {
    hide Inv, TopicStep, StartAfter, StartStaysBelow, Earliest, HarmlessWindow, NextOf, StartIn, Contiguous;
    var start := StartIn(run[i].logs[p], next);
    RunKeepsValid(topic, run, evs, i);
    RangeOfStart(run[i].logs[p], next);
    if i < j {
      var k := j - 1;
      HarmlessWindowsKeepRange(topic, run, evs, i, k, p, g, next);
      RunKeepsValid(topic, run, evs, k);
      StepMovesUp(topic, run[k], evs[k], run[j], p);
      if evs[k].Delete? && evs[k].partition == p {
        WindowKeepsStart(topic, run, evs, k, p, g, start);
      }
    }
  }

  lemma WindowKeepsStart(topic: string, run: seq<Sys>, evs: seq<TopicEvent>, k: nat, p: nat, g: string, start: int)
    requires IsTopicRun(topic, run, evs) && k < |evs| && evs[k].Delete? && evs[k].partition == p && p < |run[k].logs|
    requires Inv(run[k].logs[p]) && Contiguous(Segs(run[k].logs[p])) && HarmlessWindow(topic, run, evs, k)
    requires HasJoined(run[k].groups, g, topic) && NextOf(run[k].groups[g][topic], p) <= start
    requires Earliest(run[k].logs[p]) <= start
    requires |evs[k].mtimes| == |run[k].logs[p].sealed| && run[k].snapshot.Some? && p < |run[k].snapshot.value|
    ensures var ev, clamp := evs[k], run[k].snapshot.value[p];
            StartAfter(run[k].logs[p], ev.mtimes, ev.policy, ev.time, clamp, ev.stuck) <= start
  {
    hide Inv, TopicStep, StartAfter, Earliest, NextOf, Contiguous, Harmless, KeepsSnapshot, Deleted;
    var i :| 0 <= i < k && evs[i].Snapshot?
             && forall m | i < m < k :: KeepsSnapshot(evs[m]) && Harmless(topic, run[m], evs[m]);
    WindowBounds(topic, run, evs, i, k, g, p);
    var s, ev, clamp := run[k].logs[p], evs[k], run[k].snapshot.value[p];
    ClampedDeletionIsSafe(s, clamp, ev.policy, ev.time, ev.mtimes, ev.stuck, start);
    StartAfterIs(s, ev.mtimes, ev.policy, ev.time, clamp, ev.stuck);
  }
}
