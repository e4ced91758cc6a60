/** From an acknowledgement to the reader: a record that a producer was told is stored stays readable
    for a group that has yet to read it, through appends, deletions, restarts and crashes. */
module EndToEnd {
  import opened Bytes
  import opened Records
  import opened LogStates
  import opened LogInvariant
  import opened ReadSlices
  import opened RetentionPolicy
  import opened GroupStates
  import opened RetentionSafety
  import CrashRecovery

  /** Some history of the partition promises the record. */
  ghost predicate Durable(s: LogState, r: Record) {
    exists h :: CrashRecovery.UpOk(s, h, s.limits) && CrashRecovery.Promised(h, r)
  }

  // ----- one partition -----

  lemma AckedIsDurable(s: LogState, key: seq<byte>, value: seq<byte>, now: Int64, f: Faults, r: Record)
    requires Inv(s) && AppendSpec(s, key, value, ACKS_LEADER, now, f).1 == Appended(r)
    ensures Durable(AppendSpec(s, key, value, ACKS_LEADER, now, f).0, r)
  {
    hide Inv, Log, AppendSpec, CrashRecovery.UpOk, CrashRecovery.Promised, Contiguous;
    var h := CrashRecovery.ValidHasHistory(s);
    CrashRecovery.AppendUp(s, h, key, value, ACKS_LEADER, now, f, s.limits);
    CrashRecovery.AcknowledgedNow(s, h, CrashRecovery.Append(key, value, ACKS_LEADER, now, f), r, s.limits);
    AppendKeeps(s, key, value, ACKS_LEADER, now, f);
  }

  lemma AppendKeepsDurable(s: LogState, key: seq<byte>, value: seq<byte>, acks: int, now: Int64, f: Faults, r: Record)
    requires Inv(s) && Durable(s, r)
    ensures Durable(AppendSpec(s, key, value, acks, now, f).0, r)
  {
    hide Inv, Log, AppendSpec, CrashRecovery.UpOk, CrashRecovery.Promised, CrashRecovery.HistoryAfter, Contiguous;
    var h :| CrashRecovery.UpOk(s, h, s.limits) && CrashRecovery.Promised(h, r);
    CrashRecovery.AppendUp(s, h, key, value, acks, now, f, s.limits);
    CrashRecovery.AppendKeepsPromise(s, h, s.limits, CrashRecovery.Append(key, value, acks, now, f), r);
    AppendKeeps(s, key, value, acks, now, f);
  }

  lemma DeleteKeepsDurable(s: LogState, gone: set<int>, r: Record)
    requires Durable(s, r) && !s.failed && !CrashRecovery.InDeleted(s, gone, r.offset)
    ensures Durable(Without(s, gone), r)
  {
    hide Keep, CrashRecovery.UpOk, CrashRecovery.Promised, CrashRecovery.HistoryWithout, CrashRecovery.InDeleted;
    var h :| CrashRecovery.UpOk(s, h, s.limits) && CrashRecovery.Promised(h, r);
    CrashRecovery.DeleteUp(s, h, s.limits, gone);
    CrashRecovery.DeleteKeepsPromise(s, h, s.limits, gone, r);
  }

  lemma OpenKeepsDurable(d: seq<DiskFile>, h: CrashRecovery.History, limits: Limits, r: Record)
    requires CrashRecovery.DiskCovers(d, h, limits) && CrashRecovery.Promised(h, r)
    ensures var t := OpenSpec(d, limits); t.Some? && Durable(t.value, r)
  {
    hide Inv, Log, OpenSpec, CrashRecovery.UpOk, CrashRecovery.DiskCovers, Contiguous;
    CrashRecovery.OpenRecovers(d, h, limits);
    CrashRecovery.OpenKeepsPromise(d, h, limits, r);
    var t := OpenSpec(d, limits).value;
    CrashRecovery.UpLayout(t, h.(written := Log(t)), limits);
  }

  lemma CrashKeepsDurable(s: LogState, t: LogState, r: Record)
    requires Durable(s, r) && CrashRecovery.Recovers(s, t)
    ensures Durable(t, r)
  {
    hide OpenSpec, DiskOf, Durable, CrashRecovery.UpOk, CrashRecovery.DiskCovers, CrashRecovery.DiskAfterCrash,
         CrashRecovery.Promised;
    var h := PromisingHistory(s, r);
    var e :| CrashRecovery.DiskAfterCrash(DiskOf(s), e) && OpenSpec(e, s.limits) == Some(t);
    CrashRecovery.StopDown(s, h, s.limits);
    CrashRecovery.CrashDown(DiskOf(s), e, h, s.limits);
    OpenKeepsDurable(e, h, s.limits, r);
  }

  lemma PromisingHistory(s: LogState, r: Record) returns (h: CrashRecovery.History)
    requires Durable(s, r)
    ensures CrashRecovery.UpOk(s, h, s.limits) && CrashRecovery.Promised(h, r)
  {
    hide CrashRecovery.UpOk, CrashRecovery.Promised;
    h :| CrashRecovery.UpOk(s, h, s.limits) && CrashRecovery.Promised(h, r);
  }

  lemma RestartKeepsDurable(s: LogState, r: Record)
    requires Durable(s, r)
    ensures var t := OpenSpec(DiskOf(s), s.limits); t.Some? && Durable(t.value, r)
  {
    hide OpenSpec, DiskOf, Durable, CrashRecovery.UpOk, CrashRecovery.DiskCovers, CrashRecovery.Promised;
    var h := PromisingHistory(s, r);
    CrashRecovery.StopDown(s, h, s.limits);
    OpenKeepsDurable(DiskOf(s), h, s.limits, r);
  }

  // ----- the whole system -----

  /** The deletion runs under clamps that no join, rewind, restart or crash has overtaken. */
  ghost predicate HarmlessWindow(topic: string, run: seq<Sys>, evs: seq<TopicEvent>, k: nat)
    requires k < |evs| && k < |run|
  {
    exists i :: 0 <= i < k &&
        evs[i].Snapshot? && forall m | i < m < k :: KeepsSnapshot(evs[m]) && Harmless(topic, run[m], evs[m])
  }

  /** Such a deletion takes no segment that a joined group has yet to finish. */
  lemma DeletionSpares(topic: string, run: seq<Sys>, evs: seq<TopicEvent>, k: nat, g: string, offset: int)
    requires IsTopicRun(topic, run, evs) && k < |evs| && evs[k].Delete? && HarmlessWindow(topic, run, evs, k)
    requires HasJoined(run[k].groups, g, topic) && NextOf(run[k].groups[g][topic], evs[k].partition) <= offset
    ensures var ev := evs[k]; var p := ev.partition; var a := run[k];
            && TopicStep(topic, a, ev, run[k + 1]) && p < |a.logs| && Inv(a.logs[p])
            && a.snapshot.Some? && p < |a.snapshot.value| && |ev.mtimes| == |a.logs[p].sealed|
            && var gone := Doomed(a.logs[p], ev.mtimes, ev.policy, ev.time, a.snapshot.value[p]) - ev.stuck;
               !CrashRecovery.InDeleted(a.logs[p], gone, offset)
  {
    hide Inv, Doomed, NextOf, Harmless, KeepsSnapshot;
    var i :| 0 <= i < k && evs[i].Snapshot?
             && forall m | i < m < k :: KeepsSnapshot(evs[m]) && Harmless(topic, run[m], evs[m]);
    WindowBounds(topic, run, evs, i, k, g, evs[k].partition);
    RunKeepsValid(topic, run, evs, k);
    var ev := evs[k];
    var p, a := ev.partition, run[k];
    assert TopicStep(topic, a, ev, run[k + 1]);
    ClampSpares(a.logs[p], a.snapshot.value[p], ev.policy, ev.time, ev.mtimes, ev.stuck, offset);
  }

  lemma ClampSpares(s: LogState, clamp: Clamp, policy: Policy, now: int, mtimes: seq<int>, stuck: set<int>, offset: int)
    requires Inv(s) && |mtimes| == |s.sealed| && clamp.Below? && clamp.bound <= offset
    ensures !CrashRecovery.InDeleted(s, Doomed(s, mtimes, policy, now, clamp) - stuck, offset)
  {
    hide Inv, Doomed;
    InvParts(s);
    forall i | 0 <= i < |s.sealed| && s.sealed[i].base in Doomed(s, mtimes, policy, now, clamp)
      ensures EndOf(s.sealed[i]) <= offset
    {
      DeletedEndsBelow(s, mtimes, policy, now, clamp.bound, i);
    }
  }

  /** The clamp held at the deletion does not exceed the next offset of a group joined by then. */
  lemma WindowBounds(topic: string, run: seq<Sys>, evs: seq<TopicEvent>, i: nat, k: nat, g: string, p: nat)
    requires IsTopicRun(topic, run, evs) && i < k < |evs| && evs[i].Snapshot?
    requires forall m | i < m < k :: KeepsSnapshot(evs[m]) && Harmless(topic, run[m], evs[m])
    requires HasJoined(run[k].groups, g, topic)
    ensures run[k].snapshot.Some? && |run[k].snapshot.value| == |run[k].logs|
    ensures p < |run[k].logs| ==>
              var clamp := run[k].snapshot.value[p]; clamp.Below? && clamp.bound <= NextOf(run[k].groups[g][topic], p)
  {
    hide Inv, NextOf, Harmless, KeepsSnapshot, TopicStep;
    WindowAdvances(topic, run, evs, i, k);
    SnapshotKeepsGroups(topic, run[i], evs[i], run[i + 1]);
    RunKeepsValid(topic, run, evs, i);
    RunKeepsValid(topic, run, evs, k);
    assert HasJoined(run[i].groups, g, topic);
    if p < |run[k].logs| {
      assert IsClamp(run[i].groups, topic, p, run[k].snapshot.value[p]);
      assert NextOf(run[i].groups[g][topic], p) <= NextOf(run[k].groups[g][topic], p);
    }
  }

  lemma StepKeepsDurable(topic: string, a: Sys, ev: TopicEvent, b: Sys, p: nat, r: Record)
    requires AllValid(a.logs) && TopicStep(topic, a, ev, b) && p < |a.logs| && Durable(a.logs[p], r)
    requires ev.Delete? && ev.partition == p && !a.logs[p].failed ==>
               var gone := Doomed(a.logs[p], ev.mtimes, ev.policy, ev.time, a.snapshot.value[p]) - ev.stuck;
               !CrashRecovery.InDeleted(a.logs[p], gone, r.offset)
    ensures p < |b.logs| && Durable(b.logs[p], r)
  {
    hide Inv, Durable, AppendSpec, JoinSpec, CommitSpec, AreClamps, Without, Doomed, OpenSpec, DiskOf,
         CrashRecovery.Recovers, CrashRecovery.InDeleted;
    match ev
    case Produce(q, key, value, acks, now, faults) =>
      AppendKeepsDurable(a.logs[p], key, value, acks, now, faults, r);
    case Delete(q, policy, now, mtimes, stuck) =>
      if q == p && !a.logs[p].failed {
        DeleteKeepsDurable(a.logs[p], Doomed(a.logs[p], mtimes, policy, now, a.snapshot.value[p]) - stuck, r);
      }
    case CrashAndReopen =>
      CrashKeepsDurable(a.logs[p], b.logs[p], r);
    case Restart =>
      RestartKeepsDurable(a.logs[p], r);
    case _ =>
  }

  /** At every deletion of partition p from step i + 1 to before step j, the group is joined, has not got
      past the offset, and the clamps are still good for it. */
  ghost predicate StillWanted(topic: string, run: seq<Sys>, evs: seq<TopicEvent>, i: nat, j: nat, p: nat, g: string,
                              offset: int)
    requires j <= |evs| && |run| == |evs| + 1
  {
    forall k | i < k < j && evs[k].Delete? && evs[k].partition == p ::
      && HasJoined(run[k].groups, g, topic) && NextOf(run[k].groups[g][topic], p) <= offset
      && HarmlessWindow(topic, run, evs, k)
  }

  lemma {:induction false} DurableOverRun(topic: string, run: seq<Sys>, evs: seq<TopicEvent>, i: nat, j: nat, p: nat,
                                          g: string, r: Record)
    requires IsTopicRun(topic, run, evs) && i < j <= |evs| && p < |run[i + 1].logs| && Durable(run[i + 1].logs[p], r)
    requires StillWanted(topic, run, evs, i, j, p, g, r.offset)
    ensures p < |run[j].logs| && Durable(run[j].logs[p], r)
  {
    hide TopicStep, Durable, AllValid, HarmlessWindow, NextOf, Doomed, CrashRecovery.InDeleted;
    if j > i + 1 {
      var k := j - 1;
      DurableOverRun(topic, run, evs, i, k, p, g, r);
      RunKeepsValid(topic, run, evs, k);
      if evs[k].Delete? && evs[k].partition == p {
        DeletionSpares(topic, run, evs, k, g, r.offset);
      }
      StepKeepsDurable(topic, run[k], evs[k], run[j], p, r);
    }
  }

  /** End to end: a record acknowledged with acks=1 is read at its offset in every later state of the
      topic, crashes and restarts included, as long as every deletion of its partition runs under clamps
      that are still good, and at the time some joined group has yet to read the record. */
  lemma AcknowledgedIsReadable(topic: string, run: seq<Sys>, evs: seq<TopicEvent>, i: nat, j: nat, g: string, r: Record)
    requires IsTopicRun(topic, run, evs) && i < j <= |evs| && evs[i].Produce? && evs[i].acks == ACKS_LEADER
    requires var p := evs[i].partition;
             && p < |run[i].logs|
             && AppendSpec(run[i].logs[p], evs[i].key, evs[i].value, ACKS_LEADER, evs[i].now, evs[i].faults).1
                == Appended(r)
             && StillWanted(topic, run, evs, i, j, p, g, r.offset)
    ensures var p := evs[i].partition; p < |run[j].logs| && ReadsAt(run[j].logs[p], r)
  {
    hide Inv, Durable, AppendSpec, StillWanted, ReadsAt;
    var p := evs[i].partition;
    RunKeepsValid(topic, run, evs, i);
    AckedIsDurable(run[i].logs[p], evs[i].key, evs[i].value, evs[i].now, evs[i].faults, r);
    assert TopicStep(topic, run[i], evs[i], run[i + 1]);
    DurableOverRun(topic, run, evs, i, j, p, g, r);
    var h := PromisingHistory(run[j].logs[p], r);
    CrashRecovery.PromisedIsRead(run[j].logs[p], h, run[j].logs[p].limits, r);
  }
}
