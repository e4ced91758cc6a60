/** A group's cursor against the log end: what its lag says, and what happens to it when a crash takes
    the log end back below the last commit. */
module Cursors {
  import opened Bytes
  import opened Records
  import opened FrameRuns
  import opened LogStates
  import opened LogInvariant
  import opened ReadSlices
  import opened GroupStates
  import opened Groups
  import opened Consuming

  // ----- lag -----

  /** Without gaps, what a group still wants is every offset from the start of its next fetch to the
      log end, each exactly once and in order. */
  lemma WantedIsEveryOffset(s: LogState, next: int)
    requires Inv(s) && Contiguous(Segs(s))
    ensures var start := StartIn(s, next);
            Run(Wanted(s, next), start) && start + |Wanted(s, next)| == s.nextOffset
  {
    hide Content, LogOf, FromOffset, Countable, Sealed, ActiveOk, Run;
    AllCountable(s);
    LogIsAll(s);
    ContiguousIsRun(Segs(s));
    StartInRange(s, next);
    StartSkipsNothing(s, next);
    var first, start := Segs(s)[0].base, StartIn(s, next);
    FromOffsetInRun(Log(s), first, start);
    assert Log(s) == Log(s)[..start - first] + Log(s)[start - first..];
    RunSplit(Log(s), start - first, first);
  }

  /** The lag a group reports for a partition is how many records a drain delivers to it exactly when
      its cursor lies in the readable range; it is negative exactly when the cursor is past the end. */
  lemma LagIsDeliveredIff(s: LogState, b: Binding, partition: int)
    requires Inv(s) && Contiguous(Segs(s))
    ensures var next := NextOf(b, partition); var lag := LagOf(s, b, partition).lag;
            && (lag == |Wanted(s, next)| <==> Segs(s)[0].base <= next <= s.nextOffset)
            && (lag < 0 <==> next > s.nextOffset)
  {
    hide Inv, Wanted, Contiguous;
    WantedIsEveryOffset(s, NextOf(b, partition));
    EndAfterStart(s);
  }

  // ----- the log end moves backwards -----

  datatype Act =
    | Send(key: seq<byte>, value: seq<byte>, acks: int, now: Int64, faults: Faults)
    | Poll(maxRecords: int, maxBytes: int)

  function RunActs(s: LogState, acts: seq<Act>): LogState {
    if acts == [] then s
    else
      var t := RunActs(s, acts[..|acts| - 1]);
      match acts[|acts| - 1]
      case Send(key, value, acks, now, faults) => AppendSpec(t, key, value, acks, now, faults).0
      case Poll(_, _) => t
  }

  /** A run of appends and polls only adds records, one after the other from the log end on. */
  lemma {:induction false} RunAdds(s: LogState, acts: seq<Act>) returns (added: seq<Record>)
    requires Inv(s)
    ensures var t := RunActs(s, acts);
            && Inv(t) && Log(t) == Log(s) + added && Segs(t)[0].base == Segs(s)[0].base
            && |added| == t.nextOffset - s.nextOffset
            && forall i | 0 <= i < |added| :: added[i].offset == s.nextOffset + i
  {
    hide Inv, Log, AppendSpec, Contiguous;
    if acts == [] {
      added := [];
      assert Log(s) + [] == Log(s);
    } else {
      added := RunAdds(s, acts[..|acts| - 1]);
      var t := RunActs(s, acts[..|acts| - 1]);
      match acts[|acts| - 1]
      case Poll(_, _) =>
      case Send(key, value, acks, now, faults) =>
        AppendKeeps(t, key, value, acks, now, faults);
        AppendKeepsFirst(t, key, value, acks, now, faults);
        var res := AppendSpec(t, key, value, acks, now, faults).1;
        if res.Appended? {
          ConcatAssoc(Log(s), added, [res.record]);
          added := added + [res.record];
        }
    }
  }

  /** After a crash that left the log end below the cursor, fetches stay empty until the log end is past
      the cursor again; then delivery goes on with exactly the next uncommitted offset. Records that
      were since written at the reused offsets below it are not delivered. */
  lemma RewoundCursor(s: LogState, b: Binding, partition: int, acts: seq<Act>, pf: PartitionFetch, maxRecords: int,
                      maxBytes: int)
    requires Inv(s) && s.nextOffset < NextOf(b, partition)
    requires IsFetch(pf, partition, RunActs(s, acts), NextOf(b, partition), maxRecords, maxBytes)
    ensures var t := RunActs(s, acts); var next := NextOf(b, partition);
            && (pf.records == [] <==> t.nextOffset <= next)
            && (pf.records == [] ==> pf.nextOffset == t.nextOffset)
            && (forall i | 0 <= i < |pf.records| :: pf.records[i].offset == next + i)
            && (LagOf(t, b, partition).lag < 0 <==> t.nextOffset < next)
  {
    hide Inv, Log, FromOffset;
    var t, next := RunActs(s, acts), NextOf(b, partition);
    var added := RunAdds(s, acts);
    EndAfterStart(s);
    if t.nextOffset > next {
      var k := next - s.nextOffset;
      LogAscends(s);
      forall i | 0 <= i < |Log(s) + added[..k]|
        ensures (Log(s) + added[..k])[i].offset < next
      {
      }
      assert added == added[..k] + added[k..];
      ConcatAssoc(Log(s), added[..k], added[k..]);
      FromOffsetSplit(Log(s) + added[..k], added[k..], next);
    }
  }
}
