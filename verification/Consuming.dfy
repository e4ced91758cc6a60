/** A consumer's loop of group fetches and commits, its lag, and its cursor when the log end moves
    backwards. */
module Consuming {
  import opened Bytes
  import opened Records
  import opened LogStates
  import opened ReadSlices
  import opened PartitionLogs
  import opened GroupStates
  import opened GroupEnvelope
  import opened Groups

  // ----- one partition -----

  /** The records a group has yet to be given: those from its next offset on. */
  function Wanted(s: LogState, next: int): seq<Record> {
    FromOffset(Log(s), next)
  }

  /** The start of a fetch always lies in the readable range. */
  lemma StartInRange(s: LogState, next: int)
    requires Inv(s)
    ensures Segs(s)[0].base <= StartIn(s, next) <= s.nextOffset
    ensures Segs(s)[0].base <= next <= s.nextOffset ==> StartIn(s, next) == next
  {
    hide Inv;
    EndAfterStart(s);
  }

  /** What a fetch returns comes off the front of what the group still wants, and a fetch that returns
      nothing leaves nothing wanted. What a client commits afterwards is always in range. */
  lemma FetchTakes(pf: PartitionFetch, partition: int, s: LogState, next: int, maxRecords: int, maxBytes: int)
    requires Inv(s) && IsFetch(pf, partition, s, next, maxRecords, maxBytes)
    ensures pf.partition == partition && pf.highWatermark == s.nextOffset
    ensures pf.records == [] ==>
              && FromOffset(Log(s), next) == []
              && pf.nextOffset == if next < Segs(s)[0].base then Segs(s)[0].base
                                  else if next > s.nextOffset then s.nextOffset else next
    ensures pf.records != [] ==>
              && FromOffset(Log(s), next) == pf.records + FromOffset(Log(s), pf.nextOffset)
              && pf.nextOffset == pf.records[|pf.records| - 1].offset + 1
              && next < pf.nextOffset <= s.nextOffset && StartIn(s, pf.nextOffset) == pf.nextOffset
  {
    hide Inv, Log, FromOffset;
    var start := StartIn(s, next);
    StartInRange(s, next);
    NothingAtEnd(s);
    StartSkipsNothing(s, next);
    if pf.records != [] {
      LogAscends(s);
      ReadOn(Log(s), s.nextOffset, start, pf.records);
      StartInRange(s, pf.nextOffset);
    }
  }

  lemma WantedTakes(pf: PartitionFetch, partition: int, s: LogState, next: int, maxRecords: int, maxBytes: int)
    requires Inv(s) && IsFetch(pf, partition, s, next, maxRecords, maxBytes)
    ensures if pf.records == [] then Wanted(s, next) == []
            else Wanted(s, next) == pf.records + Wanted(s, pf.nextOffset) && next < pf.nextOffset <= s.nextOffset
  {
    hide Inv, Log, FromOffset, IsFetch;
    FetchTakes(pf, partition, s, next, maxRecords, maxBytes);
  }

  // ----- one round of fetch and commit -----

  /** The cursors after a client has committed everything it fetched. */
  function Advanced(b: Binding, out: seq<PartitionFetch>): (b': Binding)
    ensures b'.size == b.size && b'.members == b.members
  {
    if out == [] then b
    else
      var front, pf := Advanced(b, out[..|out| - 1]), out[|out| - 1];
      if pf.records == [] then front else front.(offsets := front.offsets[pf.partition := pf.nextOffset - 1])
  }

  lemma {:induction false} AdvancedNext(b: Binding, out: seq<PartitionFetch>, parts: seq<int>, p: int)
    requires |out| == |parts| && forall i | 0 <= i < |out| :: out[i].partition == parts[i]
    requires forall i, j | 0 <= i < j < |parts| :: parts[i] < parts[j]
    ensures p !in parts ==> NextOf(Advanced(b, out), p) == NextOf(b, p)
    ensures forall i | 0 <= i < |out| && parts[i] == p ::
              NextOf(Advanced(b, out), p) == if out[i].records == [] then NextOf(b, p) else out[i].nextOffset
  {
    if out != [] {
      var n := |out| - 1;
      AdvancedNext(b, out[..n], parts[..n], p);
      if p in parts[..n] {
        var i :| 0 <= i < n && parts[..n][i] == p;
        assert parts[i] == p;
      }
    }
  }

  /** How many records a group has yet to be given. */
  ghost function Left(parts: seq<int>, states: seq<LogState>, b: Binding): nat {
    if parts == [] then 0
    else
      var p := parts[|parts| - 1];
      Left(parts[..|parts| - 1], states, b) + if 0 <= p < |states| then |Wanted(states[p], NextOf(b, p))| else 0
  }

  ghost predicate AllInv(states: seq<LogState>) {
    forall i | 0 <= i < |states| :: Inv(states[i])
  }

  ghost function Count(out: seq<PartitionFetch>): nat {
    if out == [] then 0 else Count(out[..|out| - 1]) + |out[|out| - 1].records|
  }

  /** A round hands over the records it fetched and leaves exactly the rest wanted. */
  ghost predicate Hands(out: seq<PartitionFetch>, parts: seq<int>, states: seq<LogState>, b: Binding, b': Binding) {
    && |out| == |parts|
    && forall i | 0 <= i < |parts| ::
         && 0 <= parts[i] < |states| && out[i].partition == parts[i]
         && Wanted(states[parts[i]], NextOf(b, parts[i]))
            == out[i].records + Wanted(states[parts[i]], NextOf(b', parts[i]))
  }

  lemma RoundHands(out: seq<PartitionFetch>, parts: seq<int>, states: seq<LogState>, b: Binding, maxRecords: int,
                   maxBytes: int)
    requires AllInv(states) && IsFetchOfAll(out, parts, states, b, maxRecords, maxBytes)
    requires forall i, j | 0 <= i < j < |parts| :: parts[i] < parts[j]
    ensures Hands(out, parts, states, b, Advanced(b, out))
    ensures forall p | p !in parts :: NextOf(Advanced(b, out), p) == NextOf(b, p)
    ensures forall i | 0 <= i < |out| && out[i].records != [] ::
              NextOf(b, parts[i]) < out[i].nextOffset <= states[parts[i]].nextOffset
  {
    hide Inv, Wanted, NextOf;
    forall i | 0 <= i < |parts|
      ensures 0 <= parts[i] < |states| && out[i].partition == parts[i]
      ensures Wanted(states[parts[i]], NextOf(b, parts[i]))
              == out[i].records + Wanted(states[parts[i]], NextOf(Advanced(b, out), parts[i]))
      ensures out[i].records != [] ==> NextOf(b, parts[i]) < out[i].nextOffset <= states[parts[i]].nextOffset
    {
      var p := parts[i];
      WantedTakes(out[i], p, states[p], NextOf(b, p), maxRecords, maxBytes);
      AdvancedNext(b, out, parts, p);
    }
    forall p | p !in parts
      ensures NextOf(Advanced(b, out), p) == NextOf(b, p)
    {
      AdvancedNext(b, out, parts, p);
    }
  }

  lemma {:induction false} RoundCounts(out: seq<PartitionFetch>, parts: seq<int>, states: seq<LogState>, b: Binding,
                                       b': Binding)
    requires Hands(out, parts, states, b, b')
    ensures Left(parts, states, b) == Left(parts, states, b') + Count(out)
  {
    hide Wanted, NextOf;
    if parts != [] {
      var n := |parts| - 1;
      RoundCounts(out[..n], parts[..n], states, b, b');
    }
  }

  // ----- what a consumer has been given -----

  datatype Delivery = Delivery(partition: int, record: Record)

  function OfPartition(printed: seq<Delivery>, p: int): seq<Record> {
    if printed == [] then []
    else
      var front, last := OfPartition(printed[..|printed| - 1], p), printed[|printed| - 1];
      if last.partition == p then front + [last.record] else front
  }

  lemma {:induction false} OfMore(printed: seq<Delivery>, pf: PartitionFetch, p: int)
    ensures OfPartition(printed + Deliveries(pf), p) == OfPartition(printed, p)
                                                           + if p == pf.partition then pf.records else []
    decreases |pf.records|
  {
    var all := printed + Deliveries(pf);
    if pf.records == [] {
      assert all == printed;
    } else {
      var n := |pf.records| - 1;
      var shorter := pf.(records := pf.records[..n]);
      OfMore(printed, shorter, p);
      assert all[..|all| - 1] == printed + Deliveries(shorter);
      assert all[|all| - 1] == Delivery(pf.partition, pf.records[n]);
      assert pf.records == pf.records[..n] + [pf.records[n]];
    }
  }

  function Deliveries(pf: PartitionFetch): seq<Delivery> {
    seq(|pf.records|, i requires 0 <= i < |pf.records| => Delivery(pf.partition, pf.records[i]))
  }

  function AllDeliveries(out: seq<PartitionFetch>): seq<Delivery> {
    if out == [] then [] else AllDeliveries(out[..|out| - 1]) + Deliveries(out[|out| - 1])
  }

  lemma {:induction false} OfRound(printed: seq<Delivery>, out: seq<PartitionFetch>, parts: seq<int>, p: int)
    requires |out| == |parts| && forall i | 0 <= i < |out| :: out[i].partition == parts[i]
    requires forall i, j | 0 <= i < j < |parts| :: parts[i] < parts[j]
    ensures p !in parts ==> OfPartition(printed + AllDeliveries(out), p) == OfPartition(printed, p)
    ensures forall i | 0 <= i < |out| && parts[i] == p ::
              OfPartition(printed + AllDeliveries(out), p) == OfPartition(printed, p) + out[i].records
  {
    hide OfPartition;
    if out == [] {
      assert printed + [] == printed;
    } else {
      var n := |out| - 1;
      OfRound(printed, out[..n], parts[..n], p);
      ConcatAssoc(printed, AllDeliveries(out[..n]), Deliveries(out[n]));
      OfMore(printed + AllDeliveries(out[..n]), out[n], p);
      if p in parts[..n] {
        var i :| 0 <= i < n && parts[..n][i] == p;
        assert parts[i] == p;
      }
    }
  }

  // ----- the consumer's loop -----

  lemma RebindSame(gs: GroupsState, group: string, topic: string)
    requires HasJoined(gs, group, topic)
    ensures Rebind(gs, group, topic, gs[group][topic]) == gs
  {
    assert gs[group][topic := gs[group][topic]] == gs[group];
  }

  lemma RebindTwice(gs: GroupsState, group: string, topic: string, a: Binding, b: Binding)
    ensures HasJoined(Rebind(gs, group, topic, a), group, topic) && Rebind(gs, group, topic, a)[group][topic] == a
    ensures Rebind(Rebind(gs, group, topic, a), group, topic, b) == Rebind(gs, group, topic, b)
    ensures HasJoined(Rebind(gs, group, topic, b), group, topic) && Rebind(gs, group, topic, b)[group][topic] == b
  {
    assert BindingsOf(gs, group)[topic := a][topic := b] == BindingsOf(gs, group)[topic := b];
  }

  /** Commits the last record of one partition's fetch. */
  method CommitLast(broker: Broker, group: string, topic: string, pf: PartitionFetch, ghost gs: GroupsState,
                    ghost b: Binding)
    requires !broker.closed && topic in broker.topics && broker.groups == Rebind(gs, group, topic, b)
    requires 0 <= pf.partition < |broker.topics[topic]| && !broker.topics[topic][pf.partition].closed
    requires 0 < pf.nextOffset <= broker.topics[topic][pf.partition].nextOffset
    modifies broker`groups, broker`saved
    ensures broker.groups == Rebind(gs, group, topic, b.(offsets := b.offsets[pf.partition := pf.nextOffset - 1]))
  {
    hide Rebind, IsEnvelope;
    RebindTwice(gs, group, topic, b, b.(offsets := b.offsets[pf.partition := pf.nextOffset - 1]));
    var res := broker.CommitOffset(group, topic, pf.partition, pf.nextOffset - 1, true);
  }

  lemma RoundStep(out: seq<PartitionFetch>, i: nat, b: Binding)
    requires i < |out|
    ensures var pf := out[i]; var front := Advanced(b, out[..i]);
            && Advanced(b, out[..i + 1])
               == (if pf.records == [] then front
                   else front.(offsets := front.offsets[pf.partition := pf.nextOffset - 1]))
            && AllDeliveries(out[..i + 1]) == AllDeliveries(out[..i]) + Deliveries(pf)
            && Count(out[..i + 1]) == Count(out[..i]) + |pf.records|
  {
    assert out[..i + 1][..i] == out[..i];
  }

  /** Prints what was fetched and commits, for every partition that had records, the last of them. */
  method CommitRound(broker: Broker, group: string, topic: string, fetched: seq<PartitionFetch>, before: seq<Delivery>)
    returns (printed: seq<Delivery>, got: nat)
    requires !broker.closed && topic in broker.topics && HasJoined(broker.groups, group, topic)
    requires forall i | 0 <= i < |fetched| ::
               && 0 <= fetched[i].partition < |broker.topics[topic]|
               && !broker.topics[topic][fetched[i].partition].closed
               && (fetched[i].records != [] ==>
                     0 < fetched[i].nextOffset <= broker.topics[topic][fetched[i].partition].nextOffset)
    modifies broker`groups, broker`saved
    ensures broker.groups == old(Rebind(broker.groups, group, topic, Advanced(broker.groups[group][topic], fetched)))
    ensures printed == before + AllDeliveries(fetched) && got == Count(fetched)
  {
    printed, got := before, 0;
    var i := 0;
    ghost var gs, b := broker.groups, broker.groups[group][topic];
    RebindSame(gs, group, topic);
    assert before + [] == before && fetched[..0] == [];
    hide Rebind, Advanced, AllDeliveries, Count, Deliveries;
    while i < |fetched|
      invariant 0 <= i <= |fetched| && !broker.closed
      invariant broker.groups == Rebind(gs, group, topic, Advanced(b, fetched[..i]))
      invariant printed == before + AllDeliveries(fetched[..i]) && got == Count(fetched[..i])
    {
      var pf := fetched[i];
      RoundStep(fetched, i, b);
      ConcatAssoc(before, AllDeliveries(fetched[..i]), Deliveries(pf));
      printed := printed + Deliveries(pf);
      got := got + |pf.records|;
      if |pf.records| > 0 {
        CommitLast(broker, group, topic, pf, gs, Advanced(b, fetched[..i]));
      }
      i := i + 1;
    }
    assert fetched[..i] == fetched;
  }

  lemma ServingEnd(p: PartitionLog, s: LogState)
    requires Serving(p, s)
    ensures p.nextOffset == s.nextOffset && !p.closed && Inv(s)
  {
    hide Inv;
  }

  /** What was printed so far, followed by what is still wanted, is what was wanted at first. */
  ghost predicate Progressed(printed: seq<Delivery>, parts: seq<int>, states: seq<LogState>, b0: Binding, b: Binding) {
    && (forall i | 0 <= i < |parts| ::
          && 0 <= parts[i] < |states|
          && Wanted(states[parts[i]], NextOf(b0, parts[i]))
             == OfPartition(printed, parts[i]) + Wanted(states[parts[i]], NextOf(b, parts[i])))
    && (forall p | p !in parts :: OfPartition(printed, p) == [] && NextOf(b, p) == NextOf(b0, p))
    && (forall p :: NextOf(b, p) >= 0)
  }

  /** Of each of these partitions the records from the cursor on were printed, and nothing else was;
      nothing is left at or above the new cursor, and no other cursor moved. */
  ghost predicate Drained(printed: seq<Delivery>, parts: seq<int>, states: seq<LogState>, b0: Binding, b: Binding) {
    && b.size == b0.size && b.members == b0.members
    && (forall i | 0 <= i < |parts| ::
          && 0 <= parts[i] < |states|
          && OfPartition(printed, parts[i]) == FromOffset(Log(states[parts[i]]), NextOf(b0, parts[i]))
          && FromOffset(Log(states[parts[i]]), NextOf(b, parts[i])) == [])
    && (forall p | p !in parts :: OfPartition(printed, p) == [] && NextOf(b, p) == NextOf(b0, p))
  }

  /** Nothing is left to be given. */
  ghost predicate AllTaken(parts: seq<int>, states: seq<LogState>, b: Binding) {
    forall i | 0 <= i < |parts| :: 0 <= parts[i] < |states| && Wanted(states[parts[i]], NextOf(b, parts[i])) == []
  }

  lemma DrainStarts(partitions: nat, size: int, ordinal: int, states: seq<LogState>, b: Binding)
    requires size >= 1 && |states| == partitions && forall q | q in b.offsets :: b.offsets[q] >= 0
    ensures Progressed([], PartsOf(partitions, size, ordinal), states, b, b)
  {
    hide Wanted;
    var parts := PartsOf(partitions, size, ordinal);
    forall i | 0 <= i < |parts|
      ensures 0 <= parts[i] < |states|
    {
      assert parts[i] in parts;
    }
  }

  lemma DrainRound(printed: seq<Delivery>, out: seq<PartitionFetch>, parts: seq<int>, states: seq<LogState>,
                   b0: Binding, b: Binding, maxRecords: int, maxBytes: int)
    requires AllInv(states) && IsFetchOfAll(out, parts, states, b, maxRecords, maxBytes)
    requires forall i, j | 0 <= i < j < |parts| :: parts[i] < parts[j]
    requires Progressed(printed, parts, states, b0, b)
    ensures Progressed(printed + AllDeliveries(out), parts, states, b0, Advanced(b, out))
    ensures forall i | 0 <= i < |out| ::
              && 0 <= out[i].partition < |states|
              && (out[i].records != [] ==> 0 < out[i].nextOffset <= states[out[i].partition].nextOffset)
    ensures Left(parts, states, b) == Left(parts, states, Advanced(b, out)) + Count(out)
    ensures Count(out) == 0 ==> AllTaken(parts, states, Advanced(b, out))
  {
    hide Inv, Wanted, NextOf, AllDeliveries, OfPartition, Left, Advanced, Hands;
    var b' := Advanced(b, out);
    RoundHands(out, parts, states, b, maxRecords, maxBytes);
    RoundCounts(out, parts, states, b, b');
    RoundParts(out, parts, states, b, b');
    forall p
      ensures NextOf(b', p) >= 0
    {
      AdvancedNext(b, out, parts, p);
    }
    forall p | p !in parts
      ensures OfPartition(printed + AllDeliveries(out), p) == []
    {
      OfRound(printed, out, parts, p);
    }
    forall i | 0 <= i < |parts|
      ensures Wanted(states[parts[i]], NextOf(b0, parts[i]))
              == OfPartition(printed + AllDeliveries(out), parts[i]) + Wanted(states[parts[i]], NextOf(b', parts[i]))
    {
      var p := parts[i];
      OfRound(printed, out, parts, p);
      ConcatAssoc(OfPartition(printed, p), out[i].records, Wanted(states[p], NextOf(b', p)));
    }
    if Count(out) == 0 {
      forall i | 0 <= i < |parts|
        ensures Wanted(states[parts[i]], NextOf(b', parts[i])) == []
      {
        CountsAll(out, i);
        WantedTakes(out[i], parts[i], states[parts[i]], NextOf(b, parts[i]), maxRecords, maxBytes);
      }
    }
  }

  lemma RoundParts(out: seq<PartitionFetch>, parts: seq<int>, states: seq<LogState>, b: Binding, b': Binding)
    requires Hands(out, parts, states, b, b')
    ensures |out| == |parts|
    ensures forall i | 0 <= i < |parts| ::
              && 0 <= parts[i] < |states| && out[i].partition == parts[i]
              && Wanted(states[parts[i]], NextOf(b, parts[i]))
                 == out[i].records + Wanted(states[parts[i]], NextOf(b', parts[i]))
  {
  }

  lemma {:induction false} CountsAll(out: seq<PartitionFetch>, i: nat)
    requires i < |out|
    ensures |out[i].records| <= Count(out)
  {
    if i < |out| - 1 {
      CountsAll(out[..|out| - 1], i);
    }
  }

  lemma DrainEnds(printed: seq<Delivery>, parts: seq<int>, states: seq<LogState>, b0: Binding, b: Binding)
    requires Progressed(printed, parts, states, b0, b) && b.size == b0.size && b.members == b0.members
    requires AllTaken(parts, states, b)
    ensures Drained(printed, parts, states, b0, b)
  {
    hide FromOffset, Log, NextOf, OfPartition;
    forall i | 0 <= i < |parts|
      ensures OfPartition(printed, parts[i]) == Wanted(states[parts[i]], NextOf(b0, parts[i]))
    {
      assert OfPartition(printed, parts[i]) + [] == OfPartition(printed, parts[i]);
    }
  }

  lemma AllServingEnds(logs: seq<PartitionLog>, states: seq<LogState>)
    requires |states| == |logs| && forall i | 0 <= i < |logs| :: Serving(logs[i], states[i])
    ensures forall i | 0 <= i < |logs| :: logs[i].nextOffset == states[i].nextOffset && !logs[i].closed
  {
    hide Serving, Inv;
    forall i | 0 <= i < |logs|
      ensures logs[i].nextOffset == states[i].nextOffset && !logs[i].closed
    {
      ServingEnd(logs[i], states[i]);
    }
  }

  lemma AllServingInv(logs: seq<PartitionLog>, states: seq<LogState>)
    requires |states| == |logs| && forall i | 0 <= i < |logs| :: Serving(logs[i], states[i])
    ensures AllInv(states)
  {
    hide Serving, Inv;
    forall i | 0 <= i < |states|
      ensures Inv(states[i])
    {
      ServingEnd(logs[i], states[i]);
    }
  }

  lemma FetchSucceeds(res: FetchResult, gs: GroupsState, group: string, topic: string, member: string,
                      states: seq<LogState>, maxRecords: int, maxBytes: int)
    requires HasJoined(gs, group, topic) && gs[group][topic].size >= 1 && ServedAs(gs[group][topic], member).As?
    requires IsGroupFetch(res, gs, group, topic, member, states, maxRecords, maxBytes) && maxRecords > 0 && maxBytes > 0
    ensures var b := gs[group][topic];
            && res.FetchedAll?
            && IsFetchOfAll(res.parts, PartsOf(|states|, b.size, ServedAs(b, member).ordinal), states, b,
                            maxRecords, maxBytes)
  {
    hide IsFetchOfAll, PartsOf, ServedAs;
  }

  lemma SameServed(a: Binding, b: Binding, member: string)
    requires a.members == b.members
    ensures ServedAs(a, member) == ServedAs(b, member)
  {
  }

  lemma PartsAscend(partitions: nat, size: int, ordinal: int)
    requires size >= 1
    ensures var parts := PartsOf(partitions, size, ordinal); forall i, j | 0 <= i < j < |parts| :: parts[i] < parts[j]
  {
  }

  /** One fetch, and a commit for every partition that had records. */
  method Round(broker: Broker, group: string, topic: string, member: string, maxRecords: int, maxBytes: int,
               printed: seq<Delivery>, ghost states: seq<LogState>, ghost parts: seq<int>, ghost b0: Binding,
               ghost b: Binding)
    returns (more: seq<Delivery>, got: nat, ghost b': Binding)
    requires !broker.closed && topic in broker.topics && HasJoined(broker.groups, group, topic)
    requires |states| == |broker.topics[topic]|
             && forall i | 0 <= i < |states| :: Serving(broker.topics[topic][i], states[i])
    requires maxRecords > 0 && maxBytes > 0 && broker.groups[group][topic] == b && b.size >= 1
             && ServedAs(b, member).As?
    requires parts == PartsOf(|states|, b.size, ServedAs(b, member).ordinal)
    requires Progressed(printed, parts, states, b0, b)
    modifies broker`groups, broker`saved
    ensures broker.groups == Rebind(old(broker.groups), group, topic, b')
    ensures b'.size == b.size && b'.members == b.members
    ensures Progressed(more, parts, states, b0, b')
    ensures Left(parts, states, b) == Left(parts, states, b') + got
    ensures got == 0 ==> AllTaken(parts, states, b')
  {
    hide Serving, Rebind, Advanced, Left, Count, AllDeliveries, IsFetchOfAll, Progressed, PartsOf, ServedAs,
         IsGroupFetch, AllInv, Inv, AllTaken;
    AllServingInv(broker.topics[topic], states);
    PartsAscend(|states|, b.size, ServedAs(b, member).ordinal);
    assert forall k, o | 0 <= k < |states| && o in Footprint(broker.topics[topic][k]) :: allocated(o) && o != broker;
    var res := broker.FetchGroup(group, topic, member, maxRecords, maxBytes, states);
    FetchSucceeds(res, broker.groups, group, topic, member, states, maxRecords, maxBytes);
    DrainRound(printed, res.parts, parts, states, b0, b, maxRecords, maxBytes);
    AllServingEnds(broker.topics[topic], states);
    more, got := CommitRound(broker, group, topic, res.parts, printed);
    b' := Advanced(b, res.parts);
  }

  /** Fetches and commits until nothing more comes. Every partition of the member is then read to its
      end, and what was printed of it is exactly what the group still wanted, once and in order. */
  method Drain(broker: Broker, group: string, topic: string, member: string, maxRecords: int, maxBytes: int,
               ghost states: seq<LogState>, ghost parts: seq<int>)
    returns (printed: seq<Delivery>)
    requires !broker.closed && topic in broker.topics && HasJoined(broker.groups, group, topic)
    requires |states| == |broker.topics[topic]|
             && forall i | 0 <= i < |states| :: Serving(broker.topics[topic][i], states[i])
    requires maxRecords > 0 && maxBytes > 0
    requires var b := broker.groups[group][topic];
             && BindingOk(b) && ServedAs(b, member).As?
             && parts == PartsOf(|states|, b.size, ServedAs(b, member).ordinal)
    modifies broker`groups, broker`saved
    ensures HasJoined(broker.groups, group, topic)
    ensures broker.groups == Rebind(old(broker.groups), group, topic, broker.groups[group][topic])
    ensures Drained(printed, parts, states, old(broker.groups[group][topic]), broker.groups[group][topic])
  {
    hide Serving, Rebind, Left, Progressed, Drained, PartsOf, ServedAs, AllTaken;
    printed := [];
    ghost var gs, b0 := broker.groups, broker.groups[group][topic];
    ghost var b := b0;
    RebindSame(gs, group, topic);
    DrainStarts(|states|, b0.size, ServedAs(b0, member).ordinal, states, b0);
    while true
      invariant !broker.closed && HasJoined(broker.groups, group, topic) && broker.groups[group][topic] == b
      invariant forall k | 0 <= k < |states| :: Serving(broker.topics[topic][k], states[k])
      invariant broker.groups == Rebind(gs, group, topic, b)
      invariant b.size == b0.size && b.members == b0.members
      invariant Progressed(printed, parts, states, b0, b)
      decreases Left(parts, states, b)
    {
      assert forall k, o | 0 <= k < |states| && o in Footprint(broker.topics[topic][k]) :: allocated(o) && o != broker;
      SameServed(b, b0, member);
      var got;
      ghost var b';
      printed, got, b' := Round(broker, group, topic, member, maxRecords, maxBytes, printed, states, parts, b0, b);
      RebindTwice(gs, group, topic, b, b');
      b := b';
      if got == 0 {
        DrainEnds(printed, parts, states, b0, b);
        return;
      }
    }
  }
}
