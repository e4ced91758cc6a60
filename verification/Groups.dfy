/** The broker's consumer groups: joins, commits, retention clamps, fetches and lag. */
module Groups {
  import opened Records
  import opened LogStates
  import opened ReadSlices
  import opened PartitionLogs
  import opened GroupStates
  import opened GroupEnvelope
  import opened RetentionPolicy
  import opened RetentionSafety

  class Broker {
    const topics: map<string, seq<PartitionLog>>
    var groups: GroupsState
    var saved: Envelope  // the groups file
    var closed: bool

    constructor (topics: map<string, seq<PartitionLog>>)
      ensures this.topics == topics && groups == map[] && !closed
    {
      this.topics := topics;
      groups, closed := map[], false;
      saved := Envelope(GROUPS_VERSION, []);
    }

    /** Saves the groups as they are in memory; the file is replaced as a whole or not at all. */
    method SaveGroupsLocked(works: bool) returns (ok: bool)
      modifies this`saved
      ensures ok == works && (if ok then IsEnvelope(saved, groups) else saved == old(saved))
    {
      hide IsEnvelope;
      if works {
        saved := SaveGroups(groups);
      }
      ok := works;
    }

    /** Registers a member and returns its partitions. A conflict changes nothing; a failed save is
        reported but leaves the member joined in memory. */
    method JoinGroup(group: string, topic: string, member: string, size: int, saveWorks: bool) returns (res: JoinResult)
      modifies this`groups, this`saved
      ensures if !ValidName(group) then res == InvalidName && groups == old(groups)
              else if size < 1 then res == InvalidSize && groups == old(groups)
              else if closed then res == JoinClosed && groups == old(groups)
              else if topic !in topics then res == JoinTopicNotFound && groups == old(groups)
              else (groups, res) == JoinSpec(old(groups), |topics[topic]|, group, topic, member, size, saveWorks)
      ensures ValidName(group) && size >= 1 && !closed && topic in topics ==>
                JoinAnswers(old(groups), groups, res, |topics[topic]|, group, topic, member, size, saveWorks)
      ensures if res.Joined? then IsEnvelope(saved, groups) else saved == old(saved)
    {
      hide IsEnvelope, ValidName, PartsOf, GeneratedName, IndexOf, JoinAnswers;
      if size >= 1 && topic in topics {
        JoinSpecAnswers(groups, |topics[topic]|, group, topic, member, size, saveWorks);
      }
      if !ValidName(group) {
        return InvalidName;
      }
      if size < 1 {
        return InvalidSize;
      }
      if closed {
        return JoinClosed;
      }
      if topic !in topics {
        return JoinTopicNotFound;
      }
      var gs := groups;
      if group !in gs {
        gs := gs[group := map[]];
      }
      if topic !in gs[group] {
        gs := gs[group := gs[group][topic := Binding(size, [], map[])]];
      }
      var b := gs[group][topic];
      if b.size != size {
        return SizeConflict;
      }
      var ordinal := FindMember(b.members, member);
      var name := member;
      if ordinal < 0 {
        if |b.members| >= b.size {
          return GroupFull;
        }
        if member == "" {
          name := GeneratedName(|b.members| + 1);
        }
        b := b.(members := b.members + [name]);
        ordinal := |b.members| - 1;
      }
      groups := gs[group := gs[group][topic := b]];
      assert gs[group][topic := b] == BindingsOf(old(groups), group)[topic := b];
      assert groups == Rebind(old(groups), group, topic, b);
      var ok := SaveGroupsLocked(saveWorks);
      if !ok {
        return JoinNotPersisted;
      }
      var parts := OwnedPartitions(|topics[topic]|, b.size, ordinal);
      return Joined(Assignment(group, name, topic, parts));
    }

    /** Records the last processed offset. The in-memory change stands only if the save succeeds. */
    method CommitOffset(group: string, topic: string, partition: int, offset: int, saveWorks: bool)
      returns (res: CommitResult)
      modifies this`groups, this`saved
      ensures if closed then res == CommitClosed && groups == old(groups)
              else if topic !in topics || !(0 <= partition < |topics[topic]|) then
                res == NoSuchPartition && groups == old(groups)
              else if topics[topic][partition].closed then res == CommitClosed && groups == old(groups)
              else (groups, res) == CommitSpec(old(groups), group, topic, partition, offset,
                                               topics[topic][partition].nextOffset, saveWorks)
      ensures res == CommitClosed
              <==> closed || (topic in topics && 0 <= partition < |topics[topic]| && topics[topic][partition].closed)
      ensures res == NoSuchPartition <==> !closed && !(topic in topics && 0 <= partition < |topics[topic]|)
      ensures res == CommitClosed || res == NoSuchPartition ==> groups == old(groups)
      ensures res != CommitClosed && res != NoSuchPartition ==>
                CommitAnswers(old(groups), groups, res, group, topic, partition, offset,
                              topics[topic][partition].nextOffset, saveWorks)
      ensures if res.Committed? then IsEnvelope(saved, groups) else saved == old(saved)
    {
      hide IsEnvelope, CommitAnswers;
      if topic in topics && 0 <= partition < |topics[topic]| {
        CommitSpecAnswers(groups, group, topic, partition, offset, topics[topic][partition].nextOffset, saveWorks);
      }
      if closed {
        return CommitClosed;
      }
      if topic !in topics || !(0 <= partition < |topics[topic]|) {
        return NoSuchPartition;
      }
      if topics[topic][partition].closed {
        return CommitClosed;
      }
      var latest := topics[topic][partition].nextOffset;
      if offset < 0 || offset >= latest {
        return CommitOutOfRange;
      }
      if !HasJoined(groups, group, topic) {
        return CommitGroupNotFound;
      }
      var before := groups;
      var b := groups[group][topic];
      groups := groups[group := groups[group][topic := b.(offsets := b.offsets[partition := offset])]];
      assert groups == Rebind(before, group, topic, b.(offsets := b.offsets[partition := offset]));
      var ok := SaveGroupsLocked(saveWorks);
      if !ok {
        groups := before;
        return CommitNotPersisted;
      }
      return Committed;
    }

    /** For every partition of a topic, the smallest offset a joined group has yet to read; a group that
        never committed holds everything back. */
    method RetentionClamps(topic: string, partitions: nat) returns (bounds: seq<int>, clamped: bool)
      ensures |bounds| == partitions
      ensures clamped <==> exists g :: HasJoined(groups, g, topic)
      ensures forall p | 0 <= p < partitions :: IsClamp(groups, topic, p, ClampOf(clamped, bounds[p]))
    {
      bounds := seq(partitions, _ => MAX_INT64);
      clamped := false;
      var rest := groups.Keys;
      while rest != {}
        invariant rest <= groups.Keys && |bounds| == partitions
        invariant clamped <==> exists g :: g in groups.Keys - rest && HasJoined(groups, g, topic)
        invariant forall p | 0 <= p < partitions :: IsBound(groups, groups.Keys - rest, topic, p, bounds[p])
        decreases rest
      {
        var g :| g in rest;
        ghost var done := groups.Keys - rest;
        if topic in groups[g] {
          assert HasJoined(groups, g, topic);
          clamped := true;
          bounds := LowerBounds(topic, g, bounds, done);
        } else {
          SameBounds(topic, g, bounds, done);
        }
        rest := rest - {g};
        assert groups.Keys - rest == done + {g};
      }
      assert groups.Keys - rest == groups.Keys;
      if !clamped {
        forall g
          ensures !HasJoined(groups, g, topic)
        {
          assert g in groups ==> g in groups.Keys - rest;
        }
      }
      assert forall p | 0 <= p < partitions :: IsBound(groups, groups.Keys, topic, p, bounds[p]);
      forall p | 0 <= p < partitions
        ensures IsClamp(groups, topic, p, ClampOf(clamped, bounds[p]))
      {
        hide IsBound;
        assert IsBound(groups, groups.Keys, topic, p, bounds[p]);
      }
    }

    lemma SameBounds(topic: string, g: string, bounds: seq<int>, done: set<string>)
      requires !HasJoined(groups, g, topic)
      requires forall p | 0 <= p < |bounds| :: IsBound(groups, done, topic, p, bounds[p])
      ensures forall p | 0 <= p < |bounds| :: IsBound(groups, done + {g}, topic, p, bounds[p])
    {
    }

    /** Lowers each bound to one group's next offset where that is smaller. */
    method LowerBounds(topic: string, g: string, was: seq<int>, ghost done: set<string>) returns (bounds: seq<int>)
      requires HasJoined(groups, g, topic)
      requires forall p | 0 <= p < |was| :: IsBound(groups, done, topic, p, was[p])
      ensures |bounds| == |was|
      ensures forall p | 0 <= p < |bounds| :: IsBound(groups, done + {g}, topic, p, bounds[p])
    {
      bounds := was;
      var b := groups[g][topic];
      var p := 0;
      while p < |was|
        invariant 0 <= p <= |was| == |bounds|
        invariant forall q | 0 <= q < p :: IsBound(groups, done + {g}, topic, q, bounds[q])
        invariant forall q | p <= q < |was| :: bounds[q] == was[q]
      {
        var bound := if p in b.offsets then b.offsets[p] + 1 else 0;
        LowerBound(topic, g, p, was[p], done);
        if bound < bounds[p] {
          bounds := bounds[p := bound];
        }
        p := p + 1;
      }
    }

    lemma LowerBound(topic: string, g: string, p: int, was: int, done: set<string>)
      requires HasJoined(groups, g, topic) && IsBound(groups, done, topic, p, was)
      ensures var next := NextOf(groups[g][topic], p);
              IsBound(groups, done + {g}, topic, p, if next < was then next else was)
    {
    }

    // ----- fetching -----

    /** The records from the next uncommitted offset on, for every partition the member owns. */
    method FetchGroup(group: string, topic: string, member: string, maxRecords: int, maxBytes: int,
                      ghost states: seq<LogState>)
      returns (res: FetchResult)
      requires topic in topics ==>
                 && |states| == |topics[topic]|
                 && forall i | 0 <= i < |topics[topic]| :: Serving(topics[topic][i], states[i])
      requires HasJoined(groups, group, topic) ==> groups[group][topic].size >= 1
      ensures if closed then res == FetchClosed
              else if topic !in topics then res == FetchTopicNotFound
              else IsGroupFetch(res, groups, group, topic, member, states, maxRecords, maxBytes)
    {
      hide Serving, IsOwnedFetch, PartsOf, ServedAs;
      if closed {
        return FetchClosed;
      }
      if topic !in topics {
        return FetchTopicNotFound;
      }
      if !HasJoined(groups, group, topic) {
        return FetchGroupNotFound;
      }
      var b := groups[group][topic];
      ghost var logs := topics[topic];
      assert forall i, o | 0 <= i < |logs| && o in Footprint(logs[i]) :: allocated(o);
      var served := ServedOrdinal(b, member);
      if !served.As? {
        return NotServed(served);
      }
      res := FetchOwned(topics[topic], b, served.ordinal, maxRecords, maxBytes, states);
    }
  }

  /** What a group fetch answers for a topic whose partitions are in the given states. */
  ghost predicate IsGroupFetch(res: FetchResult, gs: GroupsState, group: string, topic: string, member: string,
                               states: seq<LogState>, maxRecords: int, maxBytes: int)
  {
    if !HasJoined(gs, group, topic) || gs[group][topic].size < 1 then res == FetchGroupNotFound
    else
      var b := gs[group][topic];
      match ServedAs(b, member)
      case As(ordinal) =>
        IsOwnedFetch(res, PartsOf(|states|, b.size, ordinal), states, b, maxRecords, maxBytes)
      case why => res == NotServed(why)
  }

  function ClampOf(clamped: bool, bound: int): Clamp {
    if clamped then Below(bound) else Unclamped
  }

  datatype FetchResult =
    | FetchedAll(parts: seq<PartitionFetch>)
    | FetchClosed
    | FetchTopicNotFound
    | FetchGroupNotFound
    | NotServed(why: FetchAs)
    | FetchBadArgument

  method FindMember(members: seq<string>, member: string) returns (ordinal: int)
    ensures ordinal == IndexOf(members, member)
  {
    var i := 0;
    while i < |members|
      invariant 0 <= i <= |members| && forall j | 0 <= j < i :: members[j] != member
    {
      if members[i] == member {
        return i;
      }
      i := i + 1;
    }
    return -1;
  }

  /** Every size-th partition, from the ordinal on. */
  method OwnedPartitions(partitions: nat, size: int, ordinal: int) returns (parts: seq<int>)
    requires size >= 1
    ensures parts == PartsOf(partitions, size, ordinal)
  {
    parts := [];
    var p := 0;
    while p < partitions
      invariant 0 <= p <= partitions && parts == PartsOf(p, size, ordinal)
    {
      if p % size == ordinal {
        parts := parts + [p];
      }
      p := p + 1;
    }
  }

  /** The only member may stay unnamed; otherwise the caller must name a member of the group. */
  method ServedOrdinal(b: Binding, member: string) returns (served: FetchAs)
    ensures served == ServedAs(b, member)
  {
    if |b.members| == 1 && (member == "" || member == b.members[0]) {
      return As(0);
    }
    if member == "" {
      return MemberRequired;
    }
    var ordinal := FindMember(b.members, member);
    return if ordinal < 0 then MemberUnknown else As(ordinal);
  }

  // ----- one partition -----

  datatype PartitionFetch = PartitionFetch(partition: int, records: seq<Record>, nextOffset: int, highWatermark: int)

  /** Where a fetch starts: at the cursor, but not below the oldest record and not past the log end. */
  function StartFor(next: int, earliest: int, latest: int): int {
    var start := if next < earliest then earliest else next;
    if start > latest then latest else start
  }

  function StartIn(s: LogState, next: int): int {
    StartFor(next, Segs(s)[0].base, s.nextOffset)
  }

  /** A fetch skips no surviving record at or above the cursor, and gives none below it. */
  lemma StartSkipsNothing(s: LogState, next: int)
    requires Inv(s)
    ensures FromOffset(Log(s), StartIn(s, next)) == FromOffset(Log(s), next)
  {
    hide Inv, Log, FromOffset;
    EndAfterStart(s);
    LogAscends(s);
    if next < Segs(s)[0].base {
      if Log(s) != [] {
        FirstOffset(s, 0);
      }
      FromOffsetSplit([], Log(s), next);
      FromOffsetSplit([], Log(s), Segs(s)[0].base);
      assert [] + Log(s) == Log(s);
    } else if next > s.nextOffset {
      NothingAtEnd(s);
      FromOffsetSplit(Log(s), [], next);
      assert Log(s) + [] == Log(s);
    }
  }

  function AfterLast(records: seq<Record>, start: int): int {
    if records == [] then start else records[|records| - 1].offset + 1
  }

  /** Only a fetch that starts below the log end reads the log, and so looks at the budgets. */
  predicate NeedsRead(s: LogState, next: int) {
    StartIn(s, next) < s.nextOffset
  }

  ghost predicate IsFetch(pf: PartitionFetch, partition: int, s: LogState, next: int, maxRecords: int, maxBytes: int) {
    && pf.partition == partition && pf.highWatermark == s.nextOffset
    && (if NeedsRead(s, next) then IsSlice(FromOffset(Log(s), StartIn(s, next)), pf.records, maxRecords, maxBytes)
        else pf.records == [])
    && pf.nextOffset == AfterLast(pf.records, StartIn(s, next))
  }

  ghost function Footprint(p: PartitionLog): set<object>
    reads p
  {
    {p, p.dir} + (if p.strayFile != null then {p.strayFile} else {})
    + (set sg | sg in p.segments) + (set sg | sg in p.segments :: sg.file)
  }

  ghost predicate Serving(p: PartitionLog, s: LogState)
    reads p, Footprint(p)
  {
    p.Valid() && !p.closed && p.State() == s
  }

  /** The first half of a partition's fetch: where to read from, and the log end to report. */
  method ChooseStart(p: PartitionLog, next: int, ghost s: LogState) returns (start: int, latest: int)
    requires Serving(p, s)
    ensures start == StartIn(s, next) && latest == s.nextOffset
    ensures Segs(s)[0].base <= start <= latest && FromOffset(Log(s), start) == FromOffset(Log(s), next)
  {
    hide Inv, Log, FromOffset;
    EndAfterStart(s);
    StartSkipsNothing(s, next);
    assert forall o | o in Footprint(p) :: allocated(o);
    var _, earliest, end := p.Offsets();
    assert Serving(p, s);
    start, latest := next, end;
    if start < earliest {
      start := earliest;
    }
    if start > latest {
      start := latest;
    }
  }

  /** One partition's part of a fetch, with nothing in between its halves: the start is in range. */
  method FetchPartition(p: PartitionLog, partition: int, next: int, maxRecords: int, maxBytes: int, ghost s: LogState)
    returns (ok: bool, pf: PartitionFetch)
    requires Serving(p, s)
    ensures Serving(p, s)
    ensures ok == ((maxRecords > 0 && maxBytes > 0) || !NeedsRead(s, next))
    ensures ok ==> IsFetch(pf, partition, s, next, maxRecords, maxBytes)
    ensures ok ==> pf.partition == partition && pf.highWatermark == s.nextOffset
  {
    hide Inv, Log, FromOffset, IsSlice;
    assert forall o | o in Footprint(p) :: allocated(o);
    EndAfterStart(s);
    var start, latest := ChooseStart(p, next, s);
    assert Serving(p, s);
    var recs: seq<Record> := [];
    p.SegsAt();
    if start < latest {
      var res := p.ReadFrom(start, maxRecords, maxBytes);
      if !res.Fetched? {
        return false, PartitionFetch(partition, [], start, latest);
      }
      recs := res.records;
    }
    ok, pf := true, PartitionFetch(partition, recs, AfterLast(recs, start), latest);
  }

  /** What a fetch returns for the partitions of an ordinal, in order. */
  ghost predicate IsFetchOfAll(out: seq<PartitionFetch>, parts: seq<int>, states: seq<LogState>, b: Binding,
                               maxRecords: int, maxBytes: int) {
    && |out| == |parts|
    && forall i | 0 <= i < |out| ::
         && 0 <= parts[i] < |states|
         && IsFetch(out[i], parts[i], states[parts[i]], NextOf(b, parts[i]), maxRecords, maxBytes)
  }

  /** Budgets that are not positive are refused as soon as one of the partitions has to be read. */
  ghost predicate IsOwnedFetch(res: FetchResult, parts: seq<int>, states: seq<LogState>, b: Binding, maxRecords: int,
                               maxBytes: int) {
    if || (maxRecords > 0 && maxBytes > 0)
       || forall p | p in parts && 0 <= p < |states| :: !NeedsRead(states[p], NextOf(b, p))
    then res.FetchedAll? && IsFetchOfAll(res.parts, parts, states, b, maxRecords, maxBytes)
    else res == FetchBadArgument
  }

  /** The partitions an ordinal owns, in order. */
  method FetchOwned(logs: seq<PartitionLog>, b: Binding, ordinal: int, maxRecords: int, maxBytes: int,
                    ghost states: seq<LogState>)
    returns (res: FetchResult)
    requires b.size >= 1 && |states| == |logs| && forall i | 0 <= i < |logs| :: Serving(logs[i], states[i])
    ensures IsOwnedFetch(res, PartsOf(|logs|, b.size, ordinal), states, b, maxRecords, maxBytes)
  {
    hide Serving, IsFetch, NeedsRead;
    var out: seq<PartitionFetch> := [];
    var pi := 0;
    while pi < |logs|
      invariant 0 <= pi <= |logs|
      invariant forall i | 0 <= i < |logs| :: Serving(logs[i], states[i])
      invariant IsFetchOfAll(out, PartsOf(pi, b.size, ordinal), states, b, maxRecords, maxBytes)
      invariant !(maxRecords > 0 && maxBytes > 0) ==>
                  forall p | p in PartsOf(pi, b.size, ordinal) && p < |states| :: !NeedsRead(states[p], NextOf(b, p))
    {
      if pi % b.size == ordinal {
        var next := if pi in b.offsets then b.offsets[pi] + 1 else 0;
        assert forall i, o | 0 <= i < |logs| && o in Footprint(logs[i]) :: allocated(o);
        var ok, pf := FetchPartition(logs[pi], pi, next, maxRecords, maxBytes, states[pi]);
        if !ok {
          return FetchBadArgument;
        }
        out := out + [pf];
      }
      pi := pi + 1;
    }
    res := FetchedAll(out);
  }

  // ----- lag -----

  datatype PartitionLag = PartitionLag(partition: int, committed: Option<int>, nextFetch: int, latest: int, lag: int)

  function LagOf(s: LogState, b: Binding, partition: int): PartitionLag {
    var next := NextOf(b, partition);
    var committed := if partition in b.offsets then Some(b.offsets[partition]) else None;
    PartitionLag(partition, committed, next, s.nextOffset, s.nextOffset - next)
  }

  /** One binding's cursors against the log ends. */
  method PartitionLags(logs: seq<PartitionLog>, b: Binding, ghost states: seq<LogState>)
    returns (lags: seq<PartitionLag>)
    requires |states| == |logs| && forall i | 0 <= i < |logs| :: Serving(logs[i], states[i])
    ensures |lags| == |logs| && forall p | 0 <= p < |logs| :: lags[p] == LagOf(states[p], b, p)
    ensures forall p | 0 <= p < |logs| ::
              && lags[p].partition == p && lags[p].latest == states[p].nextOffset
              && lags[p].lag == lags[p].latest - lags[p].nextFetch
              && (if p in b.offsets
                  then lags[p].committed == Some(b.offsets[p]) && lags[p].nextFetch == b.offsets[p] + 1
                  else lags[p].committed == None && lags[p].nextFetch == 0)
  {
    hide Serving;
    lags := [];
    var pi := 0;
    assert forall i, o | 0 <= i < |logs| && o in Footprint(logs[i]) :: allocated(o);
    while pi < |logs|
      invariant 0 <= pi <= |logs| == |states| && |lags| == pi
      invariant forall i | 0 <= i < |logs| :: Serving(logs[i], states[i])
      invariant forall p | 0 <= p < pi :: lags[p] == LagOf(states[p], b, p)
    {
      var latest := LogEnd(logs[pi], states[pi]);
      var committed, next := None, 0;
      if pi in b.offsets {
        committed, next := Some(b.offsets[pi]), b.offsets[pi] + 1;
      }
      lags := lags + [PartitionLag(pi, committed, next, latest, latest - next)];
      pi := pi + 1;
    }
  }

  method LogEnd(p: PartitionLog, ghost s: LogState) returns (latest: int)
    requires Serving(p, s)
    ensures latest == s.nextOffset
  {
    hide Inv;
    var _, _, end := p.Offsets();
    latest := end;
  }
}
