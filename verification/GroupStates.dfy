/** Consumer groups as values: static membership, one committed offset per partition. */
module GroupStates {
  import opened Records

  // ----- state -----

  /** One (group, topic) binding. Join order is the ordinal; an absent offset means never committed. */
  datatype Binding = Binding(size: int, members: seq<string>, offsets: map<int, int>)

  type GroupsState = map<string, map<string, Binding>>

  function BindingsOf(gs: GroupsState, group: string): map<string, Binding> {
    if group in gs then gs[group] else map[]
  }

  predicate HasJoined(gs: GroupsState, group: string, topic: string) {
    group in gs && topic in gs[group]
  }

  /** The offset a group reads next in a partition, and retention's bound for it. */
  function NextOf(b: Binding, partition: int): int {
    if partition in b.offsets then b.offsets[partition] + 1 else 0
  }

  /** The smallest next offset over some of the groups, starting from the largest possible one. */
  ghost predicate IsBound(gs: GroupsState, names: set<string>, topic: string, partition: int, bound: int) {
    && (forall g | g in names && HasJoined(gs, g, topic) :: bound <= NextOf(gs[g][topic], partition))
    && (bound == MAX_INT64
        || exists g :: g in names && HasJoined(gs, g, topic) && bound == NextOf(gs[g][topic], partition))
  }

  // ----- names -----

  predicate IsAlnum(c: char) {
    'a' <= c <= 'z' || 'A' <= c <= 'Z' || '0' <= c <= '9'
  }

  /** 1 to 249 characters: a letter or digit, then letters, digits, dots, underscores and hyphens. */
  predicate ValidName(name: string) {
    && 1 <= |name| <= 249 && IsAlnum(name[0])
    && forall i | 1 <= i < |name| :: IsAlnum(name[i]) || name[i] in ".-_"
  }

  function Decimal(n: nat): string {
    if n < 10 then ["0123456789"[n]] else Decimal(n / 10) + ["0123456789"[n % 10]]
  }

  function GeneratedName(n: nat): string {
    "member-" + Decimal(n)
  }

  // ----- assignment -----

  /** The position of the first equal element, or -1. */
  function IndexOf(members: seq<string>, member: string): (i: int)
    ensures -1 <= i < |members|
    ensures i >= 0 ==> members[i] == member && forall j | 0 <= j < i :: members[j] != member
    ensures i < 0 ==> member !in members
  {
    if member !in members then -1
    else if members[0] == member then 0
    else 1 + IndexOf(members[1..], member)
  }

  /** The partitions of an ordinal, ascending: every size-th one. */
  function PartsOf(partitions: nat, size: int, ordinal: int): (parts: seq<int>)
    requires size >= 1
    ensures forall p :: p in parts <==> 0 <= p < partitions && p % size == ordinal
    ensures forall i, j | 0 <= i < j < |parts| :: parts[i] < parts[j]
  {
    if partitions == 0 then []
    else
      var front := PartsOf(partitions - 1, size, ordinal);
      assert forall i | 0 <= i < |front| :: front[i] in front;
      if (partitions - 1) % size == ordinal then front + [partitions - 1] else front
  }

  datatype Assignment = Assignment(group: string, member: string, topic: string, partitions: seq<int>)

  datatype JoinResult =
    | Joined(assignment: Assignment)
    | InvalidName
    | InvalidSize
    | JoinTopicNotFound
    | JoinClosed
    | SizeConflict
    | GroupFull
    | JoinNotPersisted

  function Rebind(gs: GroupsState, group: string, topic: string, b: Binding): GroupsState {
    gs[group := BindingsOf(gs, group)[topic := b]]
  }

  /** Registers a member. The first join of a binding fixes its size; a known member changes nothing.
      A failed save leaves the new member in memory. */
  function JoinSpec(gs: GroupsState, partitions: nat, group: string, topic: string, member: string, size: int,
                    saveWorks: bool)
    : (GroupsState, JoinResult)
    requires size >= 1
  {
    var bindings := BindingsOf(gs, group);
    var b := if topic in bindings then bindings[topic] else Binding(size, [], map[]);
    var known := IndexOf(b.members, member);
    if b.size != size then (gs, SizeConflict)
    else if known < 0 && |b.members| >= b.size then (gs, GroupFull)
    else
      var name := if known < 0 && member == "" then GeneratedName(|b.members| + 1) else member;
      var members := if known < 0 then b.members + [name] else b.members;
      var ordinal := if known < 0 then |b.members| else known;
      var gs' := Rebind(gs, group, topic, b.(members := members));
      (gs', if saveWorks then Joined(Assignment(group, name, topic, PartsOf(partitions, size, ordinal)))
            else JoinNotPersisted)
  }

  datatype CommitResult =
    | Committed
    | CommitOutOfRange
    | CommitGroupNotFound
    | CommitClosed
    | CommitNotPersisted
    | NoSuchPartition

  /** Records the last processed offset; moving backwards is allowed. A failed save is undone. */
  function CommitSpec(gs: GroupsState, group: string, topic: string, partition: int, offset: int, latest: int,
                      saveWorks: bool)
    : (GroupsState, CommitResult)
  {
    if offset < 0 || offset >= latest then (gs, CommitOutOfRange)
    else if !HasJoined(gs, group, topic) then (gs, CommitGroupNotFound)
    else if !saveWorks then (gs, CommitNotPersisted)
    else
      var b := gs[group][topic];
      (Rebind(gs, group, topic, b.(offsets := b.offsets[partition := offset])), Committed)
  }

  /** The ordinal a fetch is served under; None when the caller must name a (different) member. */
  datatype FetchAs = As(ordinal: int) | MemberRequired | MemberUnknown

  function ServedAs(b: Binding, member: string): FetchAs {
    if |b.members| == 1 && (member == "" || member == b.members[0]) then As(0)
    else if member == "" then MemberRequired
    else
      var i := IndexOf(b.members, member);
      if i < 0 then MemberUnknown else As(i)
  }

  // ----- the invariant of every reachable state -----

  ghost predicate BindingOk(b: Binding) {
    && 1 <= b.size && 1 <= |b.members| <= b.size && "" !in b.members
    && forall p | p in b.offsets :: b.offsets[p] >= 0
  }

  ghost predicate GroupsOk(gs: GroupsState) {
    forall g | g in gs :: ValidName(g) && forall t | t in gs[g] :: BindingOk(gs[g][t])
  }

  ghost predicate DistinctMembers(members: seq<string>) {
    forall i, j | 0 <= i < j < |members| :: members[i] != members[j]
  }

  // ----- assignment over runs -----

  /** The groups as the broker holds them, and as the groups file does. */
  datatype Memory = Memory(groups: GroupsState, saved: GroupsState)

  datatype GroupOp =
    | Join(group: string, topic: string, member: string, size: int, partitions: nat, saveWorks: bool)
    | Commit(group: string, topic: string, partition: int, offset: int, latest: int, saveWorks: bool)
    | Reload  // the broker restarts from the groups file

  function ApplyOp(m: Memory, op: GroupOp): Memory {
    match op
    case Join(group, topic, member, size, partitions, saveWorks) =>
      if size >= 1 && ValidName(group) then
        var (gs, res) := JoinSpec(m.groups, partitions, group, topic, member, size, saveWorks);
        Memory(gs, if res.Joined? then gs else m.saved)
      else m
    case Commit(group, topic, partition, offset, latest, saveWorks) =>
      var (gs, res) := CommitSpec(m.groups, group, topic, partition, offset, latest, saveWorks);
      Memory(gs, if res.Committed? then gs else m.saved)
    case Reload => Memory(m.saved, m.saved)
  }

  function ApplyOps(m: Memory, ops: seq<GroupOp>): Memory
    decreases |ops|
  {
    if ops == [] then m else ApplyOps(ApplyOp(m, ops[0]), ops[1..])
  }

  /** What no operation takes back: a binding's size, and every member's ordinal. */
  ghost predicate Extends(gs: GroupsState, gs': GroupsState) {
    forall g, t | HasJoined(gs, g, t) ::
      HasJoined(gs', g, t) && gs'[g][t].size == gs[g][t].size && gs[g][t].members <= gs'[g][t].members
  }

  ghost predicate AllDistinct(gs: GroupsState) {
    forall g, t | HasJoined(gs, g, t) :: DistinctMembers(gs[g][t].members)
  }

  lemma RebindExtends(gs: GroupsState, group: string, topic: string, b: Binding)
    requires GroupsOk(gs) && ValidName(group) && BindingOk(b)
    requires HasJoined(gs, group, topic) ==> b.size == gs[group][topic].size && gs[group][topic].members <= b.members
    ensures GroupsOk(Rebind(gs, group, topic, b)) && Extends(gs, Rebind(gs, group, topic, b))
    ensures AllDistinct(gs) && DistinctMembers(b.members) ==> AllDistinct(Rebind(gs, group, topic, b))
  {
    hide ValidName, BindingOk, DistinctMembers;
  }

  lemma JoinExtends(gs: GroupsState, partitions: nat, group: string, topic: string, member: string, size: int,
                    saveWorks: bool)
    requires GroupsOk(gs) && size >= 1 && ValidName(group)
    ensures var gs' := JoinSpec(gs, partitions, group, topic, member, size, saveWorks).0;
            && GroupsOk(gs') && Extends(gs, gs')
            && (AllDistinct(gs) && member != "" ==> AllDistinct(gs'))
  {
    hide PartsOf, GeneratedName, ValidName, Rebind;
    var gs': GroupsState := JoinSpec(gs, partitions, group, topic, member, size, saveWorks).0;
    var b := if HasJoined(gs, group, topic) then gs[group][topic] else Binding(size, [], map[]);
    var known := IndexOf(b.members, member);
    if b.size == size && (known >= 0 || |b.members| < b.size) {
      var name := if known < 0 && member == "" then GeneratedName(|b.members| + 1) else member;
      GeneratedNotEmpty(|b.members| + 1);
      var b' := b.(members := if known < 0 then b.members + [name] else b.members);
      assert gs' == Rebind(gs, group, topic, b');
      RebindExtends(gs, group, topic, b');
    }
  }

  lemma CommitExtends(gs: GroupsState, group: string, topic: string, partition: int, offset: int, latest: int,
                      saveWorks: bool)
    requires GroupsOk(gs)
    ensures var gs' := CommitSpec(gs, group, topic, partition, offset, latest, saveWorks).0;
            GroupsOk(gs') && Extends(gs, gs') && (AllDistinct(gs) ==> AllDistinct(gs'))
  {
    hide ValidName, Rebind;
    if 0 <= offset < latest && HasJoined(gs, group, topic) && saveWorks {
      var b := gs[group][topic];
      RebindExtends(gs, group, topic, b.(offsets := b.offsets[partition := offset]));
    }
  }

  /** Both states are in order, and memory may be ahead of the file by joins whose save failed. */
  ghost predicate MemoryOk(m: Memory) {
    GroupsOk(m.groups) && GroupsOk(m.saved) && Extends(m.saved, m.groups)
  }

  lemma ExtendsTransitive(a: GroupsState, b: GroupsState, c: GroupsState)
    requires Extends(a, b) && Extends(b, c)
    ensures Extends(a, c)
  {
  }

  lemma DistinctBefore(a: GroupsState, b: GroupsState)
    requires Extends(a, b) && AllDistinct(b)
    ensures AllDistinct(a)
  {
  }

  lemma SameExtends(gs: GroupsState)
    ensures Extends(gs, gs)
  {
  }

  lemma OpExtends(m: Memory, op: GroupOp)
    requires MemoryOk(m)
    ensures MemoryOk(ApplyOp(m, op)) && Extends(m.saved, ApplyOp(m, op).saved)
    ensures !op.Reload? ==> Extends(m.groups, ApplyOp(m, op).groups)
    ensures AllDistinct(m.groups) && !(op.Join? && op.member == "") ==> AllDistinct(ApplyOp(m, op).groups)
  {
    hide GroupsOk, AllDistinct, JoinSpec, CommitSpec, ValidName, Extends;
    SameExtends(m.saved);
    SameExtends(m.groups);
    SameExtends(ApplyOp(m, op).groups);
    match op
    case Join(group, topic, member, size, partitions, saveWorks) =>
      if size >= 1 && ValidName(group) {
        JoinExtends(m.groups, partitions, group, topic, member, size, saveWorks);
        ExtendsTransitive(m.saved, m.groups, ApplyOp(m, op).groups);
      }
    case Commit(group, topic, partition, offset, latest, saveWorks) =>
      CommitExtends(m.groups, group, topic, partition, offset, latest, saveWorks);
      ExtendsTransitive(m.saved, m.groups, ApplyOp(m, op).groups);
    case Reload =>
      if AllDistinct(m.groups) {
        DistinctBefore(m.saved, m.groups);
      }
  }

  /** Over every run of joins, commits and restarts no binding outgrows its size or gains an unnamed
      member, and members stay distinct as long as every joining member names itself. What was saved
      keeps its sizes and ordinals for ever; what is in memory keeps them until the next restart. */
  lemma {:induction false} RunExtends(m: Memory, ops: seq<GroupOp>)
    requires MemoryOk(m)
    ensures MemoryOk(ApplyOps(m, ops)) && Extends(m.saved, ApplyOps(m, ops).saved)
    ensures (forall i | 0 <= i < |ops| :: !ops[i].Reload?) ==> Extends(m.groups, ApplyOps(m, ops).groups)
    ensures AllDistinct(m.groups) && (forall i | 0 <= i < |ops| :: !(ops[i].Join? && ops[i].member == ""))
            ==> AllDistinct(ApplyOps(m, ops).groups)
    decreases |ops|
  {
    hide MemoryOk, AllDistinct, ApplyOp, Extends;
    if ops == [] {
      SameExtends(m.saved);
      SameExtends(m.groups);
    } else {
      var next := ApplyOp(m, ops[0]);
      OpExtends(m, ops[0]);
      RunExtends(next, ops[1..]);
      ExtendsTransitive(m.saved, next.saved, ApplyOps(m, ops).saved);
      if forall i | 0 <= i < |ops| :: !ops[i].Reload? {
        assert !ops[0].Reload?;
        ExtendsTransitive(m.groups, next.groups, ApplyOps(m, ops).groups);
      }
    }
  }

  /** A join keeps the members distinct exactly when the name it adds is not there yet. With an
      explicit name that is always so; a generated one may collide. */
  lemma JoinDistinctIff(gs: GroupsState, partitions: nat, group: string, topic: string, member: string, size: int)
    requires GroupsOk(gs) && AllDistinct(gs) && size >= 1
    requires JoinSpec(gs, partitions, group, topic, member, size, true).1.Joined?
    ensures var gs' := JoinSpec(gs, partitions, group, topic, member, size, true).0;
            var members := if HasJoined(gs, group, topic) then gs[group][topic].members else [];
            DistinctMembers(gs'[group][topic].members)
            <==> (member in members || member != "" || GeneratedName(|members| + 1) !in members)
  {
    hide PartsOf, Decimal, ValidName, GeneratedName, DistinctMembers, JoinSpec;
    var members := if HasJoined(gs, group, topic) then gs[group][topic].members else [];
    JoinedMembers(gs, partitions, group, topic, member, size);
    DistinctSnoc(members, if member == "" then GeneratedName(|members| + 1) else member);
    DistinctSnoc([], member);
  }

  lemma DistinctSnoc(members: seq<string>, name: string)
    requires DistinctMembers(members)
    ensures DistinctMembers([]) && (DistinctMembers(members + [name]) <==> name !in members)
  {
    if name in members {
      var i :| 0 <= i < |members| && members[i] == name;
      assert (members + [name])[i] == (members + [name])[|members|];
    }
  }

  /** Whom a successful join leaves in the binding. */
  lemma JoinedMembers(gs: GroupsState, partitions: nat, group: string, topic: string, member: string, size: int)
    requires size >= 1 && JoinSpec(gs, partitions, group, topic, member, size, true).1.Joined?
    ensures var gs' := JoinSpec(gs, partitions, group, topic, member, size, true).0;
            var members := if HasJoined(gs, group, topic) then gs[group][topic].members else [];
            && HasJoined(gs', group, topic)
            && gs'[group][topic].members
               == if member in members then members
                  else members + [if member == "" then GeneratedName(|members| + 1) else member]
  {
    hide PartsOf, GeneratedName;
  }

  /** Such a collision: the first member calls itself member-2, the second lets its name be generated. */
  lemma GeneratedNamesCanCollide()
    ensures var gs := JoinSpec(map[], 2, "g", "t", "member-2", 2, true).0;
            var gs' := JoinSpec(gs, 2, "g", "t", "", 2, true).0;
            HasJoined(gs', "g", "t") && gs'["g"]["t"].members == ["member-2", "member-2"]
  {
    hide GeneratedName, JoinSpec;
    SecondName();
    var gs: GroupsState := JoinSpec(map[], 2, "g", "t", "member-2", 2, true).0;
    JoinsFirst("g", "t", "member-2", 2);
    JoinsSecond(gs, "g", "t");
    JoinedMembers(gs, 2, "g", "t", "", 2);
    assert ["member-2"] + ["member-2"] == ["member-2", "member-2"];
  }

  lemma JoinsSecond(gs: GroupsState, group: string, topic: string)
    requires HasJoined(gs, group, topic) && gs[group][topic].size == 2 && |gs[group][topic].members| == 1
    ensures JoinSpec(gs, 2, group, topic, "", 2, true).1.Joined?
  {
    hide GeneratedName, PartsOf;
  }

  lemma SecondName()
    ensures GeneratedName(2) == "member-2"
  {
    assert Decimal(2) == "2";
  }

  lemma JoinsFirst(group: string, topic: string, member: string, size: int)
    requires size >= 1 && member != ""
    ensures JoinSpec(map[], 2, group, topic, member, size, true).0
            == map[group := map[topic := Binding(size, [member], map[])]]
  {
    hide PartsOf, GeneratedName;
    assert [] + [member] == [member];
  }

  /** The partitions a join hands out are those a fetch naming the member is served, exactly when the
      name is not shared with an earlier member, or neither of the two has any partition. */
  lemma JoinedIsServedIff(gs: GroupsState, partitions: nat, group: string, topic: string, member: string, size: int)
    requires GroupsOk(gs) && size >= 1
    requires JoinSpec(gs, partitions, group, topic, member, size, true).1.Joined?
    ensures var (gs', res) := JoinSpec(gs, partitions, group, topic, member, size, true);
            var members := if HasJoined(gs, group, topic) then gs[group][topic].members else [];
            var name := res.assignment.member;
            && HasJoined(gs', group, topic) && name in gs'[group][topic].members
            && ServedAs(gs'[group][topic], name).As?
            && gs'[group][topic].size == size
            && (res.assignment.partitions == PartsOf(partitions, size, ServedAs(gs'[group][topic], name).ordinal)
                <==> (member in members || name !in members || IndexOf(members, name) >= partitions))
  {
    hide PartsOf, Decimal, ValidName, GeneratedName;
    var gs': GroupsState := JoinSpec(gs, partitions, group, topic, member, size, true).0;
    var res := JoinSpec(gs, partitions, group, topic, member, size, true).1;
    var members := if HasJoined(gs, group, topic) then gs[group][topic].members else [];
    var name := res.assignment.member;
    if member in members {
      assert gs'[group][topic].members == members;
      ServedByName(gs'[group][topic], name);
    } else {
      assert gs'[group][topic].members == members + [name];
      GeneratedNotEmpty(|members| + 1);
      IndexInLonger(members, name);
      ServedByName(gs'[group][topic], name);
      if name in members {
        PartsEqualIff(partitions, size, IndexOf(members, name), |members|);
      }
    }
  }

  lemma ServedByName(b: Binding, name: string)
    requires name != "" && name in b.members
    ensures ServedAs(b, name) == As(IndexOf(b.members, name))
  {
  }

  /** Two ordinals have the same partitions only when both have none. */
  lemma PartsEqualIff(partitions: nat, size: int, a: int, b: int)
    requires 0 <= a < b < size
    ensures PartsOf(partitions, size, a) == PartsOf(partitions, size, b) <==> a >= partitions
  {
    hide PartsOf;
    if a < partitions {
      assert a in PartsOf(partitions, size, a) && a !in PartsOf(partitions, size, b);
    } else {
      NoParts(partitions, size, a);
      NoParts(partitions, size, b);
    }
  }

  lemma {:induction false} NoParts(partitions: nat, size: int, ordinal: int)
    requires partitions <= ordinal < size
    ensures PartsOf(partitions, size, ordinal) == []
  {
    if partitions > 0 {
      NoParts(partitions - 1, size, ordinal);
      RemainderOfSmall(partitions - 1, size);
    }
  }

  lemma RemainderOfSmall(n: nat, size: int)
    requires n < size
    ensures n % size == n
  {
  }

  lemma IndexInExtended(a: seq<string>, b: seq<string>, name: string)
    requires name in a && a <= b
    ensures name in b && IndexOf(b, name) == IndexOf(a, name)
  {
    var i := IndexOf(a, name);
    assert b[i] == name && forall j | 0 <= j < i :: b[j] == a[j];
  }

  /** A later state serves a member as this one does. */
  ghost predicate ServesAlike(gs: GroupsState, gs': GroupsState, group: string, topic: string, name: string) {
    && HasJoined(gs, group, topic) && HasJoined(gs', group, topic)
    && gs'[group][topic].size == gs[group][topic].size
    && ServedAs(gs[group][topic], name).As? && ServedAs(gs'[group][topic], name) == ServedAs(gs[group][topic], name)
  }

  lemma ExtendedServesAlike(gs: GroupsState, gs': GroupsState, group: string, topic: string, name: string)
    requires GroupsOk(gs) && Extends(gs, gs') && HasJoined(gs, group, topic) && name in gs[group][topic].members
    ensures ServesAlike(gs, gs', group, topic, name)
  {
    hide ServedAs, ValidName;
    assert BindingOk(gs[group][topic]);
    IndexInExtended(gs[group][topic].members, gs'[group][topic].members, name);
    ServedByName(gs[group][topic], name);
    ServedByName(gs'[group][topic], name);
  }

  /** What a saved member is served never changes, whatever joins, commits and restarts follow. */
  lemma ServedForever(m: Memory, ops: seq<GroupOp>, group: string, topic: string, name: string)
    requires MemoryOk(m) && HasJoined(m.saved, group, topic) && name in m.saved[group][topic].members
    ensures ServesAlike(m.saved, ApplyOps(m, ops).saved, group, topic, name)
    ensures ServesAlike(m.saved, ApplyOps(m, ops).groups, group, topic, name)
  {
    hide ApplyOps, ServesAlike, AllDistinct, GroupsOk, Extends;
    RunExtends(m, ops);
    var m' := ApplyOps(m, ops);
    ExtendsTransitive(m.saved, m'.saved, m'.groups);
    ExtendedServesAlike(m.saved, m'.saved, group, topic, name);
    ExtendedServesAlike(m.saved, m'.groups, group, topic, name);
  }

  /** The partitions returned by a join under an explicit name are served to that name for ever, across
      restarts as well. */
  lemma AssignmentIsForever(m: Memory, partitions: nat, group: string, topic: string, member: string, size: int,
                            ops: seq<GroupOp>)
    requires MemoryOk(m) && ValidName(group) && member != "" && size >= 1
    requires JoinSpec(m.groups, partitions, group, topic, member, size, true).1.Joined?
    ensures var assignment := JoinSpec(m.groups, partitions, group, topic, member, size, true).1.assignment;
            var gs := ApplyOps(ApplyOp(m, Join(group, topic, member, size, partitions, true)), ops).groups;
            && assignment.member == member
            && HasJoined(gs, group, topic) && gs[group][topic].size == size && ServedAs(gs[group][topic], member).As?
            && assignment.partitions == PartsOf(partitions, size, ServedAs(gs[group][topic], member).ordinal)
  {
    hide PartsOf, ServedAs, ApplyOps, ValidName, AllDistinct, GroupsOk, Extends;
    var join := Join(group, topic, member, size, partitions, true);
    OpExtends(m, join);
    JoinedIsServedIff(m.groups, partitions, group, topic, member, size);
    JoinedUnderOwnName(m.groups, partitions, group, topic, member, size);
    assert ApplyOp(m, join).saved == JoinSpec(m.groups, partitions, group, topic, member, size, true).0;
    ServedForever(ApplyOp(m, join), ops, group, topic, member);
  }

  lemma JoinedUnderOwnName(gs: GroupsState, partitions: nat, group: string, topic: string, member: string, size: int)
    requires size >= 1 && member != "" && JoinSpec(gs, partitions, group, topic, member, size, true).1.Joined?
    ensures JoinSpec(gs, partitions, group, topic, member, size, true).1.assignment.member == member
  {
    hide PartsOf, GeneratedName;
  }

  lemma GeneratedNotEmpty(n: nat)
    ensures GeneratedName(n) != ""
  {
  }

  lemma IndexInLonger(members: seq<string>, name: string)
    ensures IndexOf(members + [name], name) == if name in members then IndexOf(members, name) else |members|
  {
    var all := members + [name];
    assert all[|members|] == name;
    assert forall i | 0 <= i < |members| :: all[i] == members[i];
    var k := if name in members then IndexOf(members, name) else |members|;
    assert all[k] == name && forall j | 0 <= j < k :: all[j] != name;
  }

  /** Once a group is full, every partition is served to exactly one member. */
  lemma FullGroupCovers(b: Binding, partitions: nat, p: int, m: string)
    requires BindingOk(b) && |b.members| == b.size && DistinctMembers(b.members)
    requires 0 <= p < partitions && m in b.members
    ensures ServedAs(b, m).As?
    ensures p in PartsOf(partitions, b.size, ServedAs(b, m).ordinal) <==> m == b.members[p % b.size]
  {
    var i := IndexOf(b.members, m);
    assert ServedAs(b, m) == As(i);
  }

  /** A join whose save fails leaves the groups as they were exactly when it was refused for another
      reason, or the member was there already. */
  lemma UnsavedJoinIff(gs: GroupsState, partitions: nat, group: string, topic: string, member: string, size: int)
    requires size >= 1
    ensures var (gs', res) := JoinSpec(gs, partitions, group, topic, member, size, false);
            gs' == gs
            <==> res != JoinNotPersisted || (HasJoined(gs, group, topic) && member in gs[group][topic].members)
  {
    hide PartsOf, GeneratedName;
    var gs': GroupsState := JoinSpec(gs, partitions, group, topic, member, size, false).0;
    var res := JoinSpec(gs, partitions, group, topic, member, size, false).1;
    if res == JoinNotPersisted {
      if HasJoined(gs, group, topic) {
        var b := gs[group][topic];
        if member in b.members {
          assert gs[group][topic := b] == gs[group];
        } else {
          assert |gs'[group][topic].members| == |b.members| + 1;
        }
      } else {
        assert HasJoined(gs', group, topic);
      }
    }
  }

  // ----- what joins, commits and fetches answer -----

  function MembersOf(gs: GroupsState, group: string, topic: string): seq<string> {
    if HasJoined(gs, group, topic) then gs[group][topic].members else []
  }

  /** Every other binding is as it was. */
  ghost predicate OthersSame(gs: GroupsState, gs': GroupsState, group: string, topic: string) {
    forall g, t | g != group || t != topic ::
      (HasJoined(gs', g, t) <==> HasJoined(gs, g, t)) && (HasJoined(gs, g, t) ==> gs'[g][t] == gs[g][t])
  }

  /** The ordinal's share: every size-th partition, ascending. */
  ghost predicate IsShare(parts: seq<int>, partitions: nat, size: int, ordinal: int)
    requires size >= 1
  {
    && (forall p :: p in parts <==> 0 <= p < partitions && p % size == ordinal)
    && (forall i, j | 0 <= i < j < |parts| :: parts[i] < parts[j])
  }

  /** The binding has the size asked for and the member, in its old place or at the end under its own or
      a generated name; its cursors are kept. */
  ghost predicate Registered(gs: GroupsState, gs': GroupsState, group: string, topic: string, member: string, size: int)
  {
    var before := MembersOf(gs, group, topic);
    var name := if member == "" then "member-" + Decimal(|before| + 1) else member;
    && HasJoined(gs', group, topic) && OthersSame(gs, gs', group, topic)
    && gs'[group][topic].size == size
    && gs'[group][topic].members == (if member in before then before else before + [name])
    && gs'[group][topic].offsets == (if HasJoined(gs, group, topic) then gs[group][topic].offsets else map[])
  }

  /** The member is told its own name and the share of its place: the first one under its name if it was
      there already, else the last. */
  ghost predicate TellsShare(gs: GroupsState, gs': GroupsState, a: Assignment, partitions: nat, group: string,
                             topic: string, member: string, size: int)
    requires size >= 1 && HasJoined(gs', group, topic)
  {
    var before, members := MembersOf(gs, group, topic), gs'[group][topic].members;
    a.group == group && a.topic == topic &&
    exists i :: 0 <= i < |members| && a.member == members[i] && IsShare(a.partitions, partitions, size, i)
      && if member in before then members[i] == member && forall j | 0 <= j < i :: members[j] != member
         else i == |before|
  }

  /** What a join of an existing topic answers and does. */
  ghost predicate JoinAnswers(gs: GroupsState, gs': GroupsState, res: JoinResult, partitions: nat, group: string,
                              topic: string, member: string, size: int, saveWorks: bool)
    requires size >= 1
  {
    var fits := HasJoined(gs, group, topic) ==> gs[group][topic].size == size;
    var room := member in MembersOf(gs, group, topic) || |MembersOf(gs, group, topic)| < size;
    && (res.Joined? <==> fits && room && saveWorks)
    && (res == SizeConflict <==> !fits)
    && (res == GroupFull <==> fits && !room)
    && (res == JoinNotPersisted <==> fits && room && !saveWorks)
    && (if fits && room then Registered(gs, gs', group, topic, member, size) else gs' == gs)
    && (res.Joined? ==> TellsShare(gs, gs', res.assignment, partitions, group, topic, member, size))
  }

  lemma JoinSpecAnswers(gs: GroupsState, partitions: nat, group: string, topic: string, member: string, size: int,
                        saveWorks: bool)
    requires size >= 1
    ensures var (gs', res) := JoinSpec(gs, partitions, group, topic, member, size, saveWorks);
            JoinAnswers(gs, gs', res, partitions, group, topic, member, size, saveWorks)
  {
    hide Decimal, PartsOf, IsShare, JoinSpec;
    var (gs', res) := JoinSpec(gs, partitions, group, topic, member, size, saveWorks);
    JoinRegisters(gs, partitions, group, topic, member, size, saveWorks);
    if res.Joined? {
      JoinTellsShare(gs, partitions, group, topic, member, size);
    }
  }

  lemma JoinRegisters(gs: GroupsState, partitions: nat, group: string, topic: string, member: string, size: int,
                      saveWorks: bool)
    requires size >= 1
    ensures var (gs', res) := JoinSpec(gs, partitions, group, topic, member, size, saveWorks);
            var fits := HasJoined(gs, group, topic) ==> gs[group][topic].size == size;
            var room := member in MembersOf(gs, group, topic) || |MembersOf(gs, group, topic)| < size;
            && (fits && room ==> Registered(gs, gs', group, topic, member, size))
            && (if !fits then res == SizeConflict && gs' == gs
                else if !room then res == GroupFull && gs' == gs
                else if saveWorks then res.Joined? else res == JoinNotPersisted)
  {
    hide Decimal, PartsOf;
  }

  lemma JoinTellsShare(gs: GroupsState, partitions: nat, group: string, topic: string, member: string, size: int)
    requires size >= 1 && JoinSpec(gs, partitions, group, topic, member, size, true).1.Joined?
    ensures var (gs', res) := JoinSpec(gs, partitions, group, topic, member, size, true);
            HasJoined(gs', group, topic) && TellsShare(gs, gs', res.assignment, partitions, group, topic, member, size)
  {
    hide Decimal, IsShare, PartsOf, GeneratedName;
    var before := MembersOf(gs, group, topic);
    var i := if member in before then IndexOf(before, member) else |before|;
    PartsAreShare(partitions, size, i);
    var gs': GroupsState := JoinSpec(gs, partitions, group, topic, member, size, true).0;
    var a := JoinSpec(gs, partitions, group, topic, member, size, true).1.assignment;
    assert gs'[group][topic].members[i] == a.member;
  }

  lemma PartsAreShare(partitions: nat, size: int, ordinal: int)
    requires size >= 1
    ensures IsShare(PartsOf(partitions, size, ordinal), partitions, size, ordinal)
  {
    hide PartsOf;
  }

  /** A number's digits read back as the number, without leading zeros. */
  function ValueOf(digits: string): int {
    if digits == "" then 0 else 10 * ValueOf(digits[..|digits| - 1]) + (digits[|digits| - 1] as int - '0' as int)
  }

  lemma {:induction false} DecimalReadsBack(n: nat)
    ensures ValueOf(Decimal(n)) == n && Decimal(n) != "" && (n > 0 ==> Decimal(n)[0] != '0')
    ensures forall i | 0 <= i < |Decimal(n)| :: '0' <= Decimal(n)[i] <= '9'
  {
    var d := "0123456789"[n % 10];
    assert d as int == '0' as int + n % 10;
    if n < 10 {
      assert Decimal(n) == [d] && [d][..0] == "";
      assert ValueOf([d]) == 10 * ValueOf("") + (d as int - '0' as int);
    } else {
      DecimalReadsBack(n / 10);
      var front := Decimal(n / 10);
      assert Decimal(n) == front + [d] && (front + [d])[..|front|] == front;
    }
  }

  /** Only the cursor of this group in this partition moves, to the offset after the one committed. */
  ghost predicate CursorMoved(gs: GroupsState, gs': GroupsState, group: string, topic: string, partition: int,
                              offset: int)
  {
    && HasJoined(gs, group, topic) && HasJoined(gs', group, topic) && OthersSame(gs, gs', group, topic)
    && gs'[group][topic].size == gs[group][topic].size && gs'[group][topic].members == gs[group][topic].members
    && NextOf(gs'[group][topic], partition) == offset + 1
    && forall p | p != partition :: NextOf(gs'[group][topic], p) == NextOf(gs[group][topic], p)
  }

  /** What a commit to an open partition with this log end answers and does. */
  ghost predicate CommitAnswers(gs: GroupsState, gs': GroupsState, res: CommitResult, group: string, topic: string,
                                partition: int, offset: int, latest: int, saveWorks: bool)
  {
    var ranged := 0 <= offset && offset + 1 <= latest;
    && (res == Committed <==> ranged && HasJoined(gs, group, topic) && saveWorks)
    && (res == CommitOutOfRange <==> !ranged)
    && (res == CommitGroupNotFound <==> ranged && !HasJoined(gs, group, topic))
    && (res == CommitNotPersisted <==> ranged && HasJoined(gs, group, topic) && !saveWorks)
    && (if res == Committed then CursorMoved(gs, gs', group, topic, partition, offset) else gs' == gs)
  }

  lemma CommitSpecAnswers(gs: GroupsState, group: string, topic: string, partition: int, offset: int, latest: int,
                          saveWorks: bool)
    ensures var (gs', res) := CommitSpec(gs, group, topic, partition, offset, latest, saveWorks);
            CommitAnswers(gs, gs', res, group, topic, partition, offset, latest, saveWorks)
  {
  }

  /** Whom a fetch serves: the sole member without a name, or the first one of the name given. */
  lemma ServedAsIff(b: Binding, member: string)
    requires "" !in b.members
    ensures ServedAs(b, member) == MemberRequired <==> member == "" && |b.members| != 1
    ensures ServedAs(b, member) == MemberUnknown <==> member != "" && member !in b.members
    ensures forall i :: ServedAs(b, member) == As(i)
                        <==> || (member == "" && |b.members| == 1 && i == 0)
                             || (0 <= i < |b.members| && member == b.members[i]
                                 && forall j | 0 <= j < i :: b.members[j] != member)
  {
  }

  /** Joining again under the same name returns the same partitions and changes nothing, whatever joins,
      commits and restarts came in between. */
  lemma RejoinIsIdempotent(m: Memory, partitions: nat, group: string, topic: string, member: string, size: int,
                           ops: seq<GroupOp>)
    requires MemoryOk(m) && ValidName(group) && member != "" && size >= 1
    requires JoinSpec(m.groups, partitions, group, topic, member, size, true).1.Joined?
    ensures var first := JoinSpec(m.groups, partitions, group, topic, member, size, true).1;
            var later := ApplyOps(ApplyOp(m, Join(group, topic, member, size, partitions, true)), ops);
            JoinSpec(later.groups, partitions, group, topic, member, size, true) == (later.groups, first)
  {
    hide PartsOf, ServedAs, ApplyOps, ValidName, AllDistinct, GroupsOk, Extends, JoinSpec;
    var join := Join(group, topic, member, size, partitions, true);
    var joined := ApplyOp(m, join);
    OpExtends(m, join);
    JoinRegisters(m.groups, partitions, group, topic, member, size, true);
    RunExtends(joined, ops);
    var gs := ApplyOps(joined, ops).groups;
    ExtendsTransitive(joined.saved, ApplyOps(joined, ops).saved, gs);
    JoinExact(m.groups, partitions, group, topic, member, size);
    RejoinExact(joined.saved, gs, partitions, group, topic, member, size);
  }

  /** A join's partitions go by the member's place. */
  lemma JoinExact(gs: GroupsState, partitions: nat, group: string, topic: string, member: string, size: int)
    requires size >= 1 && member != "" && JoinSpec(gs, partitions, group, topic, member, size, true).1.Joined?
    ensures var (gs', res) := JoinSpec(gs, partitions, group, topic, member, size, true);
            && HasJoined(gs', group, topic) && member in gs'[group][topic].members
            && var ordinal := IndexOf(gs'[group][topic].members, member);
               res.assignment == Assignment(group, member, topic, PartsOf(partitions, size, ordinal))
  {
    hide PartsOf, GeneratedName;
    var before := MembersOf(gs, group, topic);
    IndexInLonger(before, member);
  }

  lemma RejoinExact(saved: GroupsState, gs: GroupsState, partitions: nat, group: string, topic: string, member: string,
                    size: int)
    requires Extends(saved, gs) && size >= 1
    requires HasJoined(saved, group, topic) && member in saved[group][topic].members && saved[group][topic].size == size
    ensures JoinSpec(gs, partitions, group, topic, member, size, true)
            == (gs, Joined(Assignment(group, member, topic,
                                      PartsOf(partitions, size, IndexOf(saved[group][topic].members, member)))))
  {
    hide PartsOf, GeneratedName;
    IndexInExtended(saved[group][topic].members, gs[group][topic].members, member);
    var b := gs[group][topic];
    assert b.(members := b.members) == b;
    assert gs[group][topic := b] == gs[group];
    assert Rebind(gs, group, topic, b) == gs;
  }
}
