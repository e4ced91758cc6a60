/** The saved form of the consumer groups: sorted by name, whatever order the maps are walked in. */
module GroupEnvelope {
  import opened LogStates
  import opened GroupStates

  const GROUPS_VERSION := 1

  datatype TopicEntry = TopicEntry(topic: string, size: int, members: seq<string>, offsets: map<int, int>)
  datatype GroupEntry = GroupEntry(name: string, topics: seq<TopicEntry>)
  datatype Envelope = Envelope(version: int, groups: seq<GroupEntry>)

  // ----- names in order -----

  /** Byte-wise string order. */
  predicate Before(a: string, b: string) {
    if a == [] then b != []
    else b != [] && (a[0] < b[0] || (a[0] == b[0] && Before(a[1..], b[1..])))
  }

  /** Names are ordered as in a dictionary: by the first character in which they differ, shorter first. */
  lemma {:induction false} BeforeIff(a: string, b: string)
    ensures Before(a, b)
            <==> || (a < b)
                 || exists i :: 0 <= i < |a| && i < |b| && a[..i] == b[..i] && a[i] < b[i]
  {
    if a != [] && b != [] && a[0] == b[0] {
      BeforeIff(a[1..], b[1..]);
      assert a == [a[0]] + a[1..] && b == [b[0]] + b[1..];
      if i :| 0 <= i < |a[1..]| && i < |b[1..]| && a[1..][..i] == b[1..][..i] && a[1..][i] < b[1..][i] {
        assert a[..i + 1] == [a[0]] + a[1..][..i] && b[..i + 1] == [b[0]] + b[1..][..i];
        assert a[i + 1] < b[i + 1];
      }
      if i :| 0 <= i < |a| && i < |b| && a[..i] == b[..i] && a[i] < b[i] {
        assert i > 0 && a[1..][..i - 1] == a[..i][1..] && b[1..][..i - 1] == b[..i][1..];
        assert a[1..][i - 1] < b[1..][i - 1];
      }
    } else if a != [] && b != [] {
      assert a[..0] == b[..0];
      if i :| 0 <= i < |a| && i < |b| && a[..i] == b[..i] && a[i] < b[i] {
        assert i > 0 ==> a[..i][0] == b[..i][0];
      }
    }
  }

  lemma {:induction false} BeforeTotal(a: string, b: string)
    ensures Before(a, b) || Before(b, a) || a == b
    ensures !(Before(a, b) && Before(b, a)) && !Before(a, a)
  {
    if a != [] && b != [] {
      BeforeTotal(a[1..], b[1..]);
      assert a == [a[0]] + a[1..] && b == [b[0]] + b[1..];
    }
    if a != [] {
      BeforeTotal(a[1..], a[1..]);
    }
  }

  lemma {:induction false} BeforeTransitive(a: string, b: string, c: string)
    requires Before(a, b) && Before(b, c)
    ensures Before(a, c)
  {
    if a != [] && a[0] == b[0] == c[0] {
      BeforeTransitive(a[1..], b[1..], c[1..]);
    }
  }

  ghost predicate Sorted(names: seq<string>) {
    forall i, j | 0 <= i < j < |names| :: Before(names[i], names[j])
  }

  function Elements(names: seq<string>): set<string> {
    set n | n in names
  }

  /** A set of names has one sorted listing. */
  lemma {:induction false} SortedIsUnique(a: seq<string>, b: seq<string>)
    requires Sorted(a) && Sorted(b) && Elements(a) == Elements(b)
    ensures a == b
  {
    if a == [] || b == [] {
      EmptyElements(a);
      EmptyElements(b);
    } else {
      FirstIsLeast(a, b);
      SameTail(a, b);
      SortedIsUnique(a[1..], b[1..]);
      assert a == [a[0]] + a[1..] && b == [b[0]] + b[1..];
    }
  }

  lemma EmptyElements(names: seq<string>)
    ensures Elements(names) == {} <==> names == []
  {
    if names != [] {
      assert names[0] in Elements(names);
    }
  }

  lemma FirstIsLeast(a: seq<string>, b: seq<string>)
    requires Sorted(a) && Sorted(b) && a != [] && b != [] && Elements(a) == Elements(b)
    ensures a[0] == b[0]
  {
    assert a[0] in Elements(a) && b[0] in Elements(b);
    var k :| 0 <= k < |b| && b[k] == a[0];
    var l :| 0 <= l < |a| && a[l] == b[0];
    BeforeTotal(a[0], b[0]);
  }

  lemma SameTail(a: seq<string>, b: seq<string>)
    requires Sorted(a) && Sorted(b) && a != [] && b != [] && a[0] == b[0] && Elements(a) == Elements(b)
    ensures Elements(a[1..]) == Elements(b[1..]) && Sorted(a[1..]) && Sorted(b[1..])
  {
    TailElements(a);
    TailElements(b);
  }

  lemma TailElements(a: seq<string>)
    requires Sorted(a) && a != []
    ensures Elements(a[1..]) == Elements(a) - {a[0]} && Sorted(a[1..])
  {
    forall i | 1 <= i < |a|
      ensures a[i] != a[0]
    {
      BeforeTotal(a[0], a[i]);
    }
    assert a == [a[0]] + a[1..];
  }

  /** Sorts a name into its place. */
  method Insert(names: seq<string>, name: string) returns (r: seq<string>)
    requires Sorted(names) && name !in names
    ensures Sorted(r) && Elements(r) == Elements(names) + {name} && |r| == |names| + 1
  {
    var i := 0;
    while i < |names| && Before(names[i], name)
      invariant 0 <= i <= |names|
      invariant forall k | 0 <= k < i :: Before(names[k], name)
    {
      i := i + 1;
    }
    r := names[..i] + [name] + names[i..];
    InsertedSorted(names, name, i);
  }

  lemma InsertedSorted(names: seq<string>, name: string, i: nat)
    requires Sorted(names) && name !in names && i <= |names|
    requires forall k | 0 <= k < i :: Before(names[k], name)
    requires i < |names| ==> !Before(names[i], name)
    ensures Sorted(names[..i] + [name] + names[i..])
    ensures Elements(names[..i] + [name] + names[i..]) == Elements(names) + {name}
  {
    var r := names[..i] + [name] + names[i..];
    forall k | i <= k < |names|
      ensures Before(name, names[k])
    {
      BeforeTotal(name, names[i]);
      if k > i {
        BeforeTransitive(name, names[i], names[k]);
      }
    }
    forall n | n in Elements(r)
      ensures n in Elements(names) + {name}
    {
    }
    forall n | n in Elements(names) + {name}
      ensures n in Elements(r)
    {
      if n in names {
        var k :| 0 <= k < |names| && names[k] == n;
        assert r[if k < i then k else k + 1] == n;
      } else {
        assert r[i] == n;
      }
    }
  }

  /** Walks the names in any order and sorts them. */
  method SortNames(keys: set<string>) returns (names: seq<string>)
    ensures Sorted(names) && Elements(names) == keys
  {
    names := [];
    var rest := keys;
    while rest != {}
      invariant rest <= keys && Sorted(names) && Elements(names) == keys - rest
      decreases rest
    {
      var name :| name in rest;
      assert name in Elements(names) <==> name in names;
      names := Insert(names, name);
      rest := rest - {name};
    }
  }

  // ----- saving -----

  /** The envelope of a state: groups in name order, each with its topics in name order. */
  ghost predicate IsTopics(entries: seq<TopicEntry>, bindings: map<string, Binding>) {
    && Sorted(TopicNames(entries)) && Elements(TopicNames(entries)) == bindings.Keys
    && forall i | 0 <= i < |entries| ::
         entries[i].topic in bindings && BindingIn(entries[i]) == bindings[entries[i].topic]
  }

  ghost predicate IsEnvelope(e: Envelope, gs: GroupsState) {
    && e.version == GROUPS_VERSION
    && Sorted(GroupNames(e.groups)) && Elements(GroupNames(e.groups)) == gs.Keys
    && forall i | 0 <= i < |e.groups| :: e.groups[i].name in gs && IsTopics(e.groups[i].topics, gs[e.groups[i].name])
  }

  function BindingIn(entry: TopicEntry): Binding {
    Binding(entry.size, entry.members, entry.offsets)
  }

  function TopicNames(entries: seq<TopicEntry>): (names: seq<string>)
    ensures |names| == |entries| && forall i | 0 <= i < |names| :: names[i] == entries[i].topic
  {
    seq(|entries|, i requires 0 <= i < |entries| => entries[i].topic)
  }

  function GroupNames(entries: seq<GroupEntry>): (names: seq<string>)
    ensures |names| == |entries| && forall i | 0 <= i < |names| :: names[i] == entries[i].name
  {
    seq(|entries|, i requires 0 <= i < |entries| => entries[i].name)
  }

  method SaveTopics(bindings: map<string, Binding>) returns (entries: seq<TopicEntry>)
    ensures IsTopics(entries, bindings)
  {
    var names := SortNames(bindings.Keys);
    entries := [];
    var i := 0;
    while i < |names|
      invariant 0 <= i == |entries| <= |names|
      invariant forall k | 0 <= k < i ::
                  names[k] in bindings && entries[k].topic == names[k] && BindingIn(entries[k]) == bindings[names[k]]
    {
      assert names[i] in Elements(names);
      var b := bindings[names[i]];
      entries := entries + [TopicEntry(names[i], b.size, b.members, b.offsets)];
      i := i + 1;
    }
    assert TopicNames(entries) == names;
  }

  /** Builds the envelope, whatever order the groups and topics come in. */
  method SaveGroups(gs: GroupsState) returns (e: Envelope)
    ensures IsEnvelope(e, gs)
  {
    var names := SortNames(gs.Keys);
    var groups: seq<GroupEntry> := [];
    var i := 0;
    while i < |names|
      invariant 0 <= i == |groups| <= |names|
      invariant forall k | 0 <= k < i ::
                  names[k] in gs && groups[k].name == names[k] && IsTopics(groups[k].topics, gs[names[k]])
    {
      assert names[i] in Elements(names);
      var topics := SaveTopics(gs[names[i]]);
      groups := groups + [GroupEntry(names[i], topics)];
      i := i + 1;
    }
    e := Envelope(GROUPS_VERSION, groups);
    assert GroupNames(groups) == names;
  }

  lemma TopicsUnique(a: seq<TopicEntry>, b: seq<TopicEntry>, bindings: map<string, Binding>)
    requires IsTopics(a, bindings) && IsTopics(b, bindings)
    ensures a == b
  {
    SortedIsUnique(TopicNames(a), TopicNames(b));
    forall i | 0 <= i < |a|
      ensures a[i] == b[i]
    {
      assert TopicNames(a)[i] == TopicNames(b)[i];
      assert BindingIn(a[i]) == BindingIn(b[i]);
    }
  }

  /** The saved form does not depend on the order in which the maps are walked. */
  lemma EnvelopeUnique(a: Envelope, b: Envelope, gs: GroupsState)
    requires IsEnvelope(a, gs) && IsEnvelope(b, gs)
    ensures a == b
  {
    SortedIsUnique(GroupNames(a.groups), GroupNames(b.groups));
    forall i | 0 <= i < |a.groups|
      ensures a.groups[i] == b.groups[i]
    {
      assert GroupNames(a.groups)[i] == GroupNames(b.groups)[i];
      TopicsUnique(a.groups[i].topics, b.groups[i].topics, gs[a.groups[i].name]);
    }
  }

  // ----- loading -----

  datatype LoadResult = Loaded(groups: GroupsState) | BadVersion | BadName | DuplicateGroup | BadSize

  /** The bindings of a group's entries; a repeated topic keeps the last one. */
  function TopicsFrom(entries: seq<TopicEntry>): Option<map<string, Binding>> {
    if entries == [] then Some(map[])
    else
      var front, last := TopicsFrom(entries[..|entries| - 1]), entries[|entries| - 1];
      if front.None? || last.size < 1 then None else Some(front.value[last.topic := BindingIn(last)])
  }

  function GroupsFrom(groups: seq<GroupEntry>): LoadResult {
    if groups == [] then Loaded(map[])
    else
      var front, last := GroupsFrom(groups[..|groups| - 1]), groups[|groups| - 1];
      if !front.Loaded? then front
      else if !ValidName(last.name) then BadName
      else if last.name in front.groups then DuplicateGroup
      else
        var topics := TopicsFrom(last.topics);
        if topics.None? then BadSize else Loaded(front.groups[last.name := topics.value])
  }

  function LoadSpec(e: Envelope): LoadResult {
    if e.version != GROUPS_VERSION then BadVersion else GroupsFrom(e.groups)
  }

  /** What an envelope must satisfy to be loaded. */
  ghost predicate Loadable(e: Envelope) {
    && e.version == GROUPS_VERSION
    && (forall i | 0 <= i < |e.groups| :: ValidName(e.groups[i].name))
    && (forall i, j | 0 <= i < j < |e.groups| :: e.groups[i].name != e.groups[j].name)
    && (forall i, k | 0 <= i < |e.groups| && 0 <= k < |e.groups[i].topics| :: e.groups[i].topics[k].size >= 1)
  }

  lemma {:induction false} TopicsAccepted(entries: seq<TopicEntry>)
    ensures TopicsFrom(entries).Some? <==> forall k | 0 <= k < |entries| :: entries[k].size >= 1
  {
    if entries != [] {
      var n := |entries| - 1;
      TopicsAccepted(entries[..n]);
      assert forall k | 0 <= k < n :: entries[..n][k] == entries[k];
    }
  }

  lemma {:induction false} GroupsAccepted(groups: seq<GroupEntry>)
    ensures GroupsFrom(groups).Loaded? ==> GroupsFrom(groups).groups.Keys == Elements(GroupNames(groups))
    ensures GroupsFrom(groups).Loaded? <==> Loadable(Envelope(GROUPS_VERSION, groups))
  {
    hide ValidName, TopicsFrom;
    if groups != [] {
      var n := |groups| - 1;
      GroupsAccepted(groups[..n]);
      assert forall i | 0 <= i < n :: groups[..n][i] == groups[i];
      TopicsAccepted(groups[n].topics);
      assert GroupNames(groups) == GroupNames(groups[..n]) + [groups[n].name];
      if GroupsFrom(groups[..n]).Loaded? {
        NameTaken(groups, n);
      }
    }
  }

  lemma NameTaken(groups: seq<GroupEntry>, n: nat)
    requires n < |groups|
    ensures groups[n].name in Elements(GroupNames(groups[..n]))
            <==> exists i :: 0 <= i < n && groups[i].name == groups[n].name
  {
    var names := GroupNames(groups[..n]);
    if groups[n].name in names {
      var i :| 0 <= i < |names| && names[i] == groups[n].name;
      assert groups[..n][i].name == names[i];
    }
    if i :| 0 <= i < n && groups[i].name == groups[n].name {
      assert names[i] == groups[..n][i].name;
    }
  }

  method LoadTopics(entries: seq<TopicEntry>) returns (ok: bool, bindings: map<string, Binding>)
    ensures TopicsFrom(entries) == if ok then Some(bindings) else None
  {
    bindings := map[];
    var i := 0;
    while i < |entries|
      invariant 0 <= i <= |entries| && TopicsFrom(entries[..i]) == Some(bindings)
    {
      assert entries[..i + 1][..i] == entries[..i];
      if entries[i].size < 1 {
        TopicsRefused(entries, i);
        return false, bindings;
      }
      bindings := bindings[entries[i].topic := BindingIn(entries[i])];
      i := i + 1;
    }
    assert entries[..i] == entries;
    ok := true;
  }

  lemma {:induction false} TopicsRefused(entries: seq<TopicEntry>, i: nat)
    requires i < |entries| && entries[i].size < 1
    ensures TopicsFrom(entries).None?
  {
    if i < |entries| - 1 {
      TopicsRefused(entries[..|entries| - 1], i);
    }
  }

  lemma {:induction false} GroupsRefused(groups: seq<GroupEntry>, i: nat)
    requires i <= |groups| && !GroupsFrom(groups[..i]).Loaded?
    ensures GroupsFrom(groups) == GroupsFrom(groups[..i])
  {
    if i < |groups| {
      assert groups[..|groups| - 1][..i] == groups[..i];
      GroupsRefused(groups[..|groups| - 1], i);
    } else {
      assert groups[..i] == groups;
    }
  }

  lemma {:induction false} TopicsHold(entries: seq<TopicEntry>, k: nat)
    requires TopicsFrom(entries).Some? && k < |entries|
    requires forall l | k < l < |entries| :: entries[l].topic != entries[k].topic
    ensures var m := TopicsFrom(entries).value; var e := entries[k];
            e.topic in m && m[e.topic] == Binding(e.size, e.members, e.offsets)
  {
    var n := |entries| - 1;
    if k < n {
      TopicsHold(entries[..n], k);
    }
  }

  /** A loaded state has exactly the groups listed, each with exactly the topics listed for it; of a topic
      listed twice the last entry counts. */
  lemma {:induction false} LoadedHolds(groups: seq<GroupEntry>, i: nat)
    requires GroupsFrom(groups).Loaded? && i < |groups|
    ensures var m := GroupsFrom(groups).groups; var topics := groups[i].topics;
            && m.Keys == Elements(GroupNames(groups)) && groups[i].name in m
            && m[groups[i].name].Keys == Elements(TopicNames(topics))
            && forall k | 0 <= k < |topics| && forall l | k < l < |topics| :: topics[l].topic != topics[k].topic ::
                 m[groups[i].name][topics[k].topic] == Binding(topics[k].size, topics[k].members, topics[k].offsets)
  {
    hide ValidName, TopicsFrom, Elements;
    var n := |groups| - 1;
    GroupsAccepted(groups);
    if i < n {
      LoadedHolds(groups[..n], i);
      assert groups[..n][i] == groups[i];
    } else {
      TopicKeys(groups[i].topics);
    }
    var topics := groups[i].topics;
    var name := groups[i].name;
    if i == n {
      forall k | 0 <= k < |topics| && forall l | k < l < |topics| :: topics[l].topic != topics[k].topic
        ensures topics[k].topic in GroupsFrom(groups).groups[name]
        ensures GroupsFrom(groups).groups[name][topics[k].topic]
                == Binding(topics[k].size, topics[k].members, topics[k].offsets)
      {
        TopicsHold(topics, k);
      }
    }
  }

  lemma {:induction false} TopicKeys(entries: seq<TopicEntry>)
    requires TopicsFrom(entries).Some?
    ensures TopicsFrom(entries).value.Keys == Elements(TopicNames(entries))
  {
    if entries != [] {
      var n := |entries| - 1;
      TopicKeys(entries[..n]);
      assert TopicNames(entries) == TopicNames(entries[..n]) + [entries[n].topic];
    }
  }

  /** Loading stops at the first entry that may not be loaded, and says why. */
  ghost predicate RefusedAt(groups: seq<GroupEntry>, i: nat, res: LoadResult)
    requires i < |groups|
  {
    && Loadable(Envelope(GROUPS_VERSION, groups[..i]))
    && if !ValidName(groups[i].name) then res == BadName
       else if exists j :: 0 <= j < i && groups[j].name == groups[i].name then res == DuplicateGroup
       else res == BadSize && exists k :: 0 <= k < |groups[i].topics| && groups[i].topics[k].size < 1
  }

  lemma {:induction false} RefusalSaysWhy(groups: seq<GroupEntry>) returns (i: nat)
    requires !GroupsFrom(groups).Loaded?
    ensures i < |groups| && RefusedAt(groups, i, GroupsFrom(groups))
  {
    hide ValidName, TopicsFrom, Loadable;
    i := |groups| - 1;
    if GroupsFrom(groups[..i]).Loaded? {
      GroupsAccepted(groups[..i]);
      TopicsAccepted(groups[i].topics);
      NameTaken(groups, i);
    } else {
      var n := |groups| - 1;
      i := RefusalSaysWhy(groups[..n]);
      assert groups[..n][..i] == groups[..i];
    }
  }

  lemma {:induction false} NeverBadVersion(groups: seq<GroupEntry>)
    ensures GroupsFrom(groups) != BadVersion
  {
    hide ValidName, TopicsFrom;
    if groups != [] {
      NeverBadVersion(groups[..|groups| - 1]);
    }
  }

  lemma LoadsIff(e: Envelope)
    ensures LoadSpec(e).Loaded? <==> Loadable(e)
  {
    GroupsAccepted(e.groups);
  }

  method LoadGroups(e: Envelope) returns (res: LoadResult)
    ensures res == LoadSpec(e)
    ensures res.Loaded? <==> Loadable(e)
    ensures res == BadVersion <==> e.version != GROUPS_VERSION
  {
    hide Loadable, ValidName;
    LoadsIff(e);
    NeverBadVersion(e.groups);
    if e.version != GROUPS_VERSION {
      return BadVersion;
    }
    var groups: GroupsState := map[];
    var i := 0;
    while i < |e.groups|
      invariant 0 <= i <= |e.groups| && GroupsFrom(e.groups[..i]) == Loaded(groups)
    {
      var g := e.groups[i];
      assert e.groups[..i + 1][..i] == e.groups[..i];
      if !ValidName(g.name) || g.name in groups {
        GroupsRefused(e.groups, i + 1);
        return if !ValidName(g.name) then BadName else DuplicateGroup;
      }
      var ok, topics := LoadTopics(g.topics);
      if !ok {
        GroupsRefused(e.groups, i + 1);
        return BadSize;
      }
      groups := groups[g.name := topics];
      i := i + 1;
    }
    assert e.groups[..i] == e.groups;
    res := Loaded(groups);
  }

  // ----- round trip -----

  lemma {:induction false} TopicsReload(entries: seq<TopicEntry>, bindings: map<string, Binding>)
    requires forall i | 0 <= i < |entries| ::
               && entries[i].topic in bindings && BindingIn(entries[i]) == bindings[entries[i].topic]
               && entries[i].size >= 1
    ensures TopicsFrom(entries).Some?
    ensures var m := TopicsFrom(entries).value;
            m.Keys == Elements(TopicNames(entries)) && forall t | t in m :: t in bindings && m[t] == bindings[t]
  {
    if entries != [] {
      var n := |entries| - 1;
      TopicsReload(entries[..n], bindings);
      assert TopicNames(entries) == TopicNames(entries[..n]) + [entries[n].topic];
    }
  }

  lemma TopicsRoundTrip(entries: seq<TopicEntry>, bindings: map<string, Binding>)
    requires IsTopics(entries, bindings) && forall t | t in bindings :: BindingOk(bindings[t])
    ensures TopicsFrom(entries) == Some(bindings)
  {
    forall i | 0 <= i < |entries|
      ensures entries[i].size >= 1
    {
      assert BindingOk(bindings[entries[i].topic]);
    }
    TopicsReload(entries, bindings);
    var m := TopicsFrom(entries).value;
    assert m.Keys == bindings.Keys && forall t | t in m :: m[t] == bindings[t];
    assert m == bindings;
  }

  lemma {:induction false} GroupsReload(groups: seq<GroupEntry>, gs: GroupsState)
    requires GroupsOk(gs) && Sorted(GroupNames(groups))
    requires forall i | 0 <= i < |groups| :: groups[i].name in gs && IsTopics(groups[i].topics, gs[groups[i].name])
    ensures GroupsFrom(groups).Loaded?
    ensures var m := GroupsFrom(groups).groups;
            m.Keys == Elements(GroupNames(groups)) && forall g | g in m :: g in gs && m[g] == gs[g]
  {
    hide IsTopics, ValidName;
    if groups != [] {
      var n := |groups| - 1;
      var names := GroupNames(groups);
      assert GroupNames(groups[..n]) == names[..n] && names == names[..n] + [groups[n].name];
      GroupsReload(groups[..n], gs);
      TopicsRoundTrip(groups[n].topics, gs[groups[n].name]);
      forall i | 0 <= i < n
        ensures names[i] != groups[n].name
      {
        BeforeTotal(names[i], names[n]);
      }
    }
  }

  /** Whatever joins and commits reach is saved so that it loads back: never refused, and with the
      same sizes, members and offsets. */
  lemma SaveThenLoad(e: Envelope, gs: GroupsState)
    requires GroupsOk(gs) && IsEnvelope(e, gs)
    ensures LoadSpec(e) == Loaded(gs)
  {
    hide IsTopics, GroupsOk;
    GroupsReload(e.groups, gs);
    var m := GroupsFrom(e.groups).groups;
    assert m.Keys == gs.Keys && forall g | g in m :: m[g] == gs[g];
    assert m == gs;
  }
}
