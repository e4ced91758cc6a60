/** Which sealed segments a retention pass deletes, and what is left. */
module RetentionPolicy {
  import opened Bytes
  import opened Records
  import opened FrameRuns
  import opened LogStates
  import opened LogInvariant
  import opened ReadSlices

  // ----- specification -----

  /** Zero means unlimited. */
  datatype Policy = Policy(retentionMs: int, retentionBytes: int)

  /** The deletable boundary taken from the consumer groups; without any group everything may go. */
  datatype Clamp = Unclamped | Below(bound: int)

  const NS_PER_MS := 1_000_000

  predicate BelowClamp(sg: SegState, clamp: Clamp) {
    clamp.Unclamped? || EndOf(sg) <= clamp.bound
  }

  /** How many leading segments lie wholly below the clamp. */
  function Reach(sealed: seq<SegState>, clamp: Clamp): (n: nat)
    ensures n <= |sealed|
    ensures forall i | 0 <= i < n :: BelowClamp(sealed[i], clamp)
    ensures n < |sealed| ==> !BelowClamp(sealed[n], clamp)
  {
    if sealed == [] || !BelowClamp(sealed[0], clamp) then 0 else 1 + Reach(sealed[1..], clamp)
  }

  function Cutoff(policy: Policy, now: int): int {
    now - policy.retentionMs * NS_PER_MS
  }

  /** Expired segments within the clamp's reach; later ones count even if an earlier one has not
      expired. */
  function AgeDoomed(sealed: seq<SegState>, mtimes: seq<int>, policy: Policy, now: int, clamp: Clamp): set<int>
    requires |mtimes| == |sealed|
  {
    if policy.retentionMs <= 0 then {}
    else set i | 0 <= i < Reach(sealed, clamp) && mtimes[i] < Cutoff(policy, now) :: sealed[i].base
  }

  function TotalBytes(segs: seq<SegState>): int {
    if segs == [] then 0 else TotalBytes(segs[..|segs| - 1]) + segs[|segs| - 1].sizeBytes
  }

  /** How many of the oldest segments must go for the rest to fit the budget, within the clamp. */
  function SizeCut(sealed: seq<SegState>, total: int, budget: int, clamp: Clamp): (n: nat)
    ensures n <= |sealed|
  {
    if sealed == [] || total <= budget || !BelowClamp(sealed[0], clamp) then 0
    else 1 + SizeCut(sealed[1..], total - sealed[0].sizeBytes, budget, clamp)
  }

  function SizeDoomed(s: LogState, policy: Policy, clamp: Clamp): set<int> {
    if policy.retentionBytes <= 0 then {}
    else BasesOf(s.sealed[..SizeCut(s.sealed, TotalBytes(Segs(s)), policy.retentionBytes, clamp)])
  }

  function BasesOf(segs: seq<SegState>): set<int> {
    set i | 0 <= i < |segs| :: segs[i].base
  }

  function Doomed(s: LogState, mtimes: seq<int>, policy: Policy, now: int, clamp: Clamp): set<int>
    requires |mtimes| == |s.sealed|
  {
    AgeDoomed(s.sealed, mtimes, policy, now, clamp) + SizeDoomed(s, policy, clamp)
  }

  function Keep(segs: seq<SegState>, gone: set<int>): seq<SegState> {
    if segs == [] then []
    else
      var front, last := Keep(segs[..|segs| - 1], gone), segs[|segs| - 1];
      if last.base in gone then front else front + [last]
  }

  /** The log with some sealed segments deleted. */
  function Without(s: LogState, gone: set<int>): LogState {
    s.(sealed := Keep(s.sealed, gone))
  }

  // ----- what a pass may delete -----

  lemma {:induction false} SizeCutFacts(sealed: seq<SegState>, total: int, budget: int, clamp: Clamp)
    ensures var n := SizeCut(sealed, total, budget, clamp);
            && n <= Reach(sealed, clamp)
            && (n > 0 ==> total > budget)
            && (forall i | 1 <= i < n :: total - TotalBytes(sealed[..i]) > budget)
            && (n < Reach(sealed, clamp) ==> total - TotalBytes(sealed[..n]) <= budget)
  {
    assert sealed[..0] == [];
    var n := SizeCut(sealed, total, budget, clamp);
    if n > 0 {
      var rest := sealed[1..];
      SizeCutFacts(rest, total - sealed[0].sizeBytes, budget, clamp);
      TotalsShift(sealed);
      assert rest[..0] == [];
      forall i | 1 <= i < n
        ensures total - TotalBytes(sealed[..i]) > budget
      {
        assert TotalBytes(sealed[..(i - 1) + 1]) == sealed[0].sizeBytes + TotalBytes(rest[..i - 1]);
      }
      assert TotalBytes(sealed[..(n - 1) + 1]) == sealed[0].sizeBytes + TotalBytes(rest[..n - 1]);
    }
  }

  lemma TotalsShift(sealed: seq<SegState>)
    requires sealed != []
    ensures forall i | 0 <= i < |sealed| ::
              TotalBytes(sealed[..i + 1]) == sealed[0].sizeBytes + TotalBytes(sealed[1..][..i])
  {
    forall i | 0 <= i < |sealed|
      ensures TotalBytes(sealed[..i + 1]) == sealed[0].sizeBytes + TotalBytes(sealed[1..][..i])
    {
      TotalOfCons(sealed[0], sealed[1..][..i]);
      assert sealed[..i + 1] == [sealed[0]] + sealed[1..][..i];
    }
  }

  lemma {:induction false} TotalOfCons(sg: SegState, segs: seq<SegState>)
    ensures TotalBytes([sg] + segs) == sg.sizeBytes + TotalBytes(segs)
  {
    var all := [sg] + segs;
    if segs == [] {
      assert all == [sg] && all[..0] == [];
    } else {
      var n := |segs| - 1;
      assert all[..|all| - 1] == [sg] + segs[..n];
      TotalOfCons(sg, segs[..n]);
    }
  }

  /** Only sealed segments wholly below the clamp are doomed, never the active one. */
  lemma DoomedIsBelowClamp(s: LogState, mtimes: seq<int>, policy: Policy, now: int, clamp: Clamp)
    requires |mtimes| == |s.sealed|
    ensures Doomed(s, mtimes, policy, now, clamp) <= BasesOf(s.sealed[..Reach(s.sealed, clamp)])
  {
    hide TotalBytes, SizeCut, Reach;
    var n := Reach(s.sealed, clamp);
    if policy.retentionBytes > 0 {
      var cut := SizeCut(s.sealed, TotalBytes(Segs(s)), policy.retentionBytes, clamp);
      SizeCutFacts(s.sealed, TotalBytes(Segs(s)), policy.retentionBytes, clamp);
      BasesOfLonger(s.sealed, cut, n);
    }
    forall b | b in AgeDoomed(s.sealed, mtimes, policy, now, clamp)
      ensures b in BasesOf(s.sealed[..n])
    {
      var i :| 0 <= i < n && s.sealed[i].base == b;
      assert s.sealed[..n][i].base == b;
    }
  }

  /** A deleted segment ends at or below the clamp: no record at or above it is lost. */
  lemma DeletedEndsBelow(s: LogState, mtimes: seq<int>, policy: Policy, now: int, bound: int, i: nat)
    requires |mtimes| == |s.sealed| && i < |s.sealed| && Ordered(Segs(s)) && AllSealed(s.sealed, s.limits)
    requires s.sealed[i].base in Doomed(s, mtimes, policy, now, Below(bound))
    ensures EndOf(s.sealed[i]) <= bound
  {
    hide SegOk, Doomed;
    DoomedIsBelowClamp(s, mtimes, policy, now, Below(bound));
    var n := Reach(s.sealed, Below(bound));
    var j :| 0 <= j < n && s.sealed[..n][j].base == s.sealed[i].base;
    BasesIncrease(s);
    assert Segs(s)[j].base == Segs(s)[i].base;
    assert BelowClamp(s.sealed[j], Below(bound));
  }

  lemma BasesIncrease(s: LogState)
    requires Ordered(Segs(s)) && AllSealed(s.sealed, s.limits)
    ensures forall i, j | 0 <= i < j < |Segs(s)| :: Segs(s)[i].base < Segs(s)[j].base
  {
    hide SegOk;
    forall i, j | 0 <= i < j < |Segs(s)|
      ensures Segs(s)[i].base < Segs(s)[j].base
    {
      assert Sealed(s.sealed[i], s.limits);
    }
  }

  // ----- the survivors -----

  lemma {:induction false} KeepIsPart(segs: seq<SegState>, gone: set<int>, limits: Limits)
    ensures |Keep(segs, gone)| <= |segs|
    ensures forall i | 0 <= i < |Keep(segs, gone)| ::
              Keep(segs, gone)[i].base !in gone && exists j :: i <= j < |segs| && segs[j] == Keep(segs, gone)[i]
    ensures AllSealed(segs, limits) ==> AllSealed(Keep(segs, gone), limits)
  {
    hide Sealed;
    if segs != [] {
      var n := |segs| - 1;
      KeepIsPart(segs[..n], gone, limits);
      assert forall i | 0 <= i < n :: segs[..n][i] == segs[i];
    }
  }

  lemma {:induction false} KeepOrdered(segs: seq<SegState>, gone: set<int>, bound: int)
    requires Ordered(segs) && forall i | 0 <= i < |segs| :: EndOf(segs[i]) <= bound
    ensures Ordered(Keep(segs, gone)) && forall i | 0 <= i < |Keep(segs, gone)| :: EndOf(Keep(segs, gone)[i]) <= bound
  {
    if segs != [] {
      var front, last := segs[..|segs| - 1], segs[|segs| - 1];
      assert forall i | 0 <= i < |front| :: front[i] == segs[i] && EndOf(front[i]) <= last.base;
      KeepOrdered(front, gone, last.base);
      KeepOrdered(front, gone, bound);
    }
  }

  /** Deleting any sealed segments keeps the log valid; the log end does not move. */
  lemma WithoutKeeps(s: LogState, gone: set<int>)
    requires Inv(s)
    ensures Inv(Without(s, gone))
  {
    hide ActiveOk, Sealed;
    KeepIsPart(s.sealed, gone, s.limits);
    var all := Segs(s);
    assert forall i | 0 <= i < |s.sealed| :: all[i] == s.sealed[i];
    forall i | 0 <= i < |s.sealed|
      ensures EndOf(s.sealed[i]) <= s.active.base
    {
      assert EndOf(all[i]) <= all[|s.sealed|].base;
    }
    KeepOrdered(s.sealed, gone, s.active.base);
  }

  lemma {:induction false} KeepAll(segs: seq<SegState>, gone: set<int>)
    requires forall i | 0 <= i < |segs| :: segs[i].base !in gone
    ensures Keep(segs, gone) == segs
  {
    if segs != [] {
      KeepAll(segs[..|segs| - 1], gone);
    }
  }

  lemma {:induction false} KeepConcat(a: seq<SegState>, b: seq<SegState>, gone: set<int>)
    ensures Keep(a + b, gone) == Keep(a, gone) + Keep(b, gone)
  {
    if b == [] {
      assert a + b == a;
    } else {
      var n := |b| - 1;
      assert (a + b)[..|a| + n] == a + b[..n];
      KeepConcat(a, b[..n], gone);
    }
  }

  lemma {:induction false} KeepNone(segs: seq<SegState>, gone: set<int>)
    requires forall i | 0 <= i < |segs| :: segs[i].base in gone
    ensures Keep(segs, gone) == []
  {
    if segs != [] {
      KeepNone(segs[..|segs| - 1], gone);
    }
  }

  /** When exactly the first k segments go, the survivors are the rest. */
  lemma KeepSuffix(s: LogState, gone: set<int>, k: nat)
    requires k <= |s.sealed| && gone == BasesOf(s.sealed[..k])
    requires Ordered(Segs(s)) && AllSealed(s.sealed, s.limits)
    ensures Keep(s.sealed, gone) == s.sealed[k..]
  {
    hide Sealed;
    BasesIncrease(s);
    forall i | 0 <= i < k
      ensures s.sealed[..k][i].base in gone
    {
    }
    forall i | 0 <= i < |s.sealed| - k
      ensures s.sealed[k..][i].base !in gone
    {
      forall j | 0 <= j < k
        ensures s.sealed[..k][j].base != s.sealed[k + i].base
      {
        assert Segs(s)[j].base < Segs(s)[k + i].base;
      }
    }
    KeepNone(s.sealed[..k], gone);
    KeepAll(s.sealed[k..], gone);
    assert s.sealed == s.sealed[..k] + s.sealed[k..];
    KeepConcat(s.sealed[..k], s.sealed[k..], gone);
  }

  // ----- the doomed segments are a prefix -----

  ghost predicate Nondecreasing(mtimes: seq<int>) {
    forall i, j | 0 <= i < j < |mtimes| :: mtimes[i] <= mtimes[j]
  }

  /** How many of the first n times lie before the cutoff, when none after the first younger one does. */
  function Expired(mtimes: seq<int>, n: nat, cutoff: int): (k: nat)
    requires n <= |mtimes|
    ensures k <= n
    ensures forall i | 0 <= i < k :: mtimes[i] < cutoff
    ensures k < n ==> mtimes[k] >= cutoff
  {
    if n == 0 then 0
    else
      var k := Expired(mtimes, n - 1, cutoff);
      if k == n - 1 && mtimes[k] < cutoff then n else k
  }

  function AgeCut(sealed: seq<SegState>, mtimes: seq<int>, policy: Policy, now: int, clamp: Clamp): (k: nat)
    requires |mtimes| == |sealed|
    ensures k <= |sealed|
  {
    if policy.retentionMs <= 0 then 0 else Expired(mtimes, Reach(sealed, clamp), Cutoff(policy, now))
  }

  function CutOf(s: LogState, mtimes: seq<int>, policy: Policy, now: int, clamp: Clamp): (k: nat)
    requires |mtimes| == |s.sealed|
    ensures k <= |s.sealed|
  {
    var age := AgeCut(s.sealed, mtimes, policy, now, clamp);
    var size := if policy.retentionBytes <= 0 then 0
                else SizeCut(s.sealed, TotalBytes(Segs(s)), policy.retentionBytes, clamp);
    if age < size then size else age
  }

  lemma AgeDoomedIsPrefix(sealed: seq<SegState>, mtimes: seq<int>, policy: Policy, now: int, clamp: Clamp)
    requires |mtimes| == |sealed| && Nondecreasing(mtimes)
    ensures AgeDoomed(sealed, mtimes, policy, now, clamp)
            == BasesOf(sealed[..AgeCut(sealed, mtimes, policy, now, clamp)])
  {
    var n, k := Reach(sealed, clamp), AgeCut(sealed, mtimes, policy, now, clamp);
    if policy.retentionMs > 0 {
      assert forall i | 0 <= i < n :: mtimes[i] < Cutoff(policy, now) <==> i < k;
      forall b
        ensures b in AgeDoomed(sealed, mtimes, policy, now, clamp) <==> b in BasesOf(sealed[..k])
      {
        if b in AgeDoomed(sealed, mtimes, policy, now, clamp) {
          var i :| 0 <= i < n && mtimes[i] < Cutoff(policy, now) && sealed[i].base == b;
          assert sealed[..k][i].base == b;
        }
        if b in BasesOf(sealed[..k]) {
          var i :| 0 <= i < k && sealed[..k][i].base == b;
          assert sealed[i].base == b;
        }
      }
    }
  }

  lemma BasesOfLonger(segs: seq<SegState>, a: nat, b: nat)
    requires a <= b <= |segs|
    ensures BasesOf(segs[..a]) + BasesOf(segs[..b]) == BasesOf(segs[..b])
  {
    forall x | x in BasesOf(segs[..a])
      ensures x in BasesOf(segs[..b])
    {
      var i :| 0 <= i < a && segs[..a][i].base == x;
      assert segs[..b][i].base == x;
    }
  }

  /** With nondecreasing mtimes a pass dooms exactly the oldest segments, up to the longer of the age
      cut and the size cut. */
  lemma DoomedIsPrefix(s: LogState, mtimes: seq<int>, policy: Policy, now: int, clamp: Clamp)
    requires |mtimes| == |s.sealed| && Nondecreasing(mtimes)
    ensures Doomed(s, mtimes, policy, now, clamp) == BasesOf(s.sealed[..CutOf(s, mtimes, policy, now, clamp)])
  {
    AgeDoomedIsPrefix(s.sealed, mtimes, policy, now, clamp);
    var age := AgeCut(s.sealed, mtimes, policy, now, clamp);
    var size := if policy.retentionBytes <= 0 then 0
                else SizeCut(s.sealed, TotalBytes(Segs(s)), policy.retentionBytes, clamp);
    assert SizeDoomed(s, policy, clamp) == BasesOf(s.sealed[..size]);
    if age < size {
      BasesOfLonger(s.sealed, age, size);
    } else {
      BasesOfLonger(s.sealed, size, age);
    }
  }

  // ----- a whole pass -----

  /** A pass over segments with nondecreasing mtimes, all unlinks working, drops exactly the oldest
      segments; the survivors are still contiguous and end with the same active segment. */
  lemma PassKeepsLayout(s: LogState, mtimes: seq<int>, policy: Policy, now: int, clamp: Clamp)
    requires Inv(s) && |mtimes| == |s.sealed| && Nondecreasing(mtimes)
    ensures var t := Without(s, Doomed(s, mtimes, policy, now, clamp)); var k := CutOf(s, mtimes, policy, now, clamp);
            && t == s.(sealed := s.sealed[k..]) && Inv(t)
            && (Contiguous(Segs(s)) ==> Contiguous(Segs(t)))
            && Segs(s)[0].base <= Segs(t)[0].base
  {
    hide Inv, Doomed, CutOf, Keep, Contiguous;
    var k := CutOf(s, mtimes, policy, now, clamp);
    DoomedIsPrefix(s, mtimes, policy, now, clamp);
    InvParts(s);
    KeepSuffix(s, Doomed(s, mtimes, policy, now, clamp), k);
    WithoutKeeps(s, Doomed(s, mtimes, policy, now, clamp));
    assert Segs(s.(sealed := s.sealed[k..])) == Segs(s)[k..];
    SuffixContiguous(Segs(s), k);
    BasesIncrease(s);
  }

  lemma SuffixContiguous(segs: seq<SegState>, k: nat)
    requires k <= |segs|
    ensures Contiguous(segs) ==> Contiguous(segs[k..])
  {
    if Contiguous(segs) {
      forall i | 0 < i < |segs[k..]|
        ensures segs[k..][i].base == EndOf(segs[k..][i - 1])
      {
        assert segs[k + i].base == EndOf(segs[k + i - 1]);
      }
    }
  }

  /** For every offset from the new start on, the records to be read are the same as before. */
  lemma PassIsInvisible(s: LogState, k: nat, offset: int)
    requires Inv(s) && k <= |s.sealed| && offset >= Segs(s)[k].base
    ensures var t := s.(sealed := s.sealed[k..]); FromOffset(Log(t), offset) == FromOffset(Log(s), offset)
  {
    hide Content, Sealed, ActiveOk, LogOf, FromOffset, Countable;
    AllCountable(s);
    var t := s.(sealed := s.sealed[k..]);
    var dropped := s.sealed[..k];
    forall i | 0 <= i < k
      ensures Countable(dropped[i]) && EndOf(dropped[i]) <= offset
    {
      assert dropped[i] == Segs(s)[i];
      assert EndOf(Segs(s)[i]) <= Segs(s)[k].base;
    }
    EarlierOffsets(dropped, offset);
    assert s.sealed == dropped + s.sealed[k..];
    LogOfConcat(dropped, s.sealed[k..]);
    ConcatAssoc(LogOf(dropped), LogOf(s.sealed[k..]), Content(s.active));
    FromOffsetAfter(LogOf(dropped), Log(t), offset);
  }

  lemma {:induction false} FromOffsetAfter(a: seq<Record>, b: seq<Record>, offset: int)
    requires forall i | 0 <= i < |a| :: a[i].offset < offset
    ensures FromOffset(a + b, offset) == FromOffset(b, offset)
  {
    if a == [] {
      assert a + b == b;
    } else {
      assert (a + b)[1..] == a[1..] + b;
      FromOffsetAfter(a[1..], b, offset);
    }
  }

  /** Reads from the new start on are the same before and after a pass, whatever their budgets. */
  lemma ReadsUnchanged(s: LogState, k: nat, offset: int, a: seq<Record>, b: seq<Record>, maxRecords: int, maxBytes: int)
    requires Inv(s) && k <= |s.sealed| && offset >= Segs(s)[k].base
    requires IsSlice(FromOffset(Log(s), offset), a, maxRecords, maxBytes)
    requires IsSlice(FromOffset(Log(s.(sealed := s.sealed[k..])), offset), b, maxRecords, maxBytes)
    ensures a == b
  {
    hide IsSlice, Inv, Log, FromOffset;
    PassIsInvisible(s, k, offset);
    SliceIsUnique(FromOffset(Log(s), offset), a, b, maxRecords, maxBytes);
  }

  lemma {:induction false} TotalOfConcat(a: seq<SegState>, b: seq<SegState>)
    ensures TotalBytes(a + b) == TotalBytes(a) + TotalBytes(b)
  {
    if b == [] {
      assert a + b == a;
    } else {
      var n := |b| - 1;
      assert (a + b)[..|a| + n] == a + b[..n];
      TotalOfConcat(a, b[..n]);
    }
  }

  /** The byte budget is met after a pass, or every sealed segment below the clamp is gone; whatever
      else the age policy deletes, from whatever mtimes. */
  lemma BudgetIsMet(s: LogState, mtimes: seq<int>, policy: Policy, now: int, clamp: Clamp)
    requires Inv(s) && |mtimes| == |s.sealed| && policy.retentionBytes > 0
    ensures var t := Without(s, Doomed(s, mtimes, policy, now, clamp));
            TotalBytes(Segs(t)) <= policy.retentionBytes || Reach(t.sealed, clamp) == 0
  {
    hide Inv, TotalBytes, Reach, SizeCut, AgeDoomed;
    var size := SizeCut(s.sealed, TotalBytes(Segs(s)), policy.retentionBytes, clamp);
    var gone := Doomed(s, mtimes, policy, now, clamp);
    SizeCutFacts(s.sealed, TotalBytes(Segs(s)), policy.retentionBytes, clamp);
    assert BasesOf(s.sealed[..size]) <= gone;
    if size < Reach(s.sealed, clamp) {
      WithoutIsSmaller(s, gone, size);
    } else {
      DoomedIsBelowClamp(s, mtimes, policy, now, clamp);
      assert gone == BasesOf(s.sealed[..size]);
      InvParts(s);
      KeepSuffix(s, gone, size);
      ReachAfter(s, size, clamp);
    }
  }

  lemma InvParts(s: LogState)
    requires Inv(s)
    ensures Ordered(Segs(s)) && AllSealed(s.sealed, s.limits)
  {
  }

  lemma WithoutIsSmaller(s: LogState, gone: set<int>, n: nat)
    requires Inv(s) && n <= |s.sealed| && BasesOf(s.sealed[..n]) <= gone
    ensures TotalBytes(Segs(Without(s, gone))) <= TotalBytes(Segs(s)) - TotalBytes(s.sealed[..n])
  {
    hide Inv, TotalBytes, Keep;
    KeepRest(s.sealed, gone, n);
    SizesNotNegative(s);
    KeepIsSmaller(s.sealed[n..], gone);
    TotalOfRest(s, n);
    TotalWith(s.sealed[n..], s.active);
    TotalWith(Keep(s.sealed, gone), s.active);
  }

  lemma KeepRest(segs: seq<SegState>, gone: set<int>, n: nat)
    requires n <= |segs| && BasesOf(segs[..n]) <= gone
    ensures Keep(segs, gone) == Keep(segs[n..], gone)
  {
    var first, rest := segs[..n], segs[n..];
    assert segs == first + rest;
    forall i | 0 <= i < n
      ensures first[i].base in gone
    {
      assert first[i].base in BasesOf(first);
    }
    KeepNone(first, gone);
    KeepConcat(first, rest, gone);
    assert [] + Keep(rest, gone) == Keep(rest, gone);
  }

  lemma TotalWith(segs: seq<SegState>, sg: SegState)
    ensures TotalBytes(segs + [sg]) == TotalBytes(segs) + sg.sizeBytes
  {
    assert (segs + [sg])[..|segs|] == segs;
  }

  /** The bytes left once the first i segments are gone. */
  lemma TotalOfRest(s: LogState, i: nat)
    requires i <= |s.sealed|
    ensures TotalBytes(Segs(s.(sealed := s.sealed[i..]))) == TotalBytes(Segs(s)) - TotalBytes(s.sealed[..i])
  {
    hide TotalBytes;
    var rest := s.sealed[i..] + [s.active];
    assert Segs(s) == s.sealed[..i] + rest;
    TotalOfConcat(s.sealed[..i], rest);
  }

  lemma {:induction false} KeepIsSmaller(segs: seq<SegState>, gone: set<int>)
    requires forall i | 0 <= i < |segs| :: segs[i].sizeBytes >= 0
    ensures TotalBytes(Keep(segs, gone)) <= TotalBytes(segs)
  {
    if segs != [] {
      KeepIsSmaller(segs[..|segs| - 1], gone);
    }
  }

  lemma ReachAfter(s: LogState, k: nat, clamp: Clamp)
    requires k <= |s.sealed| && k >= Reach(s.sealed, clamp) && Inv(s)
    ensures Reach(s.sealed[k..], clamp) == 0
  {
    hide Sealed, ActiveOk;
    var n := Reach(s.sealed, clamp);
    if k < |s.sealed| {
      BasesIncrease(s);
      SizesNotNegative(s);
      assert n < k ==> EndOf(Segs(s)[n]) <= Segs(s)[k].base;
      assert Segs(s)[k] == s.sealed[k] && Segs(s)[n] == s.sealed[n];
    }
  }

  lemma SizesNotNegative(s: LogState)
    requires Inv(s)
    ensures forall i | 0 <= i < |s.sealed| :: s.sealed[i].sizeBytes >= 0 && s.sealed[i].records > 0
  {
    hide Content, Run;
    forall i | 0 <= i < |s.sealed|
      ensures s.sealed[i].sizeBytes >= 0 && s.sealed[i].records > 0
    {
      assert Sealed(s.sealed[i], s.limits);
    }
  }

  lemma {:induction false} TotalNotNegative(segs: seq<SegState>)
    requires forall i | 0 <= i < |segs| :: segs[i].sizeBytes >= 0
    ensures TotalBytes(segs) >= 0
  {
    if segs != [] {
      TotalNotNegative(segs[..|segs| - 1]);
    }
  }

  /** The size policy alone deletes the oldest segments and no more than it must: with the last
      deleted segment still there, the total would have been over budget. */
  lemma BudgetIsTight(s: LogState, mtimes: seq<int>, policy: Policy, now: int, clamp: Clamp)
    requires Inv(s) && |mtimes| == |s.sealed|
    requires policy.retentionMs <= 0 && policy.retentionBytes > 0
    ensures var k := CutOf(s, mtimes, policy, now, clamp);
            && Without(s, Doomed(s, mtimes, policy, now, clamp)) == s.(sealed := s.sealed[k..])
            && (k > 0 ==> TotalBytes(Segs(s.(sealed := s.sealed[k - 1..]))) > policy.retentionBytes)
  {
    hide Inv, TotalBytes, SizeCut, Doomed, CutOf;
    var k := CutOf(s, mtimes, policy, now, clamp);
    SizeOnly(s, mtimes, policy, now, clamp);
    InvParts(s);
    KeepSuffix(s, BasesOf(s.sealed[..k]), k);
    if k > 0 {
      OverBudgetBefore(s, policy.retentionBytes, clamp, k);
    }
  }

  lemma OverBudgetBefore(s: LogState, budget: int, clamp: Clamp, k: nat)
    requires k == SizeCut(s.sealed, TotalBytes(Segs(s)), budget, clamp) && k > 0
    ensures TotalBytes(Segs(s.(sealed := s.sealed[k - 1..]))) > budget
  {
    hide TotalBytes, SizeCut, Reach;
    SizeCutFacts(s.sealed, TotalBytes(Segs(s)), budget, clamp);
    TotalOfRest(s, k - 1);
    TotalOfNone(s.sealed);
  }

  lemma SizeOnly(s: LogState, mtimes: seq<int>, policy: Policy, now: int, clamp: Clamp)
    requires |mtimes| == |s.sealed| && policy.retentionMs <= 0 && policy.retentionBytes > 0
    ensures var k := CutOf(s, mtimes, policy, now, clamp);
            && k == SizeCut(s.sealed, TotalBytes(Segs(s)), policy.retentionBytes, clamp)
            && Doomed(s, mtimes, policy, now, clamp) == BasesOf(s.sealed[..k])
  {
  }

  lemma TotalOfNone(segs: seq<SegState>)
    ensures TotalBytes(segs[..0]) == 0
  {
  }

  // ----- when survivors stay contiguous -----

  ghost predicate OldestGone(segs: seq<SegState>, gone: set<int>) {
    forall i, j | 0 <= i < j < |segs| && segs[j].base in gone :: segs[i].base in gone
  }

  /** Of a log without gaps, deleting sealed segments leaves no gap exactly when the deleted ones are
      the oldest: no deleted segment has a kept one before it. */
  lemma ContiguousIffPrefix(s: LogState, gone: set<int>)
    requires Inv(s) && Contiguous(Segs(s))
    ensures Contiguous(Segs(Without(s, gone))) <==> OldestGone(s.sealed, gone)
  {
    hide Sealed, ActiveOk;
    SizesNotNegative(s);
    BasesIncrease(s);
    KeptContiguous(s.sealed, s.active, gone);
    assert forall i | 0 <= i < |s.sealed| :: Segs(s)[i] == s.sealed[i];
  }

  lemma {:induction false} KeptContiguous(segs: seq<SegState>, next: SegState, gone: set<int>)
    requires Contiguous(segs + [next]) && forall i | 0 <= i < |segs| :: segs[i].records > 0
    ensures Contiguous(Keep(segs, gone) + [next]) <==> OldestGone(segs, gone)
  {
    if segs != [] {
      var n := |segs| - 1;
      var front, last := segs[..n], segs[n];
      var all := segs + [next];
      assert front + [last] == segs;
      ContiguousFront(segs, next);
      assert forall i | 0 <= i < n :: front[i] == segs[i];
      KeptContiguous(front, last, gone);
      assert all[n + 1].base == EndOf(all[n]);
      var kept := Keep(front, gone);
      if last.base in gone {
        GapBefore(front, last, next, gone);
      } else {
        ContiguousSnoc(kept + [last], next);
      }
    } else {
      assert Keep(segs, gone) + [next] == [next];
    }
  }

  lemma ContiguousFront(segs: seq<SegState>, next: SegState)
    requires Contiguous(segs + [next])
    ensures Contiguous(segs)
  {
    var all := segs + [next];
    forall i | 0 < i < |segs|
      ensures segs[i].base == EndOf(segs[i - 1])
    {
      assert all[i].base == EndOf(all[i - 1]);
    }
  }

  lemma ContiguousSnoc(segs: seq<SegState>, next: SegState)
    requires segs != [] && next.base == EndOf(segs[|segs| - 1])
    ensures Contiguous(segs + [next]) <==> Contiguous(segs)
  {
    var all := segs + [next];
    assert forall i | 0 <= i < |segs| :: all[i] == segs[i];
    if Contiguous(all) {
      ContiguousFront(segs, next);
    }
  }

  /** With `last` deleted, what was kept before it must be nothing. */
  lemma GapBefore(front: seq<SegState>, last: SegState, next: SegState, gone: set<int>)
    requires last.base in gone && last.records > 0 && next.base == EndOf(last)
    requires Contiguous(front + [last]) && forall i | 0 <= i < |front| :: front[i].records > 0
    ensures Contiguous(Keep(front, gone) + [next]) <==> forall i | 0 <= i < |front| :: front[i].base in gone
  {
    var kept := Keep(front, gone);
    if forall i | 0 <= i < |front| :: front[i].base in gone {
      KeepNone(front, gone);
      assert kept + [next] == [next];
    } else {
      var i :| 0 <= i < |front| && front[i].base !in gone;
      KeptSomething(front, gone, i);
      KeepIsPart(front, gone, Limits(0, 0));
      var e := kept[|kept| - 1];
      var j :| 0 <= j < |front| && front[j] == e;
      EndsBefore(front + [last], j, |front|);
      assert (front + [last])[j] == e;
      assert (kept + [next])[|kept|] == next && (kept + [next])[|kept| - 1] == e;
      assert next.base > EndOf(e);
    }
  }

  lemma {:induction false} KeptSomething(segs: seq<SegState>, gone: set<int>, i: nat)
    requires i < |segs| && segs[i].base !in gone
    ensures Keep(segs, gone) != []
  {
    if i < |segs| - 1 {
      KeptSomething(segs[..|segs| - 1], gone, i);
    }
  }

  lemma {:induction false} EndsBefore(segs: seq<SegState>, i: nat, j: nat)
    requires Contiguous(segs) && i < j < |segs| && forall k | 0 <= k < j :: segs[k].records > 0
    ensures EndOf(segs[i]) <= segs[j].base
  {
    assert segs[j].base == EndOf(segs[j - 1]);
    if i < j - 1 {
      EndsBefore(segs, i, j - 1);
    }
  }

  /** Segment i goes: it can be unlinked, and it is expired within the clamp's reach or among those the
      byte budget asks for. */
  predicate Goes(s: LogState, mtimes: seq<int>, policy: Policy, now: int, clamp: Clamp, stuck: set<int>, i: nat)
    requires |mtimes| == |s.sealed| && i < |s.sealed|
  {
    && s.sealed[i].base !in stuck
    && (|| (policy.retentionMs > 0 && i < Reach(s.sealed, clamp) && mtimes[i] < Cutoff(policy, now))
        || (policy.retentionBytes > 0 && i < SizeCut(s.sealed, TotalBytes(Segs(s)), policy.retentionBytes, clamp)))
  }

  lemma GoesIff(s: LogState, mtimes: seq<int>, policy: Policy, now: int, clamp: Clamp, stuck: set<int>, i: nat)
    requires Inv(s) && |mtimes| == |s.sealed| && i < |s.sealed|
    ensures s.sealed[i].base in Doomed(s, mtimes, policy, now, clamp) - stuck
            <==> Goes(s, mtimes, policy, now, clamp, stuck, i)
  {
    hide Inv, TotalBytes, SizeCut, Reach, AgeDoomed, BasesOf;
    InvParts(s);
    BasesAscend(s);
    AgeGoesIff(s.sealed, mtimes, policy, now, clamp, i);
    BaseInIff(s.sealed, SizeCut(s.sealed, TotalBytes(Segs(s)), policy.retentionBytes, clamp), i);
  }

  ghost predicate AscendingBases(segs: seq<SegState>) {
    forall i, j | 0 <= i < j < |segs| :: segs[i].base < segs[j].base
  }

  lemma BasesAscend(s: LogState)
    requires Ordered(Segs(s)) && AllSealed(s.sealed, s.limits)
    ensures AscendingBases(s.sealed)
  {
    hide Sealed;
    BasesIncrease(s);
    assert forall j | 0 <= j < |s.sealed| :: Segs(s)[j] == s.sealed[j];
  }

  lemma BaseInIff(segs: seq<SegState>, n: nat, i: nat)
    requires AscendingBases(segs) && n <= |segs| && i < |segs|
    ensures segs[i].base in BasesOf(segs[..n]) <==> i < n
  {
    if segs[i].base in BasesOf(segs[..n]) {
      var j :| 0 <= j < n && segs[..n][j].base == segs[i].base;
      assert segs[j].base == segs[i].base;
    }
    if i < n {
      assert segs[..n][i].base in BasesOf(segs[..n]);
    }
  }

  lemma AgeGoesIff(sealed: seq<SegState>, mtimes: seq<int>, policy: Policy, now: int, clamp: Clamp, i: nat)
    requires AscendingBases(sealed) && |mtimes| == |sealed| && i < |sealed|
    ensures sealed[i].base in AgeDoomed(sealed, mtimes, policy, now, clamp)
            <==> policy.retentionMs > 0 && i < Reach(sealed, clamp) && mtimes[i] < Cutoff(policy, now)
  {
    hide Reach;
    if sealed[i].base in AgeDoomed(sealed, mtimes, policy, now, clamp) {
      var j :| 0 <= j < Reach(sealed, clamp) && mtimes[j] < Cutoff(policy, now) && sealed[j].base == sealed[i].base;
    }
  }

  lemma ReachIff(sealed: seq<SegState>, clamp: Clamp, i: nat)
    requires i < |sealed|
    ensures i < Reach(sealed, clamp)
            <==> forall k | 0 <= k <= i :: clamp.Below? ==> sealed[k].base + sealed[k].records <= clamp.bound
  {
    var n := Reach(sealed, clamp);
    assert forall k | 0 <= k < n :: BelowClamp(sealed[k], clamp);
    if n <= i {
      assert !BelowClamp(sealed[n], clamp);
    }
  }

  lemma SizeCutIff(s: LogState, budget: int, clamp: Clamp, i: nat)
    requires i < |s.sealed|
    ensures i < SizeCut(s.sealed, TotalBytes(Segs(s)), budget, clamp)
            <==> i < Reach(s.sealed, clamp) && forall k | 0 <= k <= i :: TotalBytes(Segs(s)[k..]) > budget
  {
    hide TotalBytes, SizeCut, Reach;
    var n := SizeCut(s.sealed, TotalBytes(Segs(s)), budget, clamp);
    SizeCutFacts(s.sealed, TotalBytes(Segs(s)), budget, clamp);
    TotalOfNone(s.sealed);
    forall k | 0 <= k <= |s.sealed|
      ensures TotalBytes(Segs(s)[k..]) == TotalBytes(Segs(s)) - TotalBytes(s.sealed[..k])
    {
      TotalOfRest(s, k);
      assert Segs(s)[k..] == Segs(s.(sealed := s.sealed[k..]));
    }
    if n <= i && n < Reach(s.sealed, clamp) {
      assert TotalBytes(Segs(s)[n..]) <= budget;
    }
  }

  /** Which segments a pass wants gone: those that end at or below the clamp, as all before them do, and
      were last written longer ago than the configured age, or whose removal and that of all before
      them the byte budget asks for. */
  lemma DoomedExactly(s: LogState, mtimes: seq<int>, policy: Policy, now: int, clamp: Clamp, i: nat)
    requires Inv(s) && |mtimes| == |s.sealed| && i < |s.sealed|
    ensures s.sealed[i].base in Doomed(s, mtimes, policy, now, clamp)
            <==> && (forall k | 0 <= k <= i ::
                       clamp.Below? ==> s.sealed[k].base + s.sealed[k].records <= clamp.bound)
                 && (|| (policy.retentionMs > 0 && now - mtimes[i] > policy.retentionMs * 1_000_000)
                     || (policy.retentionBytes > 0
                         && forall k | 0 <= k <= i :: TotalBytes(Segs(s)[k..]) > policy.retentionBytes))
  {
    hide Inv, TotalBytes, SizeCut, Reach, Doomed;
    GoesIff(s, mtimes, policy, now, clamp, {}, i);
    ReachIff(s.sealed, clamp, i);
    SizeCutIff(s, policy.retentionBytes, clamp, i);
    assert Doomed(s, mtimes, policy, now, clamp) - {} == Doomed(s, mtimes, policy, now, clamp);
  }

  /** Nothing but sealed segments is doomed, and exactly the others of them survive. */
  lemma {:induction false} KeptExactly(segs: seq<SegState>, gone: set<int>, sg: SegState)
    ensures sg in Keep(segs, gone) <==> sg in segs && sg.base !in gone
  {
    if segs != [] {
      KeptExactly(segs[..|segs| - 1], gone, sg);
      assert segs == segs[..|segs| - 1] + [segs[|segs| - 1]];
    }
  }

  /** A pass leaves no gap exactly when no segment that goes comes after one that stays. */
  lemma PassContiguousIff(s: LogState, mtimes: seq<int>, policy: Policy, now: int, clamp: Clamp, stuck: set<int>)
    requires Inv(s) && Contiguous(Segs(s)) && |mtimes| == |s.sealed|
    ensures Contiguous(Segs(Without(s, Doomed(s, mtimes, policy, now, clamp) - stuck)))
            <==> forall i, j | 0 <= i < j < |s.sealed| && Goes(s, mtimes, policy, now, clamp, stuck, j) ::
                   Goes(s, mtimes, policy, now, clamp, stuck, i)
  {
    hide Inv, Keep, Contiguous, Doomed, Goes;
    ContiguousIffPrefix(s, Doomed(s, mtimes, policy, now, clamp) - stuck);
    forall i | 0 <= i < |s.sealed|
      ensures s.sealed[i].base in Doomed(s, mtimes, policy, now, clamp) - stuck
              <==> Goes(s, mtimes, policy, now, clamp, stuck, i)
    {
      GoesIff(s, mtimes, policy, now, clamp, stuck, i);
    }
  }

  // ----- what any deletion leaves readable -----

  lemma {:induction false} KeepFromOffset(segs: seq<SegState>, gone: set<int>, offset: int, later: seq<Record>)
    requires Ordered(segs) && forall i | 0 <= i < |segs| :: Countable(segs[i])
    requires forall i | 0 <= i < |segs| && segs[i].base in gone :: EndOf(segs[i]) <= offset
    ensures FromOffset(LogOf(Keep(segs, gone)) + later, offset) == FromOffset(LogOf(segs) + later, offset)
    decreases |segs|
  {
    hide Content, FromOffset, Countable, Ordered;
    if segs != [] {
      var front, last := segs[..|segs| - 1], segs[|segs| - 1];
      assert forall i | 0 <= i < |front| :: front[i] == segs[i];
      FrontOrdered(segs);
      assert segs == front + [last];
      LogOfSnoc(front, last);
      if last.base in gone {
        KeepFromOffset(front, gone, offset, later);
        CountedOnce(last);
        EarlierOffsets(front, offset);
        EarlierOffsets(segs, offset);
        FromOffsetAfter(LogOf(segs), later, offset);
        FromOffsetAfter(LogOf(front), later, offset);
      } else {
        KeepFromOffset(front, gone, offset, Content(last) + later);
        LogOfSnoc(Keep(front, gone), last);
        ConcatAssoc(LogOf(front), Content(last), later);
        ConcatAssoc(LogOf(Keep(front, gone)), Content(last), later);
      }
    }
  }

  lemma CountedOnce(sg: SegState)
    requires Countable(sg)
    ensures sg.base <= EndOf(sg)
  {
  }

  lemma FrontOrdered(segs: seq<SegState>)
    requires Ordered(segs) && segs != []
    ensures Ordered(segs[..|segs| - 1])
    ensures forall i | 0 <= i < |segs| - 1 :: EndOf(segs[i]) <= segs[|segs| - 1].base
  {
  }

  /** Deleting segments that end at or below an offset changes nothing that is read from there on. */
  lemma WithoutFromOffset(s: LogState, gone: set<int>, offset: int)
    requires Inv(s)
    requires forall i | 0 <= i < |s.sealed| && s.sealed[i].base in gone :: EndOf(s.sealed[i]) <= offset
    ensures FromOffset(Log(Without(s, gone)), offset) == FromOffset(Log(s), offset)
  {
    hide Content, FromOffset, Countable, Sealed, ActiveOk;
    AllCountable(s);
    forall i | 0 <= i < |s.sealed|
      ensures Countable(s.sealed[i])
    {
      assert Countable(Segs(s)[i]);
    }
    FrontOrdered(Segs(s));
    assert Segs(s)[..|s.sealed|] == s.sealed;
    KeepFromOffset(s.sealed, gone, offset, Content(s.active));
  }

  lemma FromOffsetOfCons(r: Record, log: seq<Record>, offset: int)
    ensures FromOffset([r] + log, offset) == if r.offset >= offset then [r] + log else FromOffset(log, offset)
  {
    assert ([r] + log)[1..] == log;
  }

  lemma {:induction false} AddedSeen(added: seq<Record>, later: seq<Record>, offset: int)
    ensures |FromOffset(later, offset)| <= |FromOffset(added + later, offset)|
    ensures added != [] && added[|added| - 1].offset >= offset
            ==> |FromOffset(later, offset)| < |FromOffset(added + later, offset)|
  {
    hide FromOffset;
    FromOffsetNotLonger(later, offset);
    if added == [] {
      assert added + later == later;
    } else {
      AddedSeen(added[1..], later, offset);
      assert added + later == [added[0]] + (added[1..] + later);
      FromOffsetOfCons(added[0], added[1..] + later, offset);
    }
  }

  lemma {:induction false} InsertedSeen(front: seq<Record>, added: seq<Record>, later: seq<Record>, offset: int)
    ensures |FromOffset(front + later, offset)| <= |FromOffset(front + (added + later), offset)|
    ensures added != [] && added[|added| - 1].offset >= offset
            ==> |FromOffset(front + later, offset)| < |FromOffset(front + (added + later), offset)|
  {
    hide FromOffset;
    if front == [] {
      assert front + later == later && front + (added + later) == added + later;
      AddedSeen(added, later, offset);
    } else {
      InsertedSeen(front[1..], added, later, offset);
      assert front + later == [front[0]] + (front[1..] + later);
      assert front + (added + later) == [front[0]] + (front[1..] + (added + later));
      FromOffsetOfCons(front[0], front[1..] + later, offset);
      FromOffsetOfCons(front[0], front[1..] + (added + later), offset);
    }
  }

  lemma {:induction false} FromOffsetNotLonger(log: seq<Record>, offset: int)
    ensures |FromOffset(log, offset)| <= |log|
  {
    if log != [] && log[0].offset < offset {
      FromOffsetNotLonger(log[1..], offset);
    }
  }

  /** Deleting a segment that ends past an offset takes records from a reader at that offset. */
  lemma {:induction false} KeepSeesFewer(segs: seq<SegState>, gone: set<int>, offset: int, later: seq<Record>)
    requires forall i | 0 <= i < |segs| :: Countable(segs[i]) && segs[i].records > 0
    ensures |FromOffset(LogOf(Keep(segs, gone)) + later, offset)| <= |FromOffset(LogOf(segs) + later, offset)|
    ensures (exists i :: 0 <= i < |segs| && segs[i].base in gone && EndOf(segs[i]) > offset)
            ==> |FromOffset(LogOf(Keep(segs, gone)) + later, offset)| < |FromOffset(LogOf(segs) + later, offset)|
    decreases |segs|
  {
    hide Content, FromOffset, Countable;
    if segs != [] {
      var front, last := segs[..|segs| - 1], segs[|segs| - 1];
      assert forall i | 0 <= i < |front| :: front[i] == segs[i];
      assert segs == front + [last];
      LogOfSnoc(front, last);
      if last.base in gone {
        KeepSeesFewer(front, gone, offset, later);
        InsertedSeen(LogOf(front), Content(last), later, offset);
        ConcatAssoc(LogOf(front), Content(last), later);
        LastOffset(last);
      } else {
        KeepSeesFewer(front, gone, offset, Content(last) + later);
        LogOfSnoc(Keep(front, gone), last);
        ConcatAssoc(LogOf(front), Content(last), later);
        ConcatAssoc(LogOf(Keep(front, gone)), Content(last), later);
      }
    }
  }

  lemma LastOffset(sg: SegState)
    requires Countable(sg) && sg.records > 0
    ensures Content(sg) != [] && Content(sg)[|Content(sg)| - 1].offset == EndOf(sg) - 1
  {
    hide Content;
  }

  /** A reader at an offset notices a deletion exactly when a deleted segment ends past that offset. */
  lemma UnnoticedIff(s: LogState, gone: set<int>, offset: int)
    requires Inv(s)
    ensures FromOffset(Log(Without(s, gone)), offset) == FromOffset(Log(s), offset)
            <==> forall i | 0 <= i < |s.sealed| && s.sealed[i].base in gone :: EndOf(s.sealed[i]) <= offset
  {
    hide Content, FromOffset, Countable, Sealed, ActiveOk;
    if forall i | 0 <= i < |s.sealed| && s.sealed[i].base in gone :: EndOf(s.sealed[i]) <= offset {
      WithoutFromOffset(s, gone, offset);
    } else {
      AllCountable(s);
      forall i | 0 <= i < |s.sealed|
        ensures Countable(s.sealed[i]) && s.sealed[i].records > 0
      {
        assert Segs(s)[i] == s.sealed[i];
        SealedNotEmpty(s, i);
      }
      KeepSeesFewer(s.sealed, gone, offset, Content(s.active));
    }
  }
}
