/** The in-memory sparse index: about one entry per interval of log bytes, and the search in it. */
module SparseIndex {

  /** Maps a record's ordinal in its segment to the byte position of its frame. */
  datatype IndexEntry = IndexEntry(relOffset: int, position: int)

  function LastPos(index: seq<IndexEntry>): int {
    if index == [] then 0 else index[|index| - 1].position
  }

  /** The index after records 0..k-1 had their turn to be indexed; record i starts at starts[i]. */
  function IndexUpTo(starts: seq<nat>, k: nat, interval: int): seq<IndexEntry>
    requires k <= |starts|
  {
    if k == 0 then [] else
      var prev := IndexUpTo(starts, k - 1, interval);
      var pos := starts[k - 1];
      if k == 1 || pos - LastPos(prev) >= interval then prev + [IndexEntry(k - 1, pos)] else prev
  }

  /** Later records do not change what is already indexed. */
  lemma {:induction false} IndexOfPrefix(a: seq<nat>, b: seq<nat>, k: nat, interval: int)
    requires k <= |a| && k <= |b| && a[..k] == b[..k]
    ensures IndexUpTo(a, k, interval) == IndexUpTo(b, k, interval)
  {
    if k > 0 {
      assert a[..k][k - 1] == b[..k][k - 1];
      assert a[..k - 1] == a[..k][..k - 1] && b[..k - 1] == b[..k][..k - 1];
      IndexOfPrefix(a, b, k - 1, interval);
    }
  }

  ghost predicate EntriesAtStarts(index: seq<IndexEntry>, starts: seq<nat>, k: nat)
    requires k <= |starts|
  {
    forall i | 0 <= i < |index| :: 0 <= index[i].relOffset < k && index[i].position == starts[index[i].relOffset]
  }

  ghost predicate Spaced(index: seq<IndexEntry>, interval: int) {
    forall i | 1 <= i < |index| ::
      index[i - 1].relOffset < index[i].relOffset && index[i - 1].position + interval <= index[i].position
  }

  ghost predicate Increasing(index: seq<IndexEntry>) {
    forall i, j | 0 <= i < j < |index| :: index[i].relOffset < index[j].relOffset
  }

  ghost predicate WellShaped(index: seq<IndexEntry>, starts: seq<nat>, k: nat, interval: int)
    requires k <= |starts|
  {
    && EntriesAtStarts(index, starts, k)
    && Spaced(index, interval)
    && Increasing(index)
    && (k > 0 ==> index != [] && index[0] == IndexEntry(0, starts[0]))
  }

  /** Every entry sits at its record's frame start, the first record always has one, and entries
      are strictly increasing and at least an interval of bytes apart. */
  lemma {:induction false} IndexShape(starts: seq<nat>, k: nat, interval: int)
    requires k <= |starts|
    ensures WellShaped(IndexUpTo(starts, k, interval), starts, k, interval)
  {
    if k > 0 {
      IndexShape(starts, k - 1, interval);
      var prev := IndexUpTo(starts, k - 1, interval);
      if k == 1 || starts[k - 1] - LastPos(prev) >= interval {
        ShapeAfterEntry(prev, starts, k, interval);
      } else {
        hide IndexUpTo;
      }
    }
  }

  lemma ShapeAfterEntry(prev: seq<IndexEntry>, starts: seq<nat>, k: nat, interval: int)
    requires 0 < k <= |starts| && WellShaped(prev, starts, k - 1, interval)
    requires if k == 1 then prev == [] else starts[k - 1] - LastPos(prev) >= interval
    ensures WellShaped(prev + [IndexEntry(k - 1, starts[k - 1])], starts, k, interval)
  {
    var index := prev + [IndexEntry(k - 1, starts[k - 1])];
    assert EntriesAtStarts(index, starts, k);
    assert Spaced(index, interval);
  }

  lemma {:induction false} EntrySpread(index: seq<IndexEntry>, interval: int, n: nat)
    requires Spaced(index, interval) && n < |index|
    ensures index[n].position >= index[0].position + interval * n
  {
    if n > 0 {
      EntrySpread(index, interval, n - 1);
    }
  }

  /** The index holds at most one entry per interval of bytes, plus the first record's. */
  lemma IndexSize(starts: seq<nat>, k: nat, interval: int)
    requires interval > 0 && 0 < k < |starts|
    requires forall i | 0 <= i < k :: starts[i] <= starts[k]
    ensures |IndexUpTo(starts, k, interval)| <= 1 + starts[k] / interval
  {
    var index := IndexUpTo(starts, k, interval);
    IndexShape(starts, k, interval);
    var n := |index| - 1;
    EntrySpread(index, interval, n);
    assert index[n].position == starts[index[n].relOffset] <= starts[k];
    QuotientBound(n, interval, starts[k]);
  }

  lemma QuotientBound(n: nat, d: int, x: nat)
    requires d > 0 && d * n <= x
    ensures n <= x / d
  {
    var q := x / d;
    if n > q {
      MulMonotone(d, q + 1, n);
    }
  }

  lemma MulMonotone(d: int, a: int, b: int)
    requires d > 0 && a <= b
    ensures d * a <= d * b
  {
  }

  // ----- the search -----

  /** The entry with the largest relOffset not above target; the file start when there is none. */
  ghost predicate IsLookup(index: seq<IndexEntry>, target: int, e: IndexEntry) {
    || (e == IndexEntry(0, 0) && forall i | 0 <= i < |index| :: index[i].relOffset > target)
    || IsEntryBelow(index, target, e)
  }

  ghost predicate IsEntryBelow(index: seq<IndexEntry>, target: int, e: IndexEntry) {
    exists i :: 0 <= i < |index| && index[i] == e && e.relOffset <= target
                && forall j | i < j < |index| :: index[j].relOffset > target
  }

  method LookupIndex(index: seq<IndexEntry>, target: int) returns (e: IndexEntry)
    requires Increasing(index)
    ensures IsLookup(index, target, e)
  {
    var i, j := 0, |index|;  // the smallest position whose entry is above target
    while i < j
      invariant 0 <= i <= j <= |index|
      invariant forall k | 0 <= k < i :: index[k].relOffset <= target
      invariant forall k | j <= k < |index| :: index[k].relOffset > target
    {
      var h := i + (j - i) / 2;
      if !(index[h].relOffset > target) {
        i := h + 1;
      } else {
        j := h;
      }
    }
    if i == 0 {
      return IndexEntry(0, 0);
    }
    return index[i - 1];
  }

  /** An entry found for a target is at the target or before it, and fewer than `interval` bytes away. */
  lemma {:induction false} LookupIsClose(starts: seq<nat>, k: nat, interval: int, target: nat, e: IndexEntry)
    requires interval > 0 && target < k <= |starts| && starts[0] == 0
    requires IsLookup(IndexUpTo(starts, k, interval), target, e)
    ensures 0 <= e.relOffset <= target && e.position == starts[e.relOffset]
    ensures starts[target] - e.position < interval
  {
    IndexShape(starts, k, interval);
    var index := IndexUpTo(starts, k, interval);
    assert index[0].relOffset <= target;
    if target == k - 1 {
      LastEntryIsClose(starts, k, interval);
      assert e == index[|index| - 1] by {
        assert index[|index| - 1].relOffset <= target;
      }
    } else {
      var prev := IndexUpTo(starts, k - 1, interval);
      EntrySurvives(prev, index, k, target, e);
      LookupIsClose(starts, k - 1, interval, target, e);
    }
  }

  lemma LastEntryIsClose(starts: seq<nat>, k: nat, interval: int)
    requires interval > 0 && 0 < k <= |starts|
    ensures var index := IndexUpTo(starts, k, interval);
            index != [] && starts[k - 1] - index[|index| - 1].position < interval
  {
    IndexShape(starts, k, interval);
    if k > 1 {
      IndexShape(starts, k - 1, interval);
    }
  }

  lemma EntrySurvives(prev: seq<IndexEntry>, index: seq<IndexEntry>, k: nat, target: int, e: IndexEntry)
    requires target < k - 1
    requires index == prev || exists x :: index == prev + [x] && x.relOffset == k - 1
    requires IsEntryBelow(index, target, e)
    ensures IsEntryBelow(prev, target, e)
  {
    var i :| 0 <= i < |index| && index[i] == e && e.relOffset <= target
             && forall j | i < j < |index| :: index[j].relOffset > target;
    assert i < |prev| && prev[i] == e;
    assert forall j | i < j < |prev| :: prev[j] == index[j];
  }
}
