/** Runs of frames laid end to end, as a segment file holds them. */
module FrameRuns {
  import opened Bytes
  import opened Records

  function Frames(recs: seq<Record>): seq<byte> {
    if recs == [] then [] else Frames(recs[..|recs| - 1]) + Frame(recs[|recs| - 1])
  }

  /** Where record k's frame starts; for k == |recs|, where the next one will. */
  function FramePos(recs: seq<Record>, k: nat): nat
    requires k <= |recs|
  {
    |Frames(recs[..k])|
  }

  /** The starts of all the frames, and of the one to come. */
  function FrameStarts(recs: seq<Record>): (starts: seq<nat>)
    ensures |starts| == |recs| + 1
    ensures forall k | 0 <= k <= |recs| :: starts[k] == FramePos(recs, k)
  {
    seq(|recs| + 1, k requires 0 <= k <= |recs| => FramePos(recs, k))
  }

  /** Records a segment file can hold: each fits a frame, and offsets are implicit, the segment's
      base plus the record's ordinal. */
  ghost predicate Run(recs: seq<Record>, base: int) {
    forall i | 0 <= i < |recs| :: Encodable(recs[i]) && recs[i].offset == base + i
  }

  lemma RunCons(r: Record, recs: seq<Record>, base: int)
    ensures Run([r] + recs, base) <==> Encodable(r) && r.offset == base && Run(recs, base + 1)
  {
    var all := [r] + recs;
    if Run(all, base) {
      assert all[0] == r;
      forall i | 0 <= i < |recs|
        ensures Encodable(recs[i]) && recs[i].offset == base + 1 + i
      {
        assert all[i + 1] == recs[i];
      }
    }
  }

  lemma RunConcat(a: seq<Record>, b: seq<Record>, base: int)
    ensures Run(a + b, base) <==> Run(a, base) && Run(b, base + |a|)
  {
    var all := a + b;
    if Run(all, base) {
      forall i | 0 <= i < |a|
        ensures Encodable(a[i]) && a[i].offset == base + i
      {
        assert all[i] == a[i];
      }
      forall i | 0 <= i < |b|
        ensures Encodable(b[i]) && b[i].offset == base + |a| + i
      {
        assert all[|a| + i] == b[i];
      }
    }
  }

  lemma RunSnoc(recs: seq<Record>, r: Record, base: int)
    ensures Run(recs + [r], base) <==> Run(recs, base) && Encodable(r) && r.offset == base + |recs|
  {
    RunConcat(recs, [r], base);
    assert [r][0] == r;
  }

  lemma RunSplit(recs: seq<Record>, k: nat, base: int)
    requires k <= |recs|
    ensures Run(recs, base) <==> Run(recs[..k], base) && Run(recs[k..], base + k)
  {
    assert recs == recs[..k] + recs[k..];
    RunConcat(recs[..k], recs[k..], base);
  }

  lemma {:induction false} FramesConcat(a: seq<Record>, b: seq<Record>)
    ensures Frames(a + b) == Frames(a) + Frames(b)
  {
    hide Frame;
    if b == [] {
      assert a + b == a;
    } else {
      var front, last := b[..|b| - 1], b[|b| - 1];
      assert (a + b)[..|a + b| - 1] == a + front;
      FramesConcat(a, front);
      ConcatAssoc(Frames(a), Frames(front), Frame(last));
    }
  }

  lemma FramesOfOne(r: Record)
    ensures Frames([r]) == Frame(r)
  {
    hide Frame;
    assert [r][..0] == [];
    assert [] + Frame(r) == Frame(r);
  }

  lemma FramesCons(recs: seq<Record>)
    requires recs != []
    ensures Frames(recs) == Frame(recs[0]) + Frames(recs[1..])
  {
    hide Frame;
    assert recs == [recs[0]] + recs[1..];
    FramesConcat([recs[0]], recs[1..]);
    FramesOfOne(recs[0]);
  }

  lemma FramesSnoc(recs: seq<Record>, r: Record)
    ensures Frames(recs + [r]) == Frames(recs) + Frame(r)
  {
    hide Frame;
    assert (recs + [r])[..|recs|] == recs;
  }

  lemma FramesSplit(recs: seq<Record>, k: nat)
    requires k <= |recs|
    ensures Frames(recs) == Frames(recs[..k]) + Frames(recs[k..])
  {
    hide Frame, Frames;
    assert recs == recs[..k] + recs[k..];
    FramesConcat(recs[..k], recs[k..]);
  }

  lemma {:induction false} FramePosSteps(recs: seq<Record>, i: nat, j: nat)
    requires i <= j <= |recs|
    ensures FramePos(recs, j) - FramePos(recs, i) >= 21 * (j - i)
  {
    hide Frame, Frames;
    if i < j {
      FramePosSteps(recs, i, j - 1);
      FramePosNext(recs, j - 1);
      assert 21 * (j - i) == 21 * (j - 1 - i) + 21;
    }
  }

  lemma FramePosNext(recs: seq<Record>, k: nat)
    requires k < |recs|
    ensures FramePos(recs, k + 1) == FramePos(recs, k) + |Frame(recs[k])| && |Frame(recs[k])| >= 21
  {
    hide Frames;
    FramesSnoc(recs[..k], recs[k]);
    assert recs[..k + 1] == recs[..k] + [recs[k]];
  }

  lemma FramePosOfPrefix(recs: seq<Record>, c: nat)
    requires c <= |recs|
    ensures forall j | 0 <= j <= c :: FramePos(recs[..c], j) == FramePos(recs, j)
  {
    hide Frames;
    assert forall j | 0 <= j <= c :: recs[..c][..j] == recs[..j];
  }

  lemma FramePosOfMore(recs: seq<Record>, r: Record)
    ensures forall j | 0 <= j <= |recs| :: FramePos(recs + [r], j) == FramePos(recs, j)
    ensures FramePos(recs, |recs|) == |Frames(recs)|
    ensures FramePos(recs + [r], |recs| + 1) == |Frames(recs)| + |Frame(r)|
  {
    hide Frame;
    FramePosOfPrefix(recs + [r], |recs|);
    assert (recs + [r])[..|recs|] == recs && recs[..|recs|] == recs;
    assert (recs + [r])[..|recs| + 1] == recs + [r];
    FramesSnoc(recs, r);
  }

  lemma FramePosMonotone(recs: seq<Record>, i: nat, j: nat)
    requires i <= j <= |recs|
    ensures FramePos(recs, i) <= FramePos(recs, j)
  {
    hide Frames, Frame;
    FramePosSteps(recs, i, j);
  }
}
