/** Bytes, fixed-width big-endian integers and the in-place buffer writes the record codec uses. */
module Bytes {

  type byte = x: int | 0 <= x < 256

  function Pow256(width: nat): (p: nat)
    ensures p > 0
  {
    if width == 0 then 1 else 256 * Pow256(width - 1)
  }

  lemma Pow256Values()
    ensures Pow256(4) == 0x1_0000_0000
    ensures Pow256(8) == 0x1_0000_0000_0000_0000
  {
    assert Pow256(2) == 0x1_0000;
    assert Pow256(3) == 0x100_0000;
    assert Pow256(4) == 0x1_0000_0000;
    assert Pow256(5) == 0x100_0000_0000;
    assert Pow256(6) == 0x1_0000_0000_0000;
    assert Pow256(7) == 0x100_0000_0000_0000;
  }

  /** The low `width` bytes of v, most significant first; larger values lose their high bytes. */
  function BigEndian(v: nat, width: nat): (s: seq<byte>)
    ensures |s| == width
  {
    if width == 0 then [] else BigEndian(v / 256, width - 1) + [v % 256]
  }

  function FromBigEndian(s: seq<byte>): nat
  {
    if s == [] then 0 else 256 * FromBigEndian(s[..|s| - 1]) + s[|s| - 1]
  }

  lemma {:induction false} FromBigEndianBound(s: seq<byte>)
    ensures FromBigEndian(s) < Pow256(|s|)
  {
    if s != [] {
      FromBigEndianBound(s[..|s| - 1]);
    }
  }

  lemma {:induction false} ReadBackWritten(v: nat, width: nat)
    requires v < Pow256(width)
    ensures FromBigEndian(BigEndian(v, width)) == v
  {
    if width != 0 {
      var high := v / 256;
      ReadBackWritten(high, width - 1);
      ReadBackLast(BigEndian(high, width - 1), v % 256);
    }
  }

  lemma ReadBackLast(front: seq<byte>, last: byte)
    ensures FromBigEndian(front + [last]) == 256 * FromBigEndian(front) + last
  {
    assert (front + [last])[..|front|] == front;
  }

  lemma {:induction false} WriteBackRead(s: seq<byte>)
    ensures BigEndian(FromBigEndian(s), |s|) == s
  {
    if s != [] {
      var front := s[..|s| - 1];
      WriteBackRead(front);
      assert FromBigEndian(s) / 256 == FromBigEndian(front);
      assert FromBigEndian(s) % 256 == s[|s| - 1];
    }
  }

  /** v without its last n bytes. */
  function Shifted(v: nat, n: nat): nat {
    if n == 0 then v else Shifted(v / 256, n - 1)
  }

  /** The first bytes of a number are the number without its last ones. */
  lemma {:induction false} BigEndianPrefix(v: nat, width: nat, k: nat)
    requires k <= width
    ensures BigEndian(v, width)[..k] == BigEndian(Shifted(v, width - k), k)
  {
    if k < width {
      BigEndianPrefix(v / 256, width - 1, k);
      assert BigEndian(v, width)[..k] == BigEndian(v / 256, width - 1)[..k];
    }
  }

  /** The numbers with given first bytes are an interval. */
  lemma {:induction false} ShiftedInterval(v: nat, n: nat, x: nat)
    ensures Shifted(v, n) == x <==> x * Pow256(n) <= v < (x + 1) * Pow256(n)
  {
    hide Pow256, Shifted;
    if n > 0 {
      ShiftedInterval(v / 256, n - 1, x);
      Scaled(x, n);
      Scaled(x + 1, n);
      QuotientBetween(v, x * Pow256(n - 1), (x + 1) * Pow256(n - 1));
      ShiftedStep(v, n);
    } else {
      NotShifted(v);
    }
  }

  lemma ShiftedStep(v: nat, n: nat)
    requires n > 0
    ensures Shifted(v, n) == Shifted(v / 256, n - 1)
  {
  }

  lemma NotShifted(v: nat)
    ensures Shifted(v, 0) == v && Pow256(0) == 1
  {
  }

  lemma Scaled(x: nat, n: nat)
    requires n > 0
    ensures x * Pow256(n) == 256 * (x * Pow256(n - 1))
  {
    var p := Pow256(n - 1);
    assert Pow256(n) == 256 * p;
    Reassociate(x, p);
  }

  lemma Reassociate(x: nat, p: nat)
    ensures x * (256 * p) == 256 * (x * p)
  {
  }

  lemma QuotientBetween(v: nat, a: nat, b: nat)
    ensures a <= v / 256 < b <==> 256 * a <= v < 256 * b
  {
  }

  /** The first bytes of a fixed-width number can be completed to one between lo and hi. */
  predicate Completable(bytes: seq<byte>, width: nat, lo: nat, hi: nat) {
    |bytes| <= width &&
    var rest := Pow256(width - |bytes|);
    FromBigEndian(bytes) * rest <= hi && lo < (FromBigEndian(bytes) + 1) * rest
  }

  lemma StartsNumber(bytes: seq<byte>, width: nat, v: nat)
    requires |bytes| <= width && v < Pow256(width)
    ensures bytes <= BigEndian(v, width) <==> Shifted(v, width - |bytes|) == FromBigEndian(bytes)
  {
    hide Pow256, Shifted, BigEndian, FromBigEndian;
    var k := |bytes|;
    BigEndianPrefix(v, width, k);
    WriteBackRead(bytes);
    ShiftedBound(v, width - k, k);
    ReadBackWritten(Shifted(v, width - k), k);
    var all := BigEndian(v, width);
    assert bytes <= all <==> all[..k] == bytes;
  }

  lemma {:induction false} ShiftedBound(v: nat, n: nat, k: nat)
    requires v < Pow256(n + k)
    ensures Shifted(v, n) < Pow256(k)
  {
    if n > 0 {
      ShiftedBound(v / 256, n - 1, k);
    }
  }

  /** Exactly the completable bytes start a number in the interval. */
  lemma CompletableIff(bytes: seq<byte>, width: nat, lo: nat, hi: nat)
    requires |bytes| <= width && lo <= hi < Pow256(width)
    ensures Completable(bytes, width, lo, hi) <==> exists v | lo <= v <= hi :: bytes <= BigEndian(v, width)
  {
    hide Shifted, BigEndian, FromBigEndian, Pow256;
    var x, n := FromBigEndian(bytes), width - |bytes|;
    if Completable(bytes, width, lo, hi) {
      var v := if x * Pow256(n) < lo then lo else x * Pow256(n);
      assert x * Pow256(n) < (x + 1) * Pow256(n);
      ShiftedInterval(v, n, x);
      StartsNumber(bytes, width, v);
    }
    if v :| lo <= v <= hi && bytes <= BigEndian(v, width) {
      StartsNumber(bytes, width, v);
      ShiftedInterval(v, n, x);
    }
  }

  lemma DropTake<T>(s: seq<T>, i: nat, n: nat)
    requires i + n <= |s|
    ensures s[i..][..n] == s[i..i + n]
  {
  }

  lemma SliceSnoc<T>(s: seq<T>, i: nat, j: nat)
    requires i <= j <= |s|
    ensures s[..i] + s[i..j] == s[..j]
  {
  }

  lemma ConcatAssoc<T>(a: seq<T>, b: seq<T>, c: seq<T>)
    ensures a + b + c == a + (b + c)
  {
  }

  lemma PrefixExtends<T>(a: seq<T>, g: seq<T>, b: seq<T>)
    requires a <= g && g[|a|..] <= b
    ensures g <= a + b
  {
    assert g == a + g[|a|..];
  }

  /** Copies src into buf starting at pos. */
  method CopyInto(buf: array<byte>, pos: nat, src: seq<byte>)
    requires pos + |src| <= buf.Length
    modifies buf
    ensures buf[..pos + |src|] == old(buf[..pos]) + src
    ensures buf[pos + |src|..] == old(buf[pos + |src|..])
  {
    var i := 0;
    while i < |src|
      invariant 0 <= i <= |src|
      invariant buf[..pos + i] == old(buf[..pos]) + src[..i]
      invariant buf[pos + |src|..] == old(buf[pos + |src|..])
    {
      buf[pos + i] := src[i];
      i := i + 1;
    }
  }

  /** Stores the low `width` bytes of v at pos, most significant byte first. */
  method PutBigEndian(buf: array<byte>, pos: nat, width: nat, v: nat)
    requires pos + width <= buf.Length
    modifies buf
    ensures buf[..pos + width] == old(buf[..pos]) + BigEndian(v, width)
    ensures buf[pos + width..] == old(buf[pos + width..])
  {
    var rest := v;
    var k := width;
    ghost var was := buf[..];
    while k > 0
      invariant 0 <= k <= width && 0 <= rest
      invariant BigEndian(v, width) == BigEndian(rest, k) + buf[pos + k..pos + width]
      invariant buf[..pos + k] == was[..pos + k]
      invariant buf[pos + width..] == was[pos + width..]
    {
      k := k - 1;
      buf[pos + k] := rest % 256;
      rest := rest / 256;
      assert buf[pos + k..pos + width] == [buf[pos + k]] + buf[pos + k + 1..pos + width];
    }
  }
}
