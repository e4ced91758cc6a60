/** The v1 record frame: a bounded binary codec with clean, torn and malformed outcomes. */
module Records {
  import opened Bytes

  const MAGIC: byte := 1
  const FRAME_PREFIX := 5
  const MIN_BODY_BYTES := 16
  const MAX_RECORD_BYTES := 0x10_0000
  const MAX_INT64 := 0x7fff_ffff_ffff_ffff

  type Int64 = x: int | -0x8000_0000_0000_0000 <= x < 0x8000_0000_0000_0000

  /** An offset is a record's position in its partition; it is never written into the frame. */
  datatype Record = Record(offset: int, timestampNs: Int64, key: seq<byte>, value: seq<byte>)

  datatype Encoded = Encoded(frame: seq<byte>) | RecordTooLarge

  /** What one decode attempt finds; n is the number of bytes it consumed, also when it fails. */
  datatype Decoded =
    | Good(record: Record, n: nat)
    | CleanEnd
    | Torn(n: nat)
    | Corrupt(n: nat)
    | TooLarge(n: nat)

  // ----- specification -----

  function AsUint64(v: Int64): nat {
    if v < 0 then v + 0x1_0000_0000_0000_0000 else v
  }

  function AsInt64(v: nat): Int64
    requires v < 0x1_0000_0000_0000_0000
  {
    if v < 0x8000_0000_0000_0000 then v else v - 0x1_0000_0000_0000_0000
  }

  predicate Encodable(r: Record) {
    |r.key| + |r.value| <= MAX_RECORD_BYTES - FRAME_PREFIX - MIN_BODY_BYTES
  }

  function BodyLen(r: Record): nat {
    MIN_BODY_BYTES + |r.key| + |r.value|
  }

  function Body(r: Record): (s: seq<byte>)
    ensures |s| == BodyLen(r)
  {
    BigEndian(AsUint64(r.timestampNs), 8) + BigEndian(|r.key|, 4) + r.key + BigEndian(|r.value|, 4) + r.value
  }

  function Frame(r: Record): (s: seq<byte>)
    ensures |s| == FRAME_PREFIX + BodyLen(r)
  {
    [MAGIC] + BigEndian(BodyLen(r), 4) + Body(r)
  }

  function Decode(s: seq<byte>, offset: int): Decoded {
    if s == [] then CleanEnd
    else if |s| < FRAME_PREFIX then Torn(|s|)
    else if s[0] != MAGIC then Corrupt(FRAME_PREFIX)
    else
      var bodyLen := FromBigEndian(s[1..5]);
      if bodyLen < MIN_BODY_BYTES then Corrupt(FRAME_PREFIX)
      else if bodyLen > MAX_RECORD_BYTES - FRAME_PREFIX then TooLarge(FRAME_PREFIX)
      else if |s| < FRAME_PREFIX + bodyLen then Torn(|s|)
      else DecodeBody(s[5..5 + bodyLen], offset)
  }

  /** The field checks on a complete body. */
  function DecodeBody(body: seq<byte>, offset: int): Decoded
    requires MIN_BODY_BYTES <= |body|
  {
    var keyLen := FromBigEndian(body[8..12]);
    if keyLen > |body| - MIN_BODY_BYTES then Corrupt(FRAME_PREFIX + |body|)
    else if FromBigEndian(body[12 + keyLen..16 + keyLen]) != |body| - MIN_BODY_BYTES - keyLen
    then Corrupt(FRAME_PREFIX + |body|)
    else Good(RecordIn(body, keyLen, offset), FRAME_PREFIX + |body|)
  }

  function RecordIn(body: seq<byte>, keyLen: nat, offset: int): Record
    requires MIN_BODY_BYTES + keyLen <= |body|
  {
    FromBigEndianBound(body[..8]);
    Pow256Values();
    Record(offset, AsInt64(FromBigEndian(body[..8])), body[12..12 + keyLen], body[16 + keyLen..])
  }

  // ----- the codec is a bijection -----

  lemma FrameHeader(r: Record, rest: seq<byte>)
    requires Encodable(r)
    ensures var s := Frame(r) + rest;
            && s[0] == MAGIC
            && s[1..5] == BigEndian(BodyLen(r), 4)
            && FromBigEndian(s[1..5]) == BodyLen(r)
            && s[5..5 + BodyLen(r)] == Body(r)
  {
    Pow256Values();
    ReadBackWritten(BodyLen(r), 4);
    var s := Frame(r) + rest;
    assert s[1..5] == BigEndian(BodyLen(r), 4);
  }

  lemma DecodeOfBody(r: Record, offset: int)
    requires Encodable(r)
    ensures DecodeBody(Body(r), offset) == Good(r.(offset := offset), |Frame(r)|)
  {
    var b, k := Body(r), |r.key|;
    assert b[..8] == BigEndian(AsUint64(r.timestampNs), 8);
    assert b[8..12] == BigEndian(k, 4);
    assert b[12..12 + k] == r.key;
    assert b[12 + k..16 + k] == BigEndian(|r.value|, 4);
    assert b[16 + k..] == r.value;
    Pow256Values();
    ReadBackWritten(AsUint64(r.timestampNs), 8);
    ReadBackWritten(k, 4);
    ReadBackWritten(|r.value|, 4);
  }

  lemma NothingLeft(offset: int)
    ensures Decode([], offset) == CleanEnd
  {
  }

  /** Decoding a frame followed by anything returns the record and consumes exactly the frame. */
  lemma DecodeOfFrame(r: Record, rest: seq<byte>, offset: int)
    requires Encodable(r)
    ensures Decode(Frame(r) + rest, offset) == Good(r.(offset := offset), |Frame(r)|)
  {
    FrameHeader(r, rest);
    DecodeOfBody(r, offset);
  }

  lemma DecodedIsBody(body: seq<byte>, offset: int)
    requires MIN_BODY_BYTES <= |body| && DecodeBody(body, offset).Good?
    ensures var d := DecodeBody(body, offset);
            Body(d.record) == body && d.record.offset == offset && d.n == FRAME_PREFIX + |body|
  {
    var d := DecodeBody(body, offset);
    var k := |d.record.key|;
    FromBigEndianBound(body[..8]);
    Pow256Values();
    WriteBackRead(body[..8]);
    WriteBackRead(body[8..12]);
    WriteBackRead(body[12 + k..16 + k]);
    assert AsUint64(d.record.timestampNs) == FromBigEndian(body[..8]);
    BodyParts(body, k);
  }

  lemma BodyParts(body: seq<byte>, k: nat)
    requires 16 + k <= |body|
    ensures body[..8] + body[8..12] + body[12..12 + k] + body[12 + k..16 + k] + body[16 + k..] == body
  {
    SliceSnoc(body, 8, 12);
    SliceSnoc(body, 12, 12 + k);
    SliceSnoc(body, 12 + k, 16 + k);
    SliceSnoc(body, 16 + k, |body|);
    assert body[16 + k..|body|] == body[16 + k..] && body[..|body|] == body;
  }

  /** Whatever decodes is a frame: re-encoding the result gives back exactly the consumed bytes. */
  lemma DecodedIsFrame(s: seq<byte>, offset: int)
    requires Decode(s, offset).Good?
    ensures var d := Decode(s, offset);
            && Encodable(d.record) && d.record.offset == offset
            && FRAME_PREFIX + MIN_BODY_BYTES <= d.n <= MAX_RECORD_BYTES && d.n <= |s|
            && s[..d.n] == Frame(d.record)
  {
    var d := Decode(s, offset);
    var bodyLen := FromBigEndian(s[1..5]);
    DecodedIsBody(s[5..5 + bodyLen], offset);
    WriteBackRead(s[1..5]);
    assert s[..d.n] == [s[0]] + s[1..5] + s[5..d.n];
  }

  /** Every nonempty strict prefix of a frame is torn, with all its bytes consumed. */
  lemma StrictPrefixIsTorn(r: Record, cut: nat, offset: int)
    requires Encodable(r) && 0 < cut < |Frame(r)|
    ensures Decode(Frame(r)[..cut], offset) == Torn(cut)
  {
    FrameHeader(r, []);
    assert Frame(r) + [] == Frame(r);
    var s := Frame(r)[..cut];
    if cut >= FRAME_PREFIX {
      assert s[1..5] == Frame(r)[1..5];
    }
  }

  /** What has been received of the bytes from `from` to `to`. */
  function Received(s: seq<byte>, from: nat, to: nat): seq<byte>
    requires from <= to
  {
    if |s| <= from then [] else if |s| <= to then s[from..] else s[from..to]
  }

  /** As far as the bytes received tell, the magic and the three lengths are those of some frame. */
  predicate LengthsAgree(s: seq<byte>) {
    && (|s| > 0 ==> s[0] == MAGIC)
    && Completable(Received(s, 1, 5), 4, MIN_BODY_BYTES, MAX_RECORD_BYTES - FRAME_PREFIX)
    && (|s| > 13 ==>
          var bodyLen := FromBigEndian(s[1..5]);
          && MIN_BODY_BYTES <= bodyLen && Completable(Received(s, 13, 17), 4, 0, bodyLen - MIN_BODY_BYTES)
          && (|s| > 17 ==>
                var keyLen := FromBigEndian(s[13..17]);
                && keyLen <= bodyLen - MIN_BODY_BYTES
                && Received(s, 17 + keyLen, 21 + keyLen) <= BigEndian(bodyLen - MIN_BODY_BYTES - keyLen, 4)))
  }

  /** A torn input is the start of a frame exactly when its lengths agree. */
  lemma TornStartsAFrameIff(s: seq<byte>, offset: int)
    requires Decode(s, offset).Torn?
    ensures (exists r :: Encodable(r) && s <= Frame(r)) <==> LengthsAgree(s)
  {
    hide Frame, LengthsAgree, Decode;
    if LengthsAgree(s) {
      var r := Completion(s, offset);
    }
    if r :| Encodable(r) && s <= Frame(r) {
      FrameLengthsAgree(s, r);
    }
  }

  /** The converse fails: too short a header is torn before its first byte is looked at. */
  lemma TornNeedNotBeAFramePrefix()
    ensures exists s: seq<byte> :: Decode(s, 0) == Torn(|s|) && forall r | Encodable(r) :: !(s <= Frame(r))
  {
    hide Frame;
    var s: seq<byte> := [MAGIC + 1];
    TornStartsAFrameIff(s, 0);
    assert Decode(s, 0) == Torn(|s|);
  }

  lemma FrameLengthsAgree(s: seq<byte>, r: Record)
    requires Encodable(r) && s <= Frame(r)
    ensures LengthsAgree(s)
  {
    hide Completable, BigEndian, FromBigEndian, Received, Frame;
    BodyLenFits(r);
    FrameFields(r);
    LengthStarts(s, r, 1, BodyLen(r), MIN_BODY_BYTES, MAX_RECORD_BYTES - FRAME_PREFIX);
    LengthStarts(s, r, 13, |r.key|, 0, BodyLen(r) - MIN_BODY_BYTES);
    ReceivedStart(s, Frame(r), 17 + |r.key|, 21 + |r.key|);
  }

  lemma BodyLenFits(r: Record)
    requires Encodable(r)
    ensures MIN_BODY_BYTES <= BodyLen(r) <= MAX_RECORD_BYTES - FRAME_PREFIX && |r.key| <= BodyLen(r) - MIN_BODY_BYTES
  {
  }

  /** One length field of a frame, as far as it has been received. */
  lemma LengthStarts(s: seq<byte>, r: Record, at: nat, v: nat, lo: nat, hi: nat)
    requires s <= Frame(r) && at + 4 <= |Frame(r)| && Frame(r)[at..at + 4] == BigEndian(v, 4)
    requires lo <= v <= hi <= MAX_RECORD_BYTES
    ensures Completable(Received(s, at, at + 4), 4, lo, hi)
    ensures |s| >= at + 4 ==> FromBigEndian(s[at..at + 4]) == v
  {
    hide Completable, BigEndian, FromBigEndian, Frame;
    Pow256Values();
    ReadBackWritten(v, 4);
    CompletableIff(Received(s, at, at + 4), 4, lo, hi);
    ReceivedStart(s, Frame(r), at, at + 4);
  }

  lemma ReceivedStart(s: seq<byte>, f: seq<byte>, from: nat, to: nat)
    requires s <= f && from <= to <= |f|
    ensures Received(s, from, to) <= f[from..to]
    ensures |s| >= to ==> s[from..to] == f[from..to]
  {
  }

  lemma FrameFields(r: Record)
    requires Encodable(r)
    ensures var s, k := Frame(r), |r.key|;
            && s[0] == MAGIC && s[1..5] == BigEndian(BodyLen(r), 4)
            && s[13..17] == BigEndian(k, 4) && s[17 + k..21 + k] == BigEndian(|r.value|, 4)
  {
    hide BigEndian;
    FrameHeader(r, []);
    var s, b, k := Frame(r), Body(r), |r.key|;
    assert s + [] == s;
    assert s[13..17] == b[8..12] && b[8..12] == BigEndian(k, 4);
    assert s[17 + k..21 + k] == b[12 + k..16 + k] && b[12 + k..16 + k] == BigEndian(|r.value|, 4);
  }

  /** Fills torn bytes up to a whole frame. */
  lemma Completion(s: seq<byte>, offset: int) returns (r: Record)
    requires Decode(s, offset).Torn? && LengthsAgree(s)
    ensures Encodable(r) && s <= Frame(r)
  {
    hide Completable, BigEndian, FromBigEndian, Frame;
    var bodyLen, keyLen := TwoLengths(s, offset);
    var filler := FillerFrame(bodyLen, keyLen);
    var whole := s + filler[|s|..];
    FilledFields(s, filler, whole, 1, 5);
    FilledFields(s, filler, whole, 13, 17);
    FilledFields(s, filler, whole, 17 + keyLen, 21 + keyLen);
    r := WholeFrame(whole, bodyLen, keyLen);
  }

  /** The lengths that complete those received. */
  lemma TwoLengths(s: seq<byte>, offset: int) returns (bodyLen: nat, keyLen: nat)
    requires Decode(s, offset).Torn? && LengthsAgree(s)
    ensures MIN_BODY_BYTES <= bodyLen <= MAX_RECORD_BYTES - FRAME_PREFIX && keyLen <= bodyLen - MIN_BODY_BYTES
    ensures |s| < FRAME_PREFIX + bodyLen && s[0] == MAGIC
    ensures Received(s, 1, 5) <= BigEndian(bodyLen, 4)
    ensures Received(s, 13, 17) <= BigEndian(keyLen, 4)
    ensures Received(s, 17 + keyLen, 21 + keyLen) <= BigEndian(bodyLen - MIN_BODY_BYTES - keyLen, 4)
  {
    hide Completable, BigEndian, FromBigEndian;
    Pow256Values();
    CompletableIff(Received(s, 1, 5), 4, MIN_BODY_BYTES, MAX_RECORD_BYTES - FRAME_PREFIX);
    bodyLen :| MIN_BODY_BYTES <= bodyLen <= MAX_RECORD_BYTES - FRAME_PREFIX
        && Received(s, 1, 5) <= BigEndian(bodyLen, 4);
    ReadBackWritten(bodyLen, 4);
    keyLen := 0;
    if |s| > 13 {
      assert s[1..5] == BigEndian(bodyLen, 4);
      CompletableIff(Received(s, 13, 17), 4, 0, bodyLen - MIN_BODY_BYTES);
      keyLen :| 0 <= keyLen <= bodyLen - MIN_BODY_BYTES && Received(s, 13, 17) <= BigEndian(keyLen, 4);
      ReadBackWritten(keyLen, 4);
      if |s| > 17 {
        assert s[13..17] == BigEndian(keyLen, 4);
      }
    }
  }

  /** Any bytes around the right lengths. */
  function FillerFrame(bodyLen: nat, keyLen: nat): (f: seq<byte>)
    requires keyLen + MIN_BODY_BYTES <= bodyLen
    ensures |f| == FRAME_PREFIX + bodyLen && f[0] == MAGIC
    ensures f[1..5] == BigEndian(bodyLen, 4) && f[13..17] == BigEndian(keyLen, 4)
    ensures f[17 + keyLen..21 + keyLen] == BigEndian(bodyLen - MIN_BODY_BYTES - keyLen, 4)
  {
    hide BigEndian;
    var valueLen := bodyLen - MIN_BODY_BYTES - keyLen;
    [MAGIC] + BigEndian(bodyLen, 4) + Zeros(8) + BigEndian(keyLen, 4) + Zeros(keyLen) + BigEndian(valueLen, 4)
        + Zeros(valueLen)
  }

  function Zeros(n: nat): (s: seq<byte>)
    ensures |s| == n
  {
    seq(n, _ => 0)
  }

  lemma FilledFields(s: seq<byte>, filler: seq<byte>, whole: seq<byte>, from: nat, to: nat)
    requires |s| <= |filler| && whole == s + filler[|s|..] && from <= to <= |filler|
    requires Received(s, from, to) <= filler[from..to]
    ensures whole[from..to] == filler[from..to]
  {
    forall i | from <= i < to
      ensures whole[i] == filler[i]
    {
      if i < |s| {
        assert Received(s, from, to)[i - from] == s[i] && filler[from..to][i - from] == filler[i];
      }
    }
  }

  lemma WholeFrame(whole: seq<byte>, bodyLen: nat, keyLen: nat) returns (r: Record)
    requires MIN_BODY_BYTES + keyLen <= bodyLen <= MAX_RECORD_BYTES - FRAME_PREFIX
    requires |whole| == FRAME_PREFIX + bodyLen && whole[0] == MAGIC
    requires whole[1..5] == BigEndian(bodyLen, 4) && whole[13..17] == BigEndian(keyLen, 4)
    requires whole[17 + keyLen..21 + keyLen] == BigEndian(bodyLen - MIN_BODY_BYTES - keyLen, 4)
    ensures Encodable(r) && Frame(r) == whole
  {
    hide BigEndian, FromBigEndian, Frame;
    Pow256Values();
    ReadBackWritten(bodyLen, 4);
    ReadBackWritten(keyLen, 4);
    ReadBackWritten(bodyLen - MIN_BODY_BYTES - keyLen, 4);
    var body := whole[5..];
    assert whole[5..5 + bodyLen] == body;
    assert body[8..12] == whole[13..17] && body[12 + keyLen..16 + keyLen] == whole[17 + keyLen..21 + keyLen];
    DecodedIsFrame(whole, 0);
    r := Decode(whole, 0).record;
    assert whole[..|whole|] == whole;
  }

  // ----- the frame, byte by byte -----

  /** Four bytes as a number, the most significant first. */
  function Uint32At(s: seq<byte>, at: nat): nat
    requires at + 4 <= |s|
  {
    s[at] as int * 0x100_0000 + s[at + 1] as int * 0x1_0000 + s[at + 2] as int * 0x100 + s[at + 3] as int
  }

  lemma FourBytes(s: seq<byte>, at: nat)
    requires at + 4 <= |s|
    ensures FromBigEndian(s[at..at + 4]) == Uint32At(s, at)
  {
    hide FromBigEndian;
    NoBytes();
    ReadBackLast([], s[at]);
    assert [] + [s[at]] == [s[at]];
    ReadBackLast([s[at]], s[at + 1]);
    assert [s[at]] + [s[at + 1]] == [s[at], s[at + 1]];
    ReadBackLast([s[at], s[at + 1]], s[at + 2]);
    assert [s[at], s[at + 1]] + [s[at + 2]] == [s[at], s[at + 1], s[at + 2]];
    ReadBackLast([s[at], s[at + 1], s[at + 2]], s[at + 3]);
    assert s[at..at + 4] == [s[at], s[at + 1], s[at + 2]] + [s[at + 3]];
  }

  lemma NoBytes()
    ensures FromBigEndian([]) == 0
  {
  }

  /** Where the fields of a frame lie. */
  lemma FrameLayout(r: Record)
    requires Encodable(r)
    ensures var s, k := Frame(r), |r.key|;
            && |s| == 21 + k + |r.value| && s[0] == 1 && Uint32At(s, 1) == 16 + k + |r.value|
            && Uint32At(s, 5) * 0x1_0000_0000 + Uint32At(s, 9)
               == (if r.timestampNs < 0 then r.timestampNs + 0x1_0000_0000_0000_0000 else r.timestampNs)
            && Uint32At(s, 13) == k && s[17..17 + k] == r.key
            && Uint32At(s, 17 + k) == |r.value| && s[21 + k..] == r.value
  {
    hide BigEndian, FromBigEndian;
    Pow256Values();
    var s, b, k := Frame(r), Body(r), |r.key|;
    FrameFields(r);
    FourBytes(s, 1);
    FourBytes(s, 13);
    FourBytes(s, 17 + k);
    ReadBackWritten(BodyLen(r), 4);
    ReadBackWritten(k, 4);
    ReadBackWritten(|r.value|, 4);
    assert s[5..13] == b[..8] && b[..8] == BigEndian(AsUint64(r.timestampNs), 8);
    ReadBackWritten(AsUint64(r.timestampNs), 8);
    EightBytes(s, 5);
    assert s[17..17 + k] == b[12..12 + k] && b[12..12 + k] == r.key;
    assert s[21 + k..] == b[16 + k..] && b[16 + k..] == r.value;
  }

  lemma EightBytes(s: seq<byte>, at: nat)
    requires at + 8 <= |s|
    ensures FromBigEndian(s[at..at + 8]) == Uint32At(s, at) * 0x1_0000_0000 + Uint32At(s, at + 4)
  {
    hide FromBigEndian;
    FourBytes(s, at);
    OneMoreByte(s, at, 5);
    OneMoreByte(s, at, 6);
    OneMoreByte(s, at, 7);
    OneMoreByte(s, at, 8);
  }

  lemma OneMoreByte(s: seq<byte>, at: nat, n: nat)
    requires n > 0 && at + n <= |s|
    ensures FromBigEndian(s[at..at + n]) == 256 * FromBigEndian(s[at..at + n - 1]) + s[at + n - 1]
  {
    hide FromBigEndian;
    ReadBackLast(s[at..at + n - 1], s[at + n - 1]);
    assert s[at..at + n] == s[at..at + n - 1] + [s[at + n - 1]];
  }

  /** Which bytes decode to what: nothing is a clean end; bytes that begin with a frame are good; fewer
      than a header, or than a good header announces, are torn; the rest is malformed. */
  lemma DecodeOutcomes(s: seq<byte>, offset: int)
    ensures var d := Decode(s, offset); var begins := exists r :: Encodable(r) && Frame(r) <= s;
            && (d.CleanEnd? <==> s == [])
            && (d.Good? <==> begins)
            && (|s| < 5 ==> s == [] || d == Torn(|s|))
            && (|s| >= 5 ==>
                  var len := Uint32At(s, 1);
                  && (d.TooLarge? <==> s[0] == 1 && len > 0x10_0000 - 5)
                  && (d.Torn? <==> s[0] == 1 && 16 <= len <= 0x10_0000 - 5 && |s| < 5 + len)
                  && (d.Torn? ==> d.n == |s|) && (d.TooLarge? ==> d.n == 5)
                  && (d.Corrupt? ==> d.n == if s[0] != 1 || len < 16 then 5 else 5 + len))
  {
    hide FromBigEndian, BigEndian, Frame;
    if |s| >= 5 {
      FourBytes(s, 1);
    }
    if Decode(s, offset).Good? {
      DecodedIsFrame(s, offset);
    }
    if r :| Encodable(r) && Frame(r) <= s {
      assert s == Frame(r) + s[|Frame(r)|..];
      DecodeOfFrame(r, s[|Frame(r)|..], offset);
    }
  }

  /** A verdict other than torn stands whatever bytes follow. */
  lemma VerdictIsFinal(s: seq<byte>, more: seq<byte>, offset: int)
    requires s != [] && !Decode(s, offset).Torn?
    ensures Decode(s + more, offset) == Decode(s, offset)
  {
    hide FromBigEndian, DecodeBody;
    if |s| >= 5 {
      assert (s + more)[1..5] == s[1..5];
      var bodyLen := FromBigEndian(s[1..5]);
      if MIN_BODY_BYTES <= bodyLen && 5 + bodyLen <= |s| {
        assert (s + more)[5..5 + bodyLen] == s[5..5 + bodyLen];
      }
    }
  }

  /** Torn bytes can still be decided by more of them. */
  lemma TornIsOpen(s: seq<byte>, offset: int)
    requires Decode(s, offset).Torn?
    ensures exists more :: !Decode(s + more, offset).Torn? && !Decode(s + more, offset).CleanEnd?
  {
    hide FromBigEndian;
    var more := Zeros(MAX_RECORD_BYTES);
    assert !Decode(s + more, offset).Torn?;
  }

  /** Two frames are equal only for records that agree on everything but the offset. */
  lemma FrameInjective(a: Record, b: Record)
    requires Encodable(a) && Encodable(b) && Frame(a) <= Frame(b)
    ensures a == b.(offset := a.offset)
  {
    var rest := Frame(b)[|Frame(a)|..];
    assert Frame(b) == Frame(a) + rest;
    assert Frame(b) == Frame(b) + [];
    DecodeOfFrame(a, rest, 0);
    DecodeOfFrame(b, [], 0);
  }

  // ----- the operations -----

  datatype ReadError = NoError | Eof | UnexpectedEof

  /** A forward reader over one section of a file's bytes. */
  class SectionReader {
    const data: seq<byte>
    var pos: nat

    constructor (data: seq<byte>)
      ensures this.data == data && pos == 0
    {
      this.data := data;
      pos := 0;
    }

    ghost predicate Valid()
      reads this
    {
      pos <= |data|
    }

    ghost function Rest(): seq<byte>
      requires Valid()
      reads this
    {
      data[pos..]
    }

    /** Fills a buffer of `want` bytes, or reports how far it got: nothing at all, or only a part. */
    method ReadFull(want: nat) returns (got: seq<byte>, err: ReadError)
      requires Valid() && want > 0
      modifies this
      ensures Valid() && pos == old(pos) + |got| && got == old(Rest())[..|got|]
      ensures Rest() == old(Rest())[|got|..]
      ensures |got| <= want && |got| <= |old(Rest())|
      ensures err == NoError <==> |got| == want
      ensures err == NoError <==> want <= |old(Rest())|
      ensures err == Eof <==> old(Rest()) == []
      ensures err == UnexpectedEof ==> |got| == |old(Rest())|
    {
      var n := if want <= |data| - pos then want else |data| - pos;
      got := data[pos..pos + n];
      pos := pos + n;
      err := if n == want then NoError else if n == 0 then Eof else UnexpectedEof;
    }
  }

  /** 32-bit unsigned subtraction, which wraps around. */
  function SubUint32(a: int, b: int): int {
    (a - b) % 0x1_0000_0000
  }

  /** The stages of a buffer filled field by field; the last one is the frame. */
  lemma FilledBuffer(r: Record, b1: seq<byte>, b2: seq<byte>, b3: seq<byte>, b4: seq<byte>, b5: seq<byte>,
                     b6: seq<byte>)
    requires b1 == [MAGIC] + BigEndian(BodyLen(r), 4)
    requires b2 == b1 + BigEndian(AsUint64(r.timestampNs), 8)
    requires b3 == b2 + BigEndian(|r.key|, 4)
    requires b4 == b3 + r.key
    requires b5 == b4 + BigEndian(|r.value|, 4)
    requires b6 == b5 + r.value
    ensures b6 == Frame(r)
  {
    var stamp, keyLen, valueLen := BigEndian(AsUint64(r.timestampNs), 8), BigEndian(|r.key|, 4),
        BigEndian(|r.value|, 4);
    ConcatAssoc(b1, stamp, keyLen);
    ConcatAssoc(b1, stamp + keyLen, r.key);
    ConcatAssoc(b1, stamp + keyLen + r.key, valueLen);
    ConcatAssoc(b1, stamp + keyLen + r.key + valueLen, r.value);
  }

  method EncodeRecord(r: Record) returns (res: Encoded)
    ensures res == if Encodable(r) then Encoded(Frame(r)) else RecordTooLarge
    ensures res.Encoded? <==> 21 + |r.key| + |r.value| <= 0x10_0000
    ensures res.Encoded? ==> |res.frame| == 21 + |r.key| + |r.value|
  {
    hide BigEndian, Frame, Body;
    if |r.key| > MAX_RECORD_BYTES || |r.value| > MAX_RECORD_BYTES
       || |r.key| + |r.value| > MAX_RECORD_BYTES - FRAME_PREFIX - MIN_BODY_BYTES {
      return RecordTooLarge;
    }
    var bodyLen := MIN_BODY_BYTES + |r.key| + |r.value|;
    var buf := new byte[FRAME_PREFIX + bodyLen];
    buf[0] := MAGIC;
    PutBigEndian(buf, 1, 4, bodyLen);
    ghost var b1 := buf[..5];
    PutBigEndian(buf, 5, 8, AsUint64(r.timestampNs));
    ghost var b2 := buf[..13];
    PutBigEndian(buf, 13, 4, |r.key|);
    ghost var b3 := buf[..17];
    CopyInto(buf, 17, r.key);
    var pos := 17 + |r.key|;
    ghost var b4 := buf[..pos];
    PutBigEndian(buf, pos, 4, |r.value|);
    ghost var b5 := buf[..pos + 4];
    CopyInto(buf, pos + 4, r.value);
    FilledBuffer(r, b1, b2, b3, b4, b5, buf[..pos + 4 + |r.value|]);
    var frame := buf[..];
    assert frame == buf[..pos + 4 + |r.value|];
    res := Encoded(frame);
  }

  lemma HeaderLength(s: seq<byte>, header: seq<byte>)
    requires |s| >= 5 && header == s[..5]
    ensures header[0] == s[0] && header[1..5] == s[1..5]
  {
  }

  method DecodeRecord(src: SectionReader, offset: int) returns (d: Decoded)
    requires src.Valid()
    modifies src
    ensures src.Valid() && d == Decode(old(src.Rest()), offset)
    ensures src.pos == old(src.pos) + (if d.CleanEnd? then 0 else d.n)
  {
    ghost var s := src.Rest();
    hide DecodeBody, FromBigEndian;
    var header, err := src.ReadFull(FRAME_PREFIX);
    if err != NoError {
      return if err == Eof then CleanEnd else Torn(|header|);
    }
    if header[0] != MAGIC {
      return Corrupt(FRAME_PREFIX);
    }
    HeaderLength(s, header);
    var bodyLen := FromBigEndian(header[1..5]);
    if bodyLen < MIN_BODY_BYTES {
      return Corrupt(FRAME_PREFIX);
    }
    if bodyLen > MAX_RECORD_BYTES - FRAME_PREFIX {
      return TooLarge(FRAME_PREFIX);
    }
    var body;
    body, err := src.ReadFull(bodyLen);
    if err != NoError {
      return Torn(FRAME_PREFIX + |body|);  // even no body byte at all is a partial frame
    }
    DropTake(s, 5, bodyLen);
    d := DecodeFields(body, offset);
  }

  method DecodeFields(body: seq<byte>, offset: int) returns (d: Decoded)
    requires MIN_BODY_BYTES <= |body| <= MAX_RECORD_BYTES - FRAME_PREFIX
    ensures d == DecodeBody(body, offset)
  {
    hide FromBigEndian, RecordIn;
    var bodyLen := |body|;
    var keyLen := FromBigEndian(body[8..12]);
    if keyLen > SubUint32(bodyLen, MIN_BODY_BYTES) {
      return Corrupt(FRAME_PREFIX + bodyLen);
    }
    var valuePos := 12 + keyLen;
    var valueLen := FromBigEndian(body[valuePos..valuePos + 4]);
    if valueLen != SubUint32(SubUint32(bodyLen, valuePos), 4) {
      return Corrupt(FRAME_PREFIX + bodyLen);
    }
    d := Good(RecordIn(body, keyLen, offset), FRAME_PREFIX + bodyLen);
  }
}
