/** Replaying a segment file: what its bytes hold, where the good part ends and how it ends. */
module SegmentScan {
  import opened Bytes
  import opened Records
  import opened FrameRuns
  import opened SparseIndex

  /** How a file's bytes end after their last complete frame. */
  datatype Ending = AtBoundary | TornTail | BadFrame

  datatype Parsed = Parsed(records: seq<Record>, size: nat, ending: Ending)

  datatype ScanResult = Scanned(sizeBytes: int, records: int, index: seq<IndexEntry>, torn: bool) | ScanFailed

  // ----- specification -----

  function EndingOf(d: Decoded): Ending
    requires !d.Good?
  {
    match d
    case CleanEnd => AtBoundary
    case Torn(_) => TornTail
    case _ => BadFrame
  }

  /** Decodes frames from the front until one attempt does not give a record. */
  function Parse(s: seq<byte>, offset: int): (p: Parsed)
    decreases |s|
  {
    match Decode(s, offset)
    case Good(r, n) =>
      DecodedIsFrame(s, offset);
      var p := Parse(s[n..], offset + 1);
      Parsed([r] + p.records, n + p.size, p.ending)
    case d => Parsed([], 0, EndingOf(d))
  }

  function IndexFor(recs: seq<Record>, interval: int): seq<IndexEntry> {
    IndexUpTo(FrameStarts(recs), |recs|, interval)
  }

  function ScanOf(s: seq<byte>, base: int, interval: int): ScanResult {
    var p := Parse(s, base);
    if p.ending.BadFrame? then ScanFailed
    else Scanned(p.size, |p.records|, IndexFor(p.records, interval), p.ending.TornTail?)
  }

  // ----- what a parse says -----

  /** The good part of any file is the frames of the parsed records, and the rest is not a frame. */
  lemma {:induction false} ParseSound(s: seq<byte>, offset: int)
    ensures var p := Parse(s, offset);
            && p.size <= |s| && s[..p.size] == Frames(p.records)
            && Run(p.records, offset)
            && var d := Decode(s[p.size..], offset + |p.records|); (!d.Good? && p.ending == EndingOf(d))
    decreases |s|
  {
    hide Decode, Frame, Frames, Run;
    var p := Parse(s, offset);
    var d := Decode(s, offset);
    if d.Good? {
      DecodedIsFrame(s, offset);
      var rest := s[d.n..];
      ParseSound(rest, offset + 1);
      var q := Parse(rest, offset + 1);
      assert p == Parsed([d.record] + q.records, d.n + q.size, q.ending);
      SoundStep(s, offset, d, q);
    } else {
      EmptyRun();
      assert s[..0] == [] && s[0..] == s;
    }
  }

  lemma BoundaryIsTheEnd(s: seq<byte>, offset: int)
    requires Parse(s, offset).ending.AtBoundary?
    ensures Parse(s, offset).size == |s|
  {
    hide Parse, Frames, Frame, Run;
    ParseSound(s, offset);
  }

  lemma SoundStep(s: seq<byte>, offset: int, d: Decoded, q: Parsed)
    requires d.Good? && d.n <= |s| && s[..d.n] == Frame(d.record)
    requires Encodable(d.record) && d.record.offset == offset
    requires var rest := s[d.n..]; q.size <= |rest| && rest[..q.size] == Frames(q.records)
    requires Run(q.records, offset + 1)
    ensures d.n + q.size <= |s| && s[..d.n + q.size] == Frames([d.record] + q.records)
    ensures Run([d.record] + q.records, offset)
    ensures s[d.n + q.size..] == s[d.n..][q.size..]
  {
    hide Frame, Frames, Run;
    var recs := [d.record] + q.records;
    RunCons(d.record, q.records, offset);
    FramesCons(recs);
    assert recs[1..] == q.records;
    assert s[..d.n + q.size] == s[..d.n] + s[d.n..][..q.size];
  }

  lemma {:induction false} ParseOfFrames(recs: seq<Record>, tail: seq<byte>, offset: int)
    requires Run(recs, offset)
    ensures var q := Parse(tail, offset + |recs|);
            Parse(Frames(recs) + tail, offset) == Parsed(recs + q.records, |Frames(recs)| + q.size, q.ending)
  {
    hide Decode, Frame, Run;
    if recs == [] {
      assert Frames(recs) + tail == tail;
      assert recs + Parse(tail, offset).records == Parse(tail, offset).records;
    } else {
      var r, rest := recs[0], recs[1..];
      assert recs == [r] + rest;
      RunCons(r, rest, offset);
      ParseOfFrames(rest, tail, offset + 1);
      ParseOfCons(r, rest, tail, offset);
      var q := Parse(tail, offset + |recs|);
      ConcatAssoc([r], rest, q.records);
    }
  }

  lemma ParseOfCons(r: Record, rest: seq<Record>, tail: seq<byte>, offset: int)
    requires Encodable(r) && r.offset == offset
    ensures var p := Parse(Frames(rest) + tail, offset + 1);
            && Parse(Frames([r] + rest) + tail, offset) == Parsed([r] + p.records, |Frame(r)| + p.size, p.ending)
            && |Frames([r] + rest)| == |Frame(r)| + |Frames(rest)|
  {
    hide Decode, Frame, Frames;
    assert ([r] + rest)[1..] == rest;
    FramesCons([r] + rest);
    ConcatAssoc(Frame(r), Frames(rest), tail);
    DecodeOfFrame(r, Frames(rest) + tail, offset);
    assert (Frame(r) + (Frames(rest) + tail))[|Frame(r)|..] == Frames(rest) + tail;
  }

  /** A file of whole frames reads back as exactly those records. */
  lemma ParseWholeFrames(recs: seq<Record>, offset: int)
    requires Run(recs, offset)
    ensures Parse(Frames(recs), offset) == Parsed(recs, |Frames(recs)|, AtBoundary)
  {
    hide Frame;
    ParseOfFrames(recs, [], offset);
    assert Frames(recs) + [] == Frames(recs);
    assert recs + [] == recs;
  }

  /** Every byte string has one reading only: however it is cut into frames and a rest that is not
      a frame, the cut, the records and the kind of rest are those the parse finds. */
  lemma ReadingIsUnique(s: seq<byte>, offset: int, recs: seq<Record>, tail: seq<byte>)
    requires s == Frames(recs) + tail && Run(recs, offset)
    requires !Decode(tail, offset + |recs|).Good?
    ensures Parse(s, offset) == Parsed(recs, |s| - |tail|, EndingOf(Decode(tail, offset + |recs|)))
  {
    ParseOfFrames(recs, tail, offset);
    assert recs + [] == recs;
  }

  /** The bytes are these records' frames, and a rest that does not begin with a frame. */
  ghost predicate Splits(s: seq<byte>, offset: int, recs: seq<Record>, tail: seq<byte>) {
    s == Frames(recs) + tail && Run(recs, offset) && !Decode(tail, offset + |recs|).Good?
  }

  /** Any bytes whatever can be split so, in exactly one way. */
  lemma EverySplits(s: seq<byte>, offset: int) returns (recs: seq<Record>, tail: seq<byte>)
    ensures Splits(s, offset, recs, tail)
  {
    hide Decode, Frames, Run, Parse;
    ParseSound(s, offset);
    var p := Parse(s, offset);
    recs, tail := p.records, s[p.size..];
    assert s == s[..p.size] + tail;
  }

  /** What a scan answers for any file: malformed bytes after the last whole frame fail it, an incomplete
      frame is reported as torn, and nothing is clean. */
  ghost predicate ScanMeans(file: seq<byte>, base: int, res: ScanResult) {
    && (exists recs, tail :: Splits(file, base, recs, tail))
    && forall recs, tail | Splits(file, base, recs, tail) ::
         var d := Decode(tail, base + |recs|);
         && (res.ScanFailed? <==> d.Corrupt? || d.TooLarge?)
         && (res.Scanned? && res.torn <==> d.Torn?)
         && (res.Scanned? && !res.torn <==> d.CleanEnd?)
         && (res.Scanned? ==> res.records == |recs| && res.sizeBytes == |Frames(recs)|)
  }

  lemma ScanOfMeans(file: seq<byte>, base: int, interval: int)
    ensures ScanMeans(file, base, ScanOf(file, base, interval))
  {
    hide Decode, Frames, Run, Parse;
    var recs, tail := EverySplits(file, base);
    forall recs, tail | Splits(file, base, recs, tail)
      ensures Parse(file, base) == Parsed(recs, |file| - |tail|, EndingOf(Decode(tail, base + |recs|)))
    {
      ReadingIsUnique(file, base, recs, tail);
    }
  }

  /** Cutting a torn tail off at the good boundary and scanning again finds the same records, size
      and index, and no torn tail. */
  lemma TruncateThenRescan(s: seq<byte>, base: int, interval: int)
    requires ScanOf(s, base, interval).Scanned?
    ensures var r := ScanOf(s, base, interval);
            0 <= r.sizeBytes <= |s| && ScanOf(s[..r.sizeBytes], base, interval) == r.(torn := false)
  {
    ParseSound(s, base);
    ParseWholeFrames(Parse(s, base).records, base);
  }

  // ----- prefixes of a run of frames -----

  /** How many of the leading frames lie wholly within the first n bytes. */
  function CountWithin(recs: seq<Record>, n: nat): (k: nat)
    ensures k <= |recs|
  {
    if recs == [] then 0
    else if |Frames(recs)| <= n then |recs|
    else CountWithin(recs[..|recs| - 1], n)
  }

  lemma {:induction false} CountWithinIsLargest(recs: seq<Record>, n: nat)
    ensures var k := CountWithin(recs, n);
            && FramePos(recs, k) <= n
            && (k < |recs| ==> n < FramePos(recs, k + 1))
            && (forall j | 0 <= j <= |recs| && FramePos(recs, j) <= n :: j <= k)
  {
    hide Frame;
    var k := CountWithin(recs, n);
    assert recs[..|recs|] == recs && recs[..0] == [];
    if recs != [] && |Frames(recs)| > n {
      var front := recs[..|recs| - 1];
      CountWithinIsLargest(front, n);
      assert forall j | 0 <= j <= |front| :: front[..j] == recs[..j];
      assert recs[..|front| + 1] == recs;
      forall j | 0 <= j <= |recs| && FramePos(recs, j) <= n
        ensures j <= k
      {
        assert j <= |front| && FramePos(front, j) <= n;
      }
    }
  }

  /** Any prefix of a run of frames parses to the frames it holds whole: never to a bad frame. */
  lemma ParsePrefix(recs: seq<Record>, n: nat, offset: int)
    requires Run(recs, offset) && n <= |Frames(recs)|
    ensures var k := CountWithin(recs, n); var size := FramePos(recs, k);
            && size <= n
            && Parse(Frames(recs)[..n], offset) == Parsed(recs[..k], size, if size == n then AtBoundary else TornTail)
  {
    hide Decode, Frame, Frames, Parse, Run;
    RunSplit(recs, CountWithin(recs, n), offset);
    var k := CountWithin(recs, n);
    CountWithinIsLargest(recs, n);
    var size := FramePos(recs, k);
    var whole := recs[..k];
    FramesSplit(recs, k);
    var tail := Frames(recs)[..n][size..];
    assert Frames(recs)[..n] == Frames(whole) + tail;
    if k < |recs| {
      FramesCons(recs[k..]);
      assert Frames(recs)[size..] == Frames(recs[k..]);
      assert recs[..k + 1] == whole + [recs[k]];
      FramesSnoc(whole, recs[k]);
      assert tail == Frames(recs[k..])[..n - size] == Frame(recs[k])[..n - size];
      if n > size {
        assert recs[k..][0] == recs[k];
        RunCons(recs[k], recs[k..][1..], offset + k);
        assert recs[k..] == [recs[k]] + recs[k..][1..];
        StrictPrefixIsTorn(recs[k], n - size, offset + k);
      }
    } else {
      assert recs[..k] == recs;
    }
    NothingLeft(offset + k);
    ReadingIsUnique(Frames(recs)[..n], offset, whole, tail);
  }

  // ----- the operation -----

  lemma ParseStep(s: seq<byte>, offset: int, done: seq<Record>, size: nat)
    requires Run(done, offset)
    requires size <= |s| && s[..size] == Frames(done)
    ensures var d := Decode(s[size..], offset + |done|);
            if d.Good? then
              0 < d.n <= |s| - size && s[..size + d.n] == Frames(done + [d.record]) && Run(done + [d.record], offset)
            else Parse(s, offset) == Parsed(done, size, EndingOf(d))
  {
    hide Decode, Frame, Frames, Parse, Run;
    var rest := s[size..];
    var d := Decode(rest, offset + |done|);
    assert s == Frames(done) + rest;
    if d.Good? {
      DecodedIsFrame(rest, offset + |done|);
      FramesSnoc(done, d.record);
      RunSnoc(done, d.record, offset);
      assert s[..size + d.n] == s[..size] + rest[..d.n];
    } else {
      ReadingIsUnique(s, offset, done, rest);
    }
  }

  lemma IndexGrows(recs: seq<Record>, r: Record, interval: int)
    ensures IndexFor(recs + [r], interval) == IndexUpTo(FrameStarts(recs), |recs| + 1, interval)
  {
    hide Frames;
    var more := recs + [r];
    forall k | 0 <= k <= |recs|
      ensures FrameStarts(more)[k] == FrameStarts(recs)[k]
    {
      assert more[..k] == recs[..k];
    }
    assert FrameStarts(more)[..|more|] == FrameStarts(recs)[..|more|];
    IndexOfPrefix(FrameStarts(more), FrameStarts(recs), |more|, interval);
  }

  /** Replays a segment file from its start, building the sparse index on the way. A torn tail is
      reported, not repaired; anything malformed fails the scan. */
  method ScanSegment(file: seq<byte>, base: int, interval: int) returns (res: ScanResult)
    ensures res == ScanOf(file, base, interval)
    ensures ScanMeans(file, base, res)
  {
    hide Decode, Frame, Frames, Parse, FrameStarts, Run, ScanMeans;
    ScanOfMeans(file, base, interval);
    var reader := new SectionReader(file);
    var sizeBytes, records: nat, index := 0, 0, [];
    var lastIndexedPos := 0;
    ghost var done: seq<Record> := [];
    EmptyRun();
    while true
      invariant reader.Valid() && reader.data == file && reader.pos == sizeBytes
      invariant records == |done| && Run(done, base)
      invariant file[..sizeBytes] == Frames(done)
      invariant index == IndexFor(done, interval) && lastIndexedPos == LastPos(index)
      decreases |file| - sizeBytes
    {
      ParseStep(file, base, done, sizeBytes);
      var frameStart := sizeBytes;
      var d := DecodeRecord(reader, base + records);
      if d.CleanEnd? {
        return Scanned(sizeBytes, records, index, false);
      }
      if d.Torn? {
        return Scanned(sizeBytes, records, index, true);
      }
      if !d.Good? {
        return ScanFailed;
      }
      IndexGrows(done, d.record, interval);
      assert done[..records] == done;
      if records == 0 || frameStart - lastIndexedPos >= interval {
        index := index + [IndexEntry(records, frameStart)];
        lastIndexedPos := frameStart;
      }
      sizeBytes := sizeBytes + d.n;
      records := records + 1;
      done := done + [d.record];
    }
  }

  lemma EmptyRun()
    ensures Frames([]) == [] && (forall base :: Run([], base)) && forall interval :: IndexFor([], interval) == []
  {
  }
}
