/** Opening a partition from its directory: every segment is scanned, a torn tail is cut off in the
    last one and refused in any other. */
module PartitionOpening {
  import opened Bytes
  import opened Records
  import opened FrameRuns
  import opened SparseIndex
  import opened SegmentScan
  import opened LogStates
  import opened Reopening
  import opened RetentionPolicy
  import opened Retention
  import opened PartitionLogs

  /** The files of a directory, as values. */
  ghost predicate Shows(files: seq<DirEntry>, disk: seq<DiskFile>)
    reads set e | e in files :: e.file
  {
    |disk| == |files| &&
    forall i | 0 <= i < |files| :: disk[i].base == files[i].base && disk[i].file == files[i].file.State()
  }

  ghost predicate Apart(files: seq<DirEntry>) {
    forall i, j | 0 <= i < j < |files| :: files[i].file != files[j].file
  }

  method OpenSegment(base: int, file: SegmentFile, isActive: bool, interval: int, now: int, ghost entrySynced: bool)
    returns (seg: Segment?)
    modifies if isActive then {file} else {}
    ensures var spec := OpenSegmentSpec(DiskFile(base, old(file.State()), entrySynced), isActive, interval);
            if spec.Some? then seg != null && fresh(seg) && seg.file == file && seg.baseOffset == base
                                && seg.State() == spec.value
            else seg == null && file.State() == old(file.State())
  {
    hide ScanOf, Parse;
    var res := ScanSegment(file.data, base, interval);
    if res.ScanFailed? {
      return null;
    }
    TruncateThenRescan(file.data, base, interval);
    if res.torn {
      if !isActive {
        return null;
      }
      file.CutTo(res.sizeBytes, now);
    }
    seg := new Segment(base, file, res.sizeBytes, res.records, res.index);
  }

  /** Scans the sealed segments, refusing them all if any is torn or malformed. */
  method OpenSealed(files: seq<DirEntry>, interval: int, now: int, ghost disk: seq<DiskFile>)
    returns (ok: bool, segs: seq<Segment>)
    requires Shows(files, disk)
    ensures ok == OpenSealedSpec(disk, interval).Some?
    ensures ok ==> fresh(segs) && EntriesOf(segs) == files && StatesOf(segs) == OpenSealedSpec(disk, interval).value
                   && forall i, j | 0 <= i < j < |segs| :: segs[i] != segs[j]
  {
    hide OpenSegmentSpec, OpenSealedSpec;
    ok, segs := true, [];
    var i := 0;
    assert disk[..0] == [];
    OpenedNone(interval);
    while i < |files|
      invariant 0 <= i <= |files| && Shows(files, disk) && fresh(segs)
      invariant OpenSealedSpec(disk[..i], interval) == Some(StatesOf(segs))
      invariant EntriesOf(segs) == files[..i]
      invariant forall k, l | 0 <= k < l < |segs| :: segs[k] != segs[l]
    {
      label Before:
      var seg := OpenSegment(files[i].base, files[i].file, false, interval, now, disk[i].entrySynced);
      StatesKept@Before(segs);
      OpenedMore(disk, i, interval);
      if seg == null {
        RefusedSoFar(disk, i, interval);
        return false, [];
      }
      EntriesMore(segs, seg, files, i);
      StatesMore(segs, seg);
      segs := segs + [seg];
      i := i + 1;
    }
    assert disk[..i] == disk && files[..i] == files;
  }

  lemma OpenedNone(interval: int)
    ensures OpenSealedSpec([], interval) == Some([]) && StatesOf([]) == [] && EntriesOf([]) == []
  {
  }

  lemma OpenedMore(disk: seq<DiskFile>, i: nat, interval: int)
    requires i < |disk| && OpenSealedSpec(disk[..i], interval).Some?
    ensures var sg := OpenSegmentSpec(disk[i], false, interval);
            OpenSealedSpec(disk[..i + 1], interval)
            == if sg.Some? then Some(OpenSealedSpec(disk[..i], interval).value + [sg.value]) else None
  {
    hide OpenSegmentSpec;
    assert disk[..i + 1][..i] == disk[..i];
  }

  lemma EntriesMore(segs: seq<Segment>, seg: Segment, files: seq<DirEntry>, i: nat)
    requires i < |files| && EntriesOf(segs) == files[..i] && files[i] == DirEntry(seg.baseOffset, seg.file)
    ensures EntriesOf(segs + [seg]) == files[..i + 1]
  {
    assert EntriesOf(segs + [seg]) == EntriesOf(segs) + [files[i]];
  }

  lemma StatesMore(segs: seq<Segment>, seg: Segment)
    ensures StatesOf(segs + [seg]) == StatesOf(segs) + [seg.State()]
  {
    assert (segs + [seg])[..|segs|] == segs;
  }

  lemma {:induction false} RefusedSoFar(disk: seq<DiskFile>, i: nat, interval: int)
    requires i < |disk| && OpenSegmentSpec(disk[i], false, interval).None?
    ensures OpenSealedSpec(disk, interval).None?
    decreases |disk|
  {
    hide OpenSegmentSpec;
    if i < |disk| - 1 {
      RefusedSoFar(disk[..|disk| - 1], i, interval);
    }
  }

  // ----- what is refused, and what an opened partition holds -----

  /** After its last whole frame the file goes on with bytes that no frame can have. */
  ghost predicate HasBadFrame(df: DiskFile) {
    exists recs, tail :: Splits(df.file.data, df.base, recs, tail)
      && var d := Decode(tail, df.base + |recs|); d.Corrupt? || d.TooLarge?
  }

  /** After its last whole frame the file ends within another one. */
  ghost predicate HasTornTail(df: DiskFile) {
    exists recs, tail :: Splits(df.file.data, df.base, recs, tail) && Decode(tail, df.base + |recs|).Torn?
  }

  /** The files that may not be opened: none at all, one with a bad frame, or a torn one before the last. */
  ghost predicate Refused(disk: seq<DiskFile>) {
    disk == [] || exists i :: 0 <= i < |disk| && (HasBadFrame(disk[i]) || (i < |disk| - 1 && HasTornTail(disk[i])))
  }

  lemma OpenSegmentNoneIff(df: DiskFile, isActive: bool, interval: int)
    ensures OpenSegmentSpec(df, isActive, interval).None? <==> HasBadFrame(df) || (!isActive && HasTornTail(df))
  {
    hide ScanOf, Splits, Decode, Frames;
    ScanOfMeans(df.file.data, df.base, interval);
  }

  lemma {:induction false} OpenSealedNoneIff(disk: seq<DiskFile>, interval: int)
    ensures OpenSealedSpec(disk, interval).None?
            <==> exists i :: 0 <= i < |disk| && (HasBadFrame(disk[i]) || HasTornTail(disk[i]))
  {
    hide OpenSegmentSpec, HasBadFrame, HasTornTail;
    if disk != [] {
      var n := |disk| - 1;
      OpenSealedNoneIff(disk[..n], interval);
      OpenSegmentNoneIff(disk[n], false, interval);
      assert forall i | 0 <= i < n :: disk[..n][i] == disk[i];
    }
  }

  /** Opening fails exactly for files that may not be opened. */
  lemma OpenNoneIff(disk: seq<DiskFile>, limits: Limits)
    ensures OpenSpec(disk, limits).None? <==> Refused(disk)
  {
    hide OpenSegmentSpec, OpenSealedSpec, HasBadFrame, HasTornTail;
    if disk != [] {
      var n := |disk| - 1;
      OpenSealedNoneIff(disk[..n], limits.indexIntervalBytes);
      OpenSegmentNoneIff(disk[n], true, limits.indexIntervalBytes);
      assert forall i | 0 <= i < n :: disk[..n][i] == disk[i];
    }
  }

  /** The segment opened from a file holds exactly its whole frames; a torn tail is cut off and the cut
      synced, and nothing else is touched. */
  ghost predicate OpenedFrom(sg: SegState, df: DiskFile, interval: int) {
    forall recs, tail | Splits(df.file.data, df.base, recs, tail) ::
      && sg.base == df.base && sg.records == |recs| && sg.sizeBytes == |Frames(recs)| && Content(sg) == recs
      && sg.index == IndexFor(recs, interval)
      && sg.lastIndexedPos == (if sg.index == [] then 0 else sg.index[|sg.index| - 1].position)
      && sg.file == if tail == [] then df.file else FileState(Frames(recs), |Frames(recs)|)
  }

  lemma SegmentOpenedFrom(df: DiskFile, isActive: bool, interval: int)
    requires OpenSegmentSpec(df, isActive, interval).Some?
    ensures OpenedFrom(OpenSegmentSpec(df, isActive, interval).value, df, interval)
  {
    hide Decode, Frames, Run, Parse, IndexFor;
    var sg := OpenSegmentSpec(df, isActive, interval).value;
    forall recs, tail | Splits(df.file.data, df.base, recs, tail)
      ensures sg.base == df.base && sg.records == |recs| && sg.sizeBytes == |Frames(recs)| && Content(sg) == recs
      ensures sg.index == IndexFor(recs, interval)
      ensures sg.lastIndexedPos == (if sg.index == [] then 0 else sg.index[|sg.index| - 1].position)
      ensures sg.file == if tail == [] then df.file else FileState(Frames(recs), |Frames(recs)|)
    {
      ReadingIsUnique(df.file.data, df.base, recs, tail);
      ParseWholeFrames(recs, df.base);
      EmptyTailIsClean(tail, df.base + |recs|);
      assert df.file.data[..|Frames(recs)|] == Frames(recs);
      assert PublishedBytes(sg) == Frames(recs);
    }
  }

  lemma EmptyTailIsClean(tail: seq<byte>, offset: int)
    ensures Decode(tail, offset).CleanEnd? <==> tail == []
  {
  }

  lemma {:induction false} SealedOpenedFrom(disk: seq<DiskFile>, interval: int, i: nat)
    requires OpenSealedSpec(disk, interval).Some? && i < |disk|
    ensures OpenedFrom(OpenSealedSpec(disk, interval).value[i], disk[i], interval)
  {
    hide OpenSegmentSpec, OpenedFrom;
    var n := |disk| - 1;
    if i < n {
      SealedOpenedFrom(disk[..n], interval, i);
    } else {
      SegmentOpenedFrom(disk[n], false, interval);
    }
  }

  /** An opened partition has one segment for every file, and ends after the last one's records. */
  lemma OpenedHolds(disk: seq<DiskFile>, limits: Limits)
    requires OpenSpec(disk, limits).Some?
    ensures var t := OpenSpec(disk, limits).value;
            && |Segs(t)| == |disk|
            && (forall i | 0 <= i < |disk| :: OpenedFrom(Segs(t)[i], disk[i], limits.indexIntervalBytes))
            && t.nextOffset == t.active.base + t.active.records && !t.failed && !t.stray && t.limits == limits
  {
    hide OpenSegmentSpec, OpenSealedSpec, OpenedFrom;
    var n := |disk| - 1;
    var interval := limits.indexIntervalBytes;
    SegmentOpenedFrom(disk[n], true, interval);
    forall i | 0 <= i < n
      ensures OpenedFrom(OpenSealedSpec(disk[..n], interval).value[i], disk[i], interval)
    {
      SealedOpenedFrom(disk[..n], interval, i);
    }
  }

  /** Opens every segment the directory lists, in base order. */
  method OpenPartition(dir: Directory, limits: Limits, now: int, ghost disk: seq<DiskFile>) returns (p: PartitionLog?)
    requires Shows(dir.files, disk) && Apart(dir.files)
    modifies set e | e in dir.files :: e.file
    ensures var spec := OpenSpec(disk, limits);
            if spec.Some? then p != null && p.Structured() && p.State() == spec.value && p.dir == dir && !p.closed
            else p == null
    ensures p == null <==> Refused(disk)
    ensures dir.files == old(dir.files)
  {
    hide OpenSegmentSpec, OpenSealedSpec, Refused;
    OpenNoneIff(disk, limits);
    if |dir.files| == 0 {
      return null;
    }
    var n := |dir.files| - 1;
    assert disk[..|disk| - 1] == disk[..n];
    assert dir.files == dir.files[..n] + [dir.files[n]];
    var ok, segs := OpenSealed(dir.files[..n], limits.indexIntervalBytes, now, disk[..n]);
    if !ok {
      return null;
    }
    label Scanned:
    var last := OpenSegment(dir.files[n].base, dir.files[n].file, true, limits.indexIntervalBytes, now,
        disk[n].entrySynced);
    if last == null {
      return null;
    }
    forall k | 0 <= k < n
      ensures segs[k].file != last.file && segs[k] != last
    {
      assert EntriesOf(segs)[k] == dir.files[..n][k];
    }
    StatesKept@Scanned(segs);
    p := Assemble(dir, limits, segs, last);
  }

  /** The opened log over its segments; the log end is the last one's. */
  method Assemble(dir: Directory, limits: Limits, segs: seq<Segment>, last: Segment) returns (p: PartitionLog)
    requires dir.files == EntriesOf(segs) + [DirEntry(last.baseOffset, last.file)] && Apart(dir.files)
    requires forall i, j | 0 <= i < j < |segs| :: segs[i] != segs[j]
    requires last !in segs
    ensures p.dir == dir && !p.closed && p.Structured()
    ensures p.State() == old(LogState(StatesOf(segs), last.State(), EndOf(last.State()), false, false, limits))
  {
    p := new PartitionLog(dir, limits, segs + [last], last.baseOffset + last.records);
    assert p.Front() == segs && p.Active() == last;
    StatesKept(segs);
    assert EntriesOf(p.segments) == dir.files;
    NothingRemoved(dir.files);
    forall i, j | 0 <= i < j < |p.segments|
      ensures p.segments[i] != p.segments[j] && p.segments[i].file != p.segments[j].file
    {
      assert EntriesOf(p.segments)[i].file != EntriesOf(p.segments)[j].file;
    }
  }

  /** A running log's directory holds exactly the files its state says, but for those unlinked. */
  lemma DirectoryShows(p: PartitionLog)
    requires p.Structured()
    ensures Shows(p.dir.files, DiskOf(Without(p.State(), p.unlinked))) && Apart(p.dir.files)
  {
    var segs := KeepSegs(p.segments, p.unlinked);
    KeptEntries(p.segments, p.unlinked);
    KeptStates(p.Front(), p.unlinked);
    KeptApart(p.segments, p.unlinked);
    var front := KeepSegs(p.Front(), p.unlinked);
    assert segs == front + [p.Active()];
    var t := Without(p.State(), p.unlinked);
    assert t.sealed == StatesOf(front);
    forall i | 0 <= i < |segs|
      ensures Segs(t)[i] == segs[i].State()
    {
      if i < |front| {
        StatesAt(front, i);
      }
    }
    KeptFilesApart(p);
    var disk, n := DiskOf(t), |segs|;
    assert forall i | 0 <= i < n :: p.dir.files[i] == EntriesOf(segs)[i];
    assert forall i | 0 <= i < n :: disk[i] == FilesOf(Segs(t))[i];
  }

  lemma KeptFilesApart(p: PartitionLog)
    requires p.Structured()
    ensures Apart(p.dir.files)
  {
    var segs := KeepSegs(p.segments, p.unlinked);
    KeptEntries(p.segments, p.unlinked);
    KeptApart(p.segments, p.unlinked);
    assert forall i | 0 <= i < |segs| :: p.dir.files[i] == EntriesOf(segs)[i] && segs[i] in p.segments;
  }

  /** The process stops and the partition is opened again, without the segments whose files were
      unlinked. A healthy log comes back in the very same state otherwise; a fenced one comes back
      healthy, with its published records and, if the last write did reach the file whole, the record
      whose outcome was uncertain. */
  method Restart(p: PartitionLog, now: int) returns (q: PartitionLog?)
    requires p.Valid()
    modifies set e | e in p.dir.files :: e.file
    ensures q != null && q.Valid() && !q.closed && !q.failed
    ensures !old(p.failed) ==> q.State() == old(Without(p.State(), p.unlinked))
    ensures Log(q.State())
            == old(Log(Without(p.State(), p.unlinked)))
                + old(if p.failed then UncertainRecord(p.State().active) else [])
  {
    hide Inv, OpenSpec, Log, Shows, Keep;
    ghost var s := Without(p.State(), p.unlinked);
    WithoutKeeps(p.State(), p.unlinked);
    DirectoryShows(p);
    if p.failed {
      ReopenFenced(s);
    } else {
      ReopenIsIdentity(s);
      assert Log(s) + [] == Log(s);
    }
    q := OpenPartition(p.dir, p.limits, now, DiskOf(s));
  }
}
