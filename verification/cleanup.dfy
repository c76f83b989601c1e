/** The loops behind retention and quota: per-file bounds, candidates and directory sizes (src/core/db_quota.c). */
module Cleanup {
  import opened Wire
  import opened Config
  import opened Codec
  import opened Segments
  import opened WalFormat
  import opened State
  import opened Quota
  import opened Engine
  import opened Query
  import opened SeriesIndex

  method FindBound(bounds: seq<Bound>, id: nat) returns (k: nat)
    ensures k == BoundIndex(bounds, id)
  {
    k := 0;
    while k < |bounds| && bounds[k].id != id
      invariant k <= |bounds| && BoundIndex(bounds, id) == k + BoundIndex(bounds[k..], id)
    {
      assert bounds[k..][1..] == bounds[k + 1..];
      k := k + 1;
    }
  }

  /** One bound per file, in the order the index mentions the files first. */
  method CollectBounds(index: seq<IndexEntry>) returns (bounds: seq<Bound>)
    ensures bounds == Bounds(index)
  {
    bounds := [];
    for i := 0 to |index|
      invariant bounds == FoldBounds([], index[..i])
    {
      assert index[..i + 1][..i] == index[..i];
      var e := index[i];
      var k := FindBound(bounds, e.segmentId);
      if k < |bounds| {
        if e.maxTimestamp > bounds[k].max {
          bounds := bounds[k := bounds[k].(max := e.maxTimestamp)];
        }
      } else {
        bounds := bounds + [Bound(e.segmentId, e.maxTimestamp)];
      }
    }
    assert index[..|index|] == index;
  }

  /** The sealed files of one series, with their sizes on disk. */
  method CollectCandidates(s: SeriesObject, files: Files, i: nat, ghost dir: Directory) returns (cs: seq<Candidate>)
    requires s.Valid() && FilesHold(files, dir)
    ensures cs == SeriesCandidates(s.Value(), dir, i)
  {
    hide FilesHold, SegmentSize, SegmentBytes, Bounds;
    cs := [];
    if |s.segmentIds| <= 1 {
      return;
    }
    var bounds := CollectBounds(s.index);
    for k := 0 to |bounds|
      invariant cs == CandidatesOf(bounds[..k], s.activeId, dir, i)
    {
      assert bounds[..k + 1][..k] == bounds[..k];
      var id := bounds[k].id;
      FileSize(files, dir, id);
      if id != s.activeId {
        var size := if id in files then |files[id]| else 0;
        if size > 0 {
          cs := cs + [Candidate(i, id, bounds[k].max, size)];
        }
      }
    }
    assert bounds[..|bounds|] == bounds;
  }

  lemma FileSize(files: Files, dir: Directory, id: nat)
    requires FilesHold(files, dir)
    ensures (if id in files then |files[id]| else 0) == SegmentSize(Blocks(dir, id))
    ensures id in files <==> id in dir
  {}

  function FileLengths(files: Files): map<nat, nat> {
    map id | id in files :: |files[id]|
  }

  /** Bytes of the files of one directory. */
  ghost function FilesBytes(files: Files): nat {
    SumOf(FileLengths(files))
  }

  lemma FilesBytesAre(files: Files, dir: Directory)
    requires FilesHold(files, dir)
    ensures FilesBytes(files) == DirectorySize(dir)
  {
    hide SumOf, SegmentSize, SegmentBytes;
    forall id | id in dir
      ensures |files[id]| == SegmentSize(dir[id])
    {
      FileSize(files, dir, id);
    }
    assert FileLengths(files) == SegmentSizes(dir);
  }

  /** Adds up the files of one directory, in whatever order they are visited. */
  method DirectoryBytes(files: Files) returns (size: nat)
    ensures size == FilesBytes(files)
  {
    hide SumOf;
    size := 0;
    var rest := files.Keys;
    assert FileLengths(files) - (files.Keys - rest) == FileLengths(files);
    while rest != {}
      invariant rest <= files.Keys
      invariant size + SumOf(FileLengths(files) - (files.Keys - rest)) == FilesBytes(files)
      decreases |rest|
    {
      var id :| id in rest;
      ghost var left := FileLengths(files) - (files.Keys - rest);
      SumWithout(left, id);
      assert left - {id} == FileLengths(files) - (files.Keys - (rest - {id}));
      size := size + |files[id]|;
      rest := rest - {id};
    }
    NothingSummed(FileLengths(files) - (files.Keys - rest));
  }
}
