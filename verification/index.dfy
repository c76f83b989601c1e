/** Series records as the program holds them: a fixed buffer and a volatile index (src/core/series_index.c). */
module SeriesIndex {
  import opened Wire
  import opened Config
  import opened Codec
  import opened Segments
  import opened WalFormat
  import opened State
  import opened Engine
  import opened Query
  import SegmentNames

  // ---------------------------------------------------------------- listing a directory

  /** Puts an id in its place among smaller and larger ones. */
  function InsertId(ids: seq<nat>, id: nat): (r: seq<nat>)
    requires Increasing(ids) && id !in ids
    ensures Increasing(r) && forall x :: x in r <==> x in ids || x == id
  {
    if ids == [] || ids[|ids| - 1] < id then ids + [id]
    else
      var init, last := ids[..|ids| - 1], ids[|ids| - 1];
      assert ids == init + [last];
      assert forall x :: x in init ==> x < last;
      var lower := InsertId(init, id);
      assert forall k :: 0 <= k < |lower| ==> lower[k] in lower;
      lower + [last]
  }

  /** The recognised files of a directory, in order. */
  ghost function ListedIds(files: Files): seq<nat> {
    SortedIds(set id | id in files && 1 <= id <= MAX_SEGMENT_ID)
  }

  /** The files whose names are recognised, in whatever order the directory lists them, then sorted. */
  method ListSegments(files: Files) returns (ids: seq<nat>)
    ensures ids == ListedIds(files)
  {
    ids := [];
    var rest := files.Keys;
    while rest != {}
      invariant rest <= files.Keys && Increasing(ids)
      invariant forall x :: x in ids <==> x in files && x !in rest && 1 <= x <= MAX_SEGMENT_ID
      decreases |rest|
    {
      var id :| id in rest;
      var name := SegmentNames.FileName(id);
      SegmentNames.NameRoundTrip(id);
      var parsed := SegmentNames.ParseName(name);
      if parsed.Some? {
        ids := InsertId(ids, parsed.value);
      }
      rest := rest - {id};
    }
    SortedIdsUnique(ids, set id | id in files && 1 <= id <= MAX_SEGMENT_ID);
  }

  function FileBytes(files: Files, id: nat): seq<byte> {
    if id in files then files[id] else []
  }

  /** The index entries of the given files, one scan after the other; nothing if one of the files is corrupt. */
  function ScanAll(files: Files, ids: seq<nat>): Option<seq<IndexEntry>> {
    if ids == [] then Some([])
    else
      var last := ids[|ids| - 1];
      match ScanAll(files, ids[..|ids| - 1])
      case None => None
      case Some(done) => Prepend(done, ScanFrom(FileBytes(files, last), last, 0))
  }

  method ScanFiles(files: Files, ids: seq<nat>) returns (index: Option<seq<IndexEntry>>)
    ensures index == ScanAll(files, ids)
  {
    hide ScanFrom, FileBytes;
    var found: seq<IndexEntry> := [];
    for k := 0 to |ids|
      invariant ScanAll(files, ids[..k]) == Some(found)
    {
      ScanNext(files, ids, k);
      var entries := ScanIndex(FileBytes(files, ids[k]), ids[k]);
      if entries.None? {
        ScanStopped(files, ids, k + 1);
        return None;
      }
      found := found + entries.value;
    }
    assert ids[..|ids|] == ids;
    index := Some(found);
  }

  lemma ScanNext(files: Files, ids: seq<nat>, k: nat)
    requires k < |ids|
    ensures ScanAll(files, ids[..k + 1]) ==
            match ScanAll(files, ids[..k])
            case None => None
            case Some(done) => Prepend(done, ScanFrom(FileBytes(files, ids[k]), ids[k], 0))
  {
    hide ScanFrom, FileBytes;
    assert ids[..k + 1][..k] == ids[..k];
  }

  lemma {:induction false} ScanStopped(files: Files, ids: seq<nat>, k: nat)
    requires k <= |ids| && ScanAll(files, ids[..k]).None?
    ensures ScanAll(files, ids).None?
    decreases |ids| - k
  {
    hide ScanFrom, FileBytes, ScanAll;
    if k == |ids| {
      assert ids[..k] == ids;
    } else {
      ScanNext(files, ids, k);
      ScanStopped(files, ids, k + 1);
    }
  }

  /** Scanning files that hold whole blocks gives the index of those blocks. */
  lemma {:induction false} ScanAllIsIndex(files: Files, dir: Directory, ids: seq<nat>)
    requires FilesHold(files, dir) && forall id :: id in ids ==> id in dir
    ensures ScanAll(files, ids) == Some(IndexOfIds(dir, ids))
  {
    hide FilesHold, IndexOf, ScanFrom, SegmentBytes;
    if ids != [] {
      var last := ids[|ids| - 1];
      assert last in ids;
      ScanAllIsIndex(files, dir, ids[..|ids| - 1]);
      FileAt(files, dir, last);
      ScanIsIndex(last, dir[last]);
    }
  }

  // ---------------------------------------------------------------- one series

  class SeriesObject {
    const name: Name
    const generation: nat
    const buffer: array<Point>
    var activeId: nat
    var segmentIds: seq<nat>
    var index: seq<IndexEntry>
    var count: nat

    ghost predicate Valid()
      reads this
    {
      buffer.Length == BLOCK_MAX_POINTS && count <= buffer.Length
    }

    ghost function Value(): Series
      requires Valid()
      reads this, buffer
    {
      Series(name, generation, activeId, segmentIds, index, buffer[..count])
    }

    constructor (name: Name, generation: nat)
      ensures Valid() && fresh(buffer) && Value() == Series(name, generation, 1, [], [], [])
    {
      this.name, this.generation := name, generation;
      buffer := new Point[BLOCK_MAX_POINTS](_ => Point(0, 0));
      activeId, segmentIds, index, count := 1, [], [], 0;
    }

    /** Remembers a segment id unless it is already known. */
    method AddSegmentId(id: nat)
      requires Valid()
      modifies this`segmentIds
      ensures Valid() && segmentIds == AddId(old(segmentIds), id)
    {
      for i := 0 to |segmentIds|
        invariant segmentIds == old(segmentIds) && id !in segmentIds[..i]
      {
        if segmentIds[i] == id {
          return;
        }
      }
      assert segmentIds[..|segmentIds|] == segmentIds;
      segmentIds := segmentIds + [id];
    }

    method AddIndexEntry(e: IndexEntry)
      requires Valid()
      modifies this`index
      ensures Valid() && index == old(index) + [e]
    {
      index := index + [e];
    }

    /** Forgets the index and reads it back from the headers of all files; false if one of them is corrupt. */
    method RebuildIndex(files: Files) returns (ok: bool)
      requires Valid()
      modifies this`activeId, this`segmentIds, this`index
      ensures Valid() && ok == ScanAll(files, ListedIds(files)).Some?
      ensures ok ==> Value() == Scanned(old(Value()), files)
    {
      hide ScanAll, SortedIds;
      segmentIds := ListSegments(files);
      activeId := if |segmentIds| > 0 then segmentIds[|segmentIds| - 1] else 1;
      var entries := ScanFiles(files, segmentIds);
      ok := entries.Some?;
      index := if ok then entries.value else [];
    }

    /** Copies a chunk behind the buffered points. */
    method PutAll(ps: seq<Point>)
      requires Valid() && count + |ps| <= BLOCK_MAX_POINTS
      modifies this`count, buffer
      ensures Valid() && Value() == old(Value()).(buffer := old(Value()).buffer + ps)
    {
      forall k | 0 <= k < |ps| {
        buffer[count + k] := ps[k];
      }
      count := count + |ps|;
      assert buffer[..count] == old(buffer[..count]) + ps;
    }
  }

  /** The record of a series after its files have been scanned. */
  ghost function Scanned(s: Series, files: Files): Series
    requires ScanAll(files, ListedIds(files)).Some?
  {
    var ids := ListedIds(files);
    s.(segmentIds := ids, index := ScanAll(files, ids).value, activeId := ActiveId(ids))
  }

  /** With whole blocks in all files the scan succeeds and rebuilds the record from the directory. */
  lemma ScannedIsRebuilt(s: Series, files: Files, dir: Directory)
    requires FilesHold(files, dir)
    ensures ScanAll(files, ListedIds(files)).Some? && Scanned(s, files) == Rebuild(s, dir)
  {
    hide FilesHold, ScanAll, IndexOfIds, SortedIds;
    SameListing(files, dir);
    ScanAllIsIndex(files, dir, ListedIds(files));
  }

  lemma SameListing(files: Files, dir: Directory)
    requires FilesHold(files, dir)
    ensures ListedIds(files) == DiscoverIds(dir)
    ensures forall id :: id in DiscoverIds(dir) ==> id in dir
  {
    assert (set id | id in files && 1 <= id <= MAX_SEGMENT_ID) == (set id | id in dir && 1 <= id <= MAX_SEGMENT_ID);
  }

  lemma FileAt(files: Files, dir: Directory, id: nat)
    requires FilesHold(files, dir) && id in dir
    ensures id in files && files[id] == SegmentBytes(dir[id]) && |files[id]| == SegmentSize(dir[id])
    ensures Blocks(dir, id) == dir[id]
  {}
}
