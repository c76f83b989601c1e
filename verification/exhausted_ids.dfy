/**
 * What happens past the last six-digit segment id (src/storage/segment_files.c:19-45): the block is written, read back
 * while the process lives, and lost with it, because its file is not recognised by the next open.
 */
module ExhaustedIds {
  import opened Wire
  import opened Config
  import opened Codec
  import opened Segments
  import opened WalFormat
  import opened State
  import opened Quota
  import opened Engine
  import opened Invariants
  import opened Recovery

  /** What a reader of a series reaches through its index, and then its buffer. */
  ghost function Seen(m: Model, name: Name): seq<Point> {
    var i := Find(m.series, name);
    if i == |m.series| then []
    else PointsOfIds(DirOf(m.dirs, name), m.series[i].segmentIds) + m.series[i].buffer
  }

  /** With recognisable files the index leads to all stored points. */
  lemma SeenIsVisible(m: Model, name: Name)
    requires Inv(m)
    ensures Seen(m, name) == Visible(m, name)
  {
    hide PointsOfIds, SortedIds, Mirror, IndexOfIds, FilesOk;
    var i := Find(m.series, name);
    if i == |m.series| {
      RegisteredName(m, name);
      EmptyDirectory();
    } else {
      assert m.series[i].name == name;
    }
  }

  // ---------------------------------------------------------------- opening directories with unrecognised files

  /** An open of any directory: the recognised files are indexed, the buffers come from the log. */
  lemma OpenSees(dirs: map<Name, Directory>, log: seq<Entry>, rest: seq<byte>, listing: seq<Name>)
    requires Lists(listing, dirs) && forall k :: 0 <= k < |log| ==> log[k].name in dirs
    requires forall n: Name :: |PointsFor(log, n)| <= BLOCK_MAX_POINTS
    ensures var m := Open(dirs, log, rest, listing);
            && m.dirs == dirs
            && forall n :: n in dirs ==> Seen(m, n) == PointsOfIds(dirs[n], DiscoverIds(dirs[n])) + PointsFor(log, n)
  {
    hide Lists, Load, PointsFor, PointsOfIds, DiscoverIds, Find, IndexOfIds, DistinctNames;
    ListingIsListed(listing, dirs);
    LoadIs(dirs, log, rest, listing);
    LoadedNames(dirs, listing);
    LoadedIds(dirs, listing);
    var loaded := LoadedSeries(dirs, listing);
    ListingFinds(loaded, dirs, listing);
    assert Fits(loaded, log);
    hide LoadedSeries;
    var start := Fresh(dirs, log, rest).(series := loaded, nextGeneration := |listing|);
    ReplayIs(start, log);
    hide ReplayAll, Fits;
    var m := Open(dirs, log, rest, listing);
    assert m.series == Buffered(loaded, log);
    forall n | n in dirs
      ensures Seen(m, n) == PointsOfIds(dirs[n], DiscoverIds(dirs[n])) + PointsFor(log, n)
    {
      var i := Find(loaded, n);
      assert loaded[i].name == n;
      FindSameNames(loaded, m.series, n);
      assert [] + PointsFor(log, n) == PointsFor(log, n);
    }
  }

  lemma LoadedIds(dirs: map<Name, Directory>, listing: seq<Name>)
    requires Listed(listing, dirs)
    ensures |LoadedSeries(dirs, listing)| == |listing|
    ensures forall k :: 0 <= k < |listing| ==>
              LoadedSeries(dirs, listing)[k].segmentIds == DiscoverIds(dirs[listing[k]])
  {
    hide DiscoverIds, IndexOfIds;
  }

  // ---------------------------------------------------------------- the flush that goes too far

  /** The next block of series `i` would go to a file with a seven-digit id. */
  predicate Exhausted(m: Model, i: nat)
    requires i < |m.series|
  {
    var s := m.series[i];
    s.buffer != [] && RotatedId(DirOf(m.dirs, s.name), s.activeId, BlockSize(s.buffer)) > MAX_SEGMENT_ID
  }

  /** The block is the only one in its file, and only the index in memory knows it. */
  lemma BlockBeyond(s: Series, dir: Directory)
    requires SeriesOk(s, dir) && ValidBlock(s.buffer)
    requires RotatedId(dir, s.activeId, BlockSize(s.buffer)) > MAX_SEGMENT_ID
    ensures var s', dir' := FlushedSeries(s, dir), FlushedDirectory(s, dir);
            && PointsOfIds(dir', s'.segmentIds) == StoredPoints(dir) + s.buffer
            && PointsOfIds(dir', DiscoverIds(dir')) == StoredPoints(dir)
            && s'.name == s.name && s'.buffer == []
  {
    hide BlockSize, SegmentSize, IndexOfIds, PointsOfIds, EntryFor, IndexOf, Flatten;
    var id := RotatedId(dir, s.activeId, BlockSize(s.buffer));
    UnrecognisedFile(s, dir, id);
    NoSuchFile(s, dir, id);
    hide FilesOk, RotatedId, SortedIds, DiscoverIds;
    var ids, dir' := s.segmentIds, dir[id := Blocks(dir, id) + [s.buffer]];
    LastBlockAdded(dir, ids, id, s.buffer);
    EmptyFile(dir, id);
    SameFiles(dir, dir', ids);
    assert PointsOfIds(dir, ids) + [] == PointsOfIds(dir, ids);
  }

  lemma NoSuchFile(s: Series, dir: Directory, id: nat)
    requires SeriesOk(s, dir) && id > MAX_SEGMENT_ID
    ensures id !in dir && id !in s.segmentIds
    ensures forall i :: i in s.segmentIds ==> i != id
  {
    hide SegmentSize, IndexOfIds;
    assert forall i :: i in s.segmentIds ==> i in dir;
  }

  /** The state after such a flush. */
  ghost predicate FlushedBeyond(m: Model, m1: Model, i: nat)
    requires i < |m.series| && ValidBlock(m.series[i].buffer)
  {
    var s := m.series[i];
    var dir := DirOf(m.dirs, s.name);
    && m1.dirs == m.dirs[s.name := FlushedDirectory(s, dir)] && m1.series == m.series[i := FlushedSeries(s, dir)]
    && m1.log == BufferEntries(m1.series) && m1.pending == [] && m1.torn == [] && m1.kept == 0
  }

  lemma FlushGoesBeyond(m: Model, i: nat)
    requires RegistryOk(m) && m.quota == 0 && i < |m.series| && m.series[i].buffer != []
    ensures ValidBlock(m.series[i].buffer) && Flush(m, i).1 == Ok && FlushedBeyond(m, Flush(m, i).0, i)
  {
    hide BufferEntries, FlushedSeries, FlushedDirectory, TotalSize;
    RegistryAt(m, i);
    BufferBound(m.series[i], m.dirs[m.series[i].name]);
    hide RegistryOk;
  }

  /** The buffers and the log after the flush. */
  lemma BuffersBeyond(m: Model, m1: Model, i: nat)
    requires RegistryOk(m) && i < |m.series| && ValidBlock(m.series[i].buffer) && FlushedBeyond(m, m1, i)
    requires FlushedSeries(m.series[i], DirOf(m.dirs, m.series[i].name)).name == m.series[i].name
    requires FlushedSeries(m.series[i], DirOf(m.dirs, m.series[i].name)).buffer == []
    ensures forall n: Name :: Find(m1.series, n) == Find(m.series, n)
    ensures forall n: Name ::
              PointsFor(m1.log, n) == BufferOf(m1.series, n)
                                   == if n == m.series[i].name then [] else BufferOf(m.series, n)
    ensures forall k :: 0 <= k < |m1.log| ==> m1.log[k].name in m1.dirs
  {
    hide SeriesOk, FlushedSeries, FlushedDirectory, BufferEntries, PointsFor, Find;
    FindAt(m.series, i);
    DistinctSameNames(m.series, m1.series);
    BufferEntriesWellFormed(m1.series);
    forall n: Name
      ensures Find(m1.series, n) == Find(m.series, n)
      ensures PointsFor(m1.log, n) == BufferOf(m1.series, n)
      ensures BufferOf(m1.series, n) == if n == m.series[i].name then [] else BufferOf(m.series, n)
    {
      FindSameNames(m.series, m1.series, n);
      BufferEntriesMirror(m1.series, n);
    }
    hide DistinctNames;
    forall k | 0 <= k < |m1.log|
      ensures m1.log[k].name in m1.dirs
    {
      var j :| 0 <= j < |m1.series| && m1.series[j].name == m1.log[k].name;
      assert m1.series[j].name == m.series[j].name;
    }
  }

  lemma BuffersFit(m: Model)
    requires RegistryOk(m)
    ensures forall n: Name :: |BufferOf(m.series, n)| <= BLOCK_MAX_POINTS
  {
    hide SeriesOk;
    forall n: Name
      ensures |BufferOf(m.series, n)| <= BLOCK_MAX_POINTS
    {
      var i := Find(m.series, n);
      if i < |m.series| {
        BufferBound(m.series[i], m.dirs[m.series[i].name]);
      }
    }
  }

  lemma RecognisedPoints(m: Model, n: Name)
    requires RegistryOk(m) && n in m.dirs
    ensures PointsOfIds(m.dirs[n], DiscoverIds(m.dirs[n])) == StoredPoints(m.dirs[n])
  {
    hide SeriesOk, PointsOfIds, DiscoverIds, SortedIds;
    RegistryFiles(m);
    DiscoverAll(m.dirs[n]);
  }

  /**
   * A flush past id 999999. It succeeds and no reader notices. But the log has been truncated and the file is not
   * recognised: after any restart exactly the points of that block are missing, and no other reader sees a difference.
   */
  lemma PastSixDigits(m: Model, i: nat, listing: seq<Name>)
    requires Inv(m) && m.quota == 0 && i < |m.series| && Exhausted(m, i) && Lists(listing, m.dirs)
    ensures Flush(m, i).1 == Ok
    ensures var m1, name := Flush(m, i).0, m.series[i].name;
            var m2 := Crash(m1, listing);
            && Visible(m, name) == StoredPoints(m.dirs[name]) + m.series[i].buffer
            && (forall n :: n in m.dirs ==> Seen(m1, n) == Visible(m, n))
            && (forall n :: n in m.dirs ==>
                  Seen(m2, n) == if n == name then StoredPoints(m.dirs[name]) else Visible(m, n))
  {
    hide Flush, Mirror, RegistryOk, StoredPoints, PointsFor, Open, FlushedSeries, FlushedDirectory, RotatedId, BufferOf,
         DiscoverIds, PointsOfIds, Find, Seen;
    var m1, s := Flush(m, i).0, m.series[i];
    RegistryAt(m, i);
    FlushGoesBeyond(m, i);
    BlockBeyond(s, m.dirs[s.name]);
    BuffersBeyond(m, m1, i);
    BuffersFit(m);
    SeenBeyond(m, m1, i);
    WholeFile(m1);
    SameListed(m, m1, listing);
    OpenSees(m1.dirs, m1.log, [], listing);
    forall n | n in m.dirs
      ensures Seen(Crash(m1, listing), n) == if n == s.name then StoredPoints(m.dirs[s.name]) else Visible(m, n)
    {
      assert StoredPoints(m.dirs[s.name]) + [] == StoredPoints(m.dirs[s.name]);
      if n != s.name {
        RecognisedPoints(m, n);
      }
    }
  }

  lemma SameListed(m: Model, m1: Model, listing: seq<Name>)
    requires RegistryOk(m) && Lists(listing, m.dirs) && m1.dirs.Keys == m.dirs.Keys
    ensures Lists(listing, m1.dirs)
  {}

  /** The index in memory still leads everywhere. */
  lemma SeenBeyond(m: Model, m1: Model, i: nat)
    requires Inv(m) && i < |m.series| && ValidBlock(m.series[i].buffer) && FlushedBeyond(m, m1, i)
    requires forall n: Name :: Find(m1.series, n) == Find(m.series, n)
    requires var s := m.series[i];
             var f := FlushedSeries(s, DirOf(m.dirs, s.name));
             PointsOfIds(FlushedDirectory(s, DirOf(m.dirs, s.name)), f.segmentIds)
             == StoredPoints(DirOf(m.dirs, s.name)) + s.buffer && f.buffer == []
    ensures Visible(m, m.series[i].name) == StoredPoints(DirOf(m.dirs, m.series[i].name)) + m.series[i].buffer
    ensures forall n :: n in m.dirs ==> Seen(m1, n) == Visible(m, n)
  {
    hide SeriesOk, Mirror, StoredPoints, FlushedSeries, FlushedDirectory, PointsOfIds, Find, BufferEntries;
    var s := m.series[i];
    RegistryAt(m, i);
    assert StoredPoints(m.dirs[s.name]) + s.buffer + [] == StoredPoints(m.dirs[s.name]) + s.buffer;
    forall n | n in m.dirs
      ensures Seen(m1, n) == Visible(m, n)
    {
      if n != s.name {
        RegistryFinds(m);
        OtherPlace(m, i, n);
        SeenIsVisible(m, n);
      }
    }
  }

  lemma OtherPlace(m: Model, i: nat, n: Name)
    requires i < |m.series| && m.series[i].name != n && Find(m.series, n) < |m.series|
    ensures Find(m.series, n) != i
  {}

  // ---------------------------------------------------------------- such a state exists

  /** Blocks that fill a file so far that `b` does not fit behind them. */
  ghost function Filled(b: Block, bs: seq<Block>): (r: seq<Block>)
    requires bs != [] && (SegmentSize(bs) <= SEGMENT_MAX_BYTES || |bs| == 1)
    ensures r != [] && (SegmentSize(r) <= SEGMENT_MAX_BYTES || |r| == 1)
    ensures SegmentSize(r) + BlockSize(b) > SEGMENT_MAX_BYTES
    decreases SEGMENT_MAX_BYTES - SegmentSize(bs)
  {
    hide PayloadSize;
    if SegmentSize(bs) + BlockSize(b) > SEGMENT_MAX_BYTES then bs
    else
      assert (bs + [b])[..|bs|] == bs;
      Filled(b, bs + [b])
  }

  /** A full file with the largest id, and one more point in the buffer and in the log. */
  ghost function LastId(name: Name, p: Point): Model {
    assert SegmentSize([[p]]) <= SEGMENT_MAX_BYTES || |[[p]]| == 1;
    var dir: Directory := map[MAX_SEGMENT_ID := Filled([p], [[p]])];
    var s := Rebuild(Series(name, 1, 1, [], [], [p]), dir);
    Model([PointV3(name, p)], [], [], 0, map[name := dir], Strict, [s], 1, 0, false)
  }

  /** The largest id can be reached: this state is consistent, and its next flush goes beyond. */
  lemma LastIdExists(name: Name, p: Point)
    ensures var m := LastId(name, p);
            && Inv(m) && TearOk(m) && m.quota == 0 && Lists([name], m.dirs)
            && |m.series| == 1 && m.series[0].name == name && m.series[0].buffer == [p] && Exhausted(m, 0)
  {
    hide SegmentSize, BlockSize, Filled, SortedIds, IndexOfIds, PointsFor;
    var m := LastId(name, p);
    var dir: Directory := m.dirs[name];
    var full := dir[MAX_SEGMENT_ID];
    assert FilesOk(dir);
    RebuildOk(Series(name, 1, 1, [], [], [p]), dir);
    assert dir.Keys == {MAX_SEGMENT_ID};
    OnlyId(MAX_SEGMENT_ID);
    NonEmptySegment(full);
    LastMirror(name, p);
    hide Rebuild, DiscoverIds;
  }

  lemma OnlyId(id: nat)
    ensures SortedIds({id}) == [id]
  {
    assert forall x :: x in [id] <==> x in {id};
    SortedIdsUnique([id], {id});
  }

  lemma LastMirror(name: Name, p: Point)
    ensures Mirror(LastId(name, p))
  {
    hide Filled, DiscoverIds, IndexOfIds;
    var m := LastId(name, p);
    forall n: Name
      ensures PointsFor(Journal(m), n) == BufferOf(m.series, n)
    {
      PointsForOne(PointV3(name, p), n);
      assert m.log + [] == m.log;
    }
  }

  /** An accepted, logged and flushed point that no reader finds after a restart. */
  lemma SixDigitsLosePoints(name: Name, p: Point)
    ensures var m := LastId(name, p);
            && Inv(m) && Flush(m, 0).1 == Ok
            && Visible(m, name) == Seen(Crash(Flush(m, 0).0, [name]), name) + [p]
  {
    hide Inv, LastId, Flush, Crash, Seen, Visible, Lists, Exhausted, StoredPoints;
    LastIdExists(name, p);
    PastSixDigits(LastId(name, p), 0, [name]);
    NameListed(LastId(name, p).dirs, name);
  }

  lemma NameListed(dirs: map<Name, Directory>, name: Name)
    requires Lists([name], dirs)
    ensures name in dirs
  {
    assert name in [name];
  }
}
