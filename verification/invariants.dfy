/** What every step of the engine keeps, and what it does to the points a reader sees. */
module Invariants {
  import opened Wire
  import opened Config
  import opened Codec
  import opened Segments
  import opened WalFormat
  import opened State
  import opened Quota
  import opened Engine

  // ---------------------------------------------------------------- the invariant

  function BufferOf(series: seq<Series>, name: Name): seq<Point> {
    var i := Find(series, name);
    if i < |series| then series[i].buffer else []
  }

  /** The points of a series: its blocks in segment and file order, then its buffer. */
  ghost function Visible(m: Model, name: Name): seq<Point> {
    StoredPoints(DirOf(m.dirs, name)) + BufferOf(m.series, name)
  }

  /** For every series, known or not, the journal holds exactly the buffered points, in order. */
  ghost predicate Mirror(m: Model) {
    && AllWellFormed(Journal(m))
    && forall n: Name :: PointsFor(Journal(m), n) == BufferOf(m.series, n)
  }

  ghost predicate Inv(m: Model) {
    && RegistryOk(m)
    && Mirror(m)
    && (m.durability.Strict? ==> m.pending == [])
  }

  ghost predicate SameVisible(m: Model, m': Model) {
    m'.dirs.Keys == m.dirs.Keys && forall n: Name :: Visible(m', n) == Visible(m, n)
  }

  /** The registry has the same series in the same places, and the settings are the same. */
  ghost predicate SameShape(m: Model, m': Model) {
    && m'.dirs.Keys == m.dirs.Keys
    && |m'.series| == |m.series|
    && (forall i :: 0 <= i < |m.series| ==> m'.series[i].name == m.series[i].name)
    && m'.durability == m.durability && m'.quota == m.quota
  }

  /** Room for one more segment id in the six digits of a file name. */
  predicate Room(m: Model, i: nat)
    requires i < |m.series|
  {
    m.series[i].activeId < MAX_SEGMENT_ID
  }

  predicate AllRoom(m: Model) {
    forall i :: 0 <= i < |m.series| ==> Room(m, i)
  }

  // ---------------------------------------------------------------- registry bookkeeping

  lemma RegistryAt(m: Model, i: nat)
    requires RegistryOk(m) && i < |m.series|
    ensures m.series[i].name in m.dirs && SeriesOk(m.series[i], m.dirs[m.series[i].name])
    ensures Find(m.series, m.series[i].name) == i
    ensures BufferOf(m.series, m.series[i].name) == m.series[i].buffer
  {
    hide SeriesOk;
    FindAt(m.series, i);
  }

  lemma {:induction false} FindSameNames(a: seq<Series>, b: seq<Series>, name: Name)
    requires |a| == |b| && forall i :: 0 <= i < |a| ==> a[i].name == b[i].name
    ensures Find(a, name) == Find(b, name)
  {
    var i, j := Find(a, name), Find(b, name);
    assert i < |a| ==> b[i].name == a[i].name;
    assert j < |b| ==> a[j].name == b[j].name;
  }

  lemma DistinctSameNames(a: seq<Series>, b: seq<Series>)
    requires |a| == |b| && forall i :: 0 <= i < |a| ==> a[i].name == b[i].name
    requires DistinctNames(a)
    ensures DistinctNames(b)
  {}

  /** Only series `i` and its directory differ, and the two agree with each other. */
  ghost predicate Replaced(m: Model, m': Model, i: nat)
    requires i < |m.series|
  {
    var name := m.series[i].name;
    && |m'.series| == |m.series| && m'.series == m.series[i := m'.series[i]]
    && m'.series[i].name == name && name in m'.dirs && m'.dirs == m.dirs[name := m'.dirs[name]]
    && SeriesOk(m'.series[i], m'.dirs[name])
  }

  lemma ReplacedNames(m: Model, m': Model, i: nat)
    requires RegistryOk(m) && i < |m.series| && Replaced(m, m', i)
    ensures DistinctNames(m'.series) && m'.dirs.Keys == m.dirs.Keys
    ensures forall n: Name :: Find(m'.series, n) == Find(m.series, n)
  {
    hide SeriesOk;
    DistinctSameNames(m.series, m'.series);
    forall n: Name
      ensures Find(m'.series, n) == Find(m.series, n)
    {
      FindSameNames(m.series, m'.series, n);
    }
    hide Find;
    assert m.series[i].name in m.dirs;
  }

  lemma OtherName(series: seq<Series>, i: nat, j: nat)
    requires DistinctNames(series) && i < |series| && j < |series| && i != j
    ensures series[i].name != series[j].name
  {
    assert i < j || j < i;
  }

  /** Replacing one series record and the directory behind it by a consistent pair keeps the registry consistent. */
  lemma ReplaceSeries(m: Model, m': Model, i: nat)
    requires RegistryOk(m) && i < |m.series| && Replaced(m, m', i)
    ensures RegistryOk(m')
    ensures forall n: Name :: BufferOf(m'.series, n) ==
                        if n == m.series[i].name then m'.series[i].buffer else BufferOf(m.series, n)
    ensures forall n: Name :: Visible(m', n) ==
                        if n == m.series[i].name then StoredPoints(m'.dirs[n]) + m'.series[i].buffer else Visible(m, n)
  {
    hide SeriesOk, StoredPoints, Find;
    ReplacedNames(m, m', i);
    FindAt(m.series, i);
    forall j | 0 <= j < |m'.series|
      ensures m'.series[j].name in m'.dirs && SeriesOk(m'.series[j], m'.dirs[m'.series[j].name])
    {
      if j != i {
        OtherName(m.series, i, j);
      }
    }
    forall n: Name
      ensures BufferOf(m'.series, n) ==
              if n == m.series[i].name then m'.series[i].buffer else BufferOf(m.series, n)
    {}
    hide BufferOf;
  }

  // ---------------------------------------------------------------- one flush

  lemma IndexOfPush(id: nat, bs: seq<Block>, b: Block)
    ensures IndexOf(id, bs + [b]) == IndexOf(id, bs) + [EntryFor(id, SegmentSize(bs), b)]
    ensures Flatten(bs + [b]) == Flatten(bs) + b
    ensures SegmentSize(bs + [b]) == SegmentSize(bs) + BlockSize(b)
  {
    hide EntryFor, BlockSize;
    assert (bs + [b])[..|bs|] == bs && (bs + [b])[|bs|] == b;
  }

  lemma IdsPush(dir: Directory, ids: seq<nat>, id: nat)
    ensures IndexOfIds(dir, ids + [id]) == IndexOfIds(dir, ids) + IndexOf(id, Blocks(dir, id))
    ensures PointsOfIds(dir, ids + [id]) == PointsOfIds(dir, ids) + Flatten(Blocks(dir, id))
  {
    hide IndexOf, Flatten, Blocks;
    assert (ids + [id])[..|ids|] == ids && (ids + [id])[|ids|] == id;
  }

  lemma LastBlockAdded(dir: Directory, init: seq<nat>, id: nat, b: Block)
    requires id !in init
    ensures var dir' := dir[id := Blocks(dir, id) + [b]];
            && IndexOfIds(dir', init + [id])
               == IndexOfIds(dir, init) + IndexOf(id, Blocks(dir, id)) + [EntryFor(id, SegmentSize(Blocks(dir, id)), b)]
            && PointsOfIds(dir', init + [id]) == PointsOfIds(dir, init) + Flatten(Blocks(dir, id)) + b
  {
    var dir' := dir[id := Blocks(dir, id) + [b]];
    forall x | x in init
      ensures Blocks(dir, x) == Blocks(dir', x)
    {}
    SameFiles(dir, dir', init);
    IdsPush(dir', init, id);
    IndexOfPush(id, Blocks(dir, id), b);
    hide IndexOfIds, PointsOfIds, IndexOf, Flatten, EntryFor, SegmentSize;
    Associative(IndexOfIds(dir, init), IndexOf(id, Blocks(dir, id)), [EntryFor(id, SegmentSize(Blocks(dir, id)), b)]);
    Associative(PointsOfIds(dir, init), Flatten(Blocks(dir, id)), b);
  }

  lemma FilesOkFlushed(s: Series, dir: Directory)
    requires SeriesOk(s, dir) && ValidBlock(s.buffer)
    requires RotatedId(dir, s.activeId, BlockSize(s.buffer)) <= MAX_SEGMENT_ID
    ensures FilesOk(FlushedDirectory(s, dir))
  {
    hide BlockSize, IndexOfIds, SortedIds, SegmentSize;
    var id := RotatedId(dir, s.activeId, BlockSize(s.buffer));
    var held := Blocks(dir, id);
    RotatedFits(s, dir);
    ActiveIsMax(s, dir);
    hide SeriesOk, RotatedId;
    forall k | k in dir && k != id
      ensures FlushedDirectory(s, dir)[k] == dir[k]
    {}
  }

  /** The file a block goes to stays within the size limit, or the block is alone in it. */
  lemma RotatedFits(s: Series, dir: Directory)
    requires SeriesOk(s, dir) && ValidBlock(s.buffer)
    ensures var id := RotatedId(dir, s.activeId, BlockSize(s.buffer));
            && id >= 1
            && var held := Blocks(dir, id) + [s.buffer];
               SegmentSize(held) <= SEGMENT_MAX_BYTES || |held| == 1
  {
    hide BlockSize, IndexOfIds, SortedIds, SegmentSize, FilesOk;
    var id := RotatedId(dir, s.activeId, BlockSize(s.buffer));
    var held := Blocks(dir, id);
    IndexOfPush(id, held, s.buffer);
    ActiveIsMax(s, dir);
    if id in dir {
      FileAt(s, dir, id);
      NonEmptySegment(held);
    }
    hide SeriesOk;
  }

  lemma FileAt(s: Series, dir: Directory, id: nat)
    requires SeriesOk(s, dir) && id in dir
    ensures 1 <= id <= MAX_SEGMENT_ID && dir[id] != [] && id <= s.activeId
  {
    hide SegmentSize, IndexOfIds;
    ActiveIsMax(s, dir);
  }

  /**
   * A flush turns the buffer into the last block on disk: the index kept incrementally is again what a scan
   * would produce, and the stored points grow by exactly the buffer.
   */
  lemma FlushedOk(s: Series, dir: Directory)
    requires SeriesOk(s, dir) && ValidBlock(s.buffer)
    requires RotatedId(dir, s.activeId, BlockSize(s.buffer)) <= MAX_SEGMENT_ID
    ensures SeriesOk(FlushedSeries(s, dir), FlushedDirectory(s, dir))
    ensures StoredPoints(FlushedDirectory(s, dir)) == StoredPoints(dir) + s.buffer
    ensures s.activeId <= FlushedSeries(s, dir).activeId <= s.activeId + 1
  {
    hide BlockSize, IndexOfIds, PointsOfIds, FilesOk, EntryFor, IndexOf, Flatten, SegmentSize;
    var id := RotatedId(dir, s.activeId, BlockSize(s.buffer));
    var ids := s.segmentIds;
    FilesOkFlushed(s, dir);
    ActiveIsMax(s, dir);
    if id in dir {
      FlushedInPlace(s, dir, id);
    } else {
      FlushedInNewFile(s, dir, id);
    }
  }

  /**
   * Where a block goes. It becomes the last one of the active file, if that exists and its bytes and those of the block
   * are together within the size limit, or if there is no active file yet. Otherwise it becomes the only one of the
   * next file, which is new.
   */
  ghost predicate Placed(dir: Directory, activeId: nat, ps: seq<Point>, dir': Directory, activeId': nat) {
    && ValidBlock(ps) && dir' == dir[activeId' := Blocks(dir, activeId') + [ps]]
    && if activeId !in dir then activeId' == activeId
       else if |SegmentBytes(dir[activeId])| + |BlockBytes(ps)| <= SEGMENT_MAX_BYTES then
         activeId' == activeId && dir'.Keys == dir.Keys
       else activeId' == activeId + 1 && activeId' !in dir && dir'.Keys == dir.Keys + {activeId'}
  }

  lemma BytesCounted(bs: seq<Block>, ps: seq<Point>)
    requires ValidBlock(ps)
    ensures |SegmentBytes(bs)| == SegmentSize(bs) && |BlockBytes(ps)| == BlockSize(ps)
  {
    hide SegmentSize, BlockSize;
  }

  /** A flush puts the buffer where it belongs. */
  lemma FlushedPlaces(s: Series, dir: Directory)
    requires SeriesOk(s, dir) && ValidBlock(s.buffer)
    ensures Placed(dir, s.activeId, s.buffer, FlushedDirectory(s, dir), FlushedSeries(s, dir).activeId)
  {
    hide BlockSize, IndexOfIds, SortedIds, SegmentSize, EntryFor, SegmentBytes, BlockBytes;
    ActiveIsMax(s, dir);
    BytesCounted(Blocks(dir, s.activeId), s.buffer);
    if s.activeId in dir {
      FileAt(s, dir, s.activeId);
      NonEmptySegment(dir[s.activeId]);
    } else {
      EmptyFile(dir, s.activeId);
    }
    var id := RotatedId(dir, s.activeId, BlockSize(s.buffer));
    KeysWith(dir, id, Blocks(dir, id) + [s.buffer]);
    hide SeriesOk;
  }

  lemma KeysWith(dir: Directory, id: nat, bs: seq<Block>)
    ensures dir[id := bs].Keys == if id in dir then dir.Keys else dir.Keys + {id}
  {
    assert id in dir ==> dir.Keys + {id} == dir.Keys;
  }

  /** With the buffer as the last block of file `id`, the listed files, the index and the stored points are right. */
  ghost predicate BlockListed(s: Series, dir: Directory, id: nat, ids: seq<nat>)
    requires ValidBlock(s.buffer)
  {
    var dir' := dir[id := Blocks(dir, id) + [s.buffer]];
    && ids == SortedIds(dir'.Keys)
    && s.index + [EntryFor(id, SegmentSize(Blocks(dir, id)), s.buffer)] == IndexOfIds(dir', ids)
    && StoredPoints(dir') == StoredPoints(dir) + s.buffer
  }

  lemma FlushedInPlace(s: Series, dir: Directory, id: nat)
    requires SeriesOk(s, dir) && ValidBlock(s.buffer) && id in dir
    requires id == s.activeId || id == s.activeId + 1
    ensures id == s.activeId && id in s.segmentIds && BlockListed(s, dir, id, s.segmentIds)
  {
    hide IndexOfIds, PointsOfIds, FilesOk, EntryFor, IndexOf, Flatten, SegmentSize;
    ActiveIsMax(s, dir);
    assert id == MaxId(dir.Keys);
    var ids, dir' := s.segmentIds, dir[id := Blocks(dir, id) + [s.buffer]];
    assert dir'.Keys == dir.Keys;
    var init := SortedIds(dir.Keys - {id});
    assert ids == init + [id] && id !in init;
    hide SortedIds;
    LastBlockAdded(dir, init, id, s.buffer);
    IdsPush(dir, init, id);
  }

  lemma NewIdIsLast(s: Series, dir: Directory, id: nat)
    requires SeriesOk(s, dir) && id !in dir && (id == s.activeId || id == s.activeId + 1)
    ensures SortedIds(dir.Keys + {id}) == s.segmentIds + [id] && id !in s.segmentIds
  {
    hide IndexOfIds, FilesOk;
    ActiveIsMax(s, dir);
    SortedIdsPush(dir.Keys, id);
    hide SortedIds;
  }

  lemma FlushedInNewFile(s: Series, dir: Directory, id: nat)
    requires SeriesOk(s, dir) && ValidBlock(s.buffer) && id !in dir
    requires id == s.activeId || id == s.activeId + 1
    ensures id !in s.segmentIds && BlockListed(s, dir, id, s.segmentIds + [id])
  {
    hide IndexOfIds, PointsOfIds, FilesOk, EntryFor, IndexOf, Flatten, SegmentSize, SortedIds, Blocks;
    var ids, dir' := s.segmentIds, dir[id := Blocks(dir, id) + [s.buffer]];
    assert dir'.Keys == dir.Keys + {id};
    NewIdIsLast(s, dir, id);
    LastBlockAdded(dir, ids, id, s.buffer);
    EmptyFile(dir, id);
    assert IndexOfIds(dir, ids) + [] == IndexOfIds(dir, ids);
    assert PointsOfIds(dir, ids) + [] == PointsOfIds(dir, ids);
  }

  lemma EmptyFile(dir: Directory, id: nat)
    requires id !in dir
    ensures IndexOf(id, Blocks(dir, id)) == [] && Flatten(Blocks(dir, id)) == [] && SegmentSize(Blocks(dir, id)) == 0
  {}

  /** What `WriteBlock` leaves alone, and what it does to its series. */
  ghost predicate BlockWritten(m: Model, m': Model, i: nat)
    requires i < |m.series| && m.series[i].name in m.dirs
  {
    && m' == m.(log := m'.log, pending := m'.pending, dirs := m'.dirs, series := m'.series)
    && Journal(m') == Journal(m)
    && Replaced(m, m', i)
    && m'.series[i].buffer == []
    && m.series[i].activeId <= m'.series[i].activeId <= m.series[i].activeId + 1
    && (if m.series[i].buffer == [] then m' == m
        else
          && m'.pending == []
          && Placed(m.dirs[m.series[i].name], m.series[i].activeId, m.series[i].buffer,
                    m'.dirs[m.series[i].name], m'.series[i].activeId))
  }

  lemma WriteBlockWrites(m: Model, i: nat)
    requires RegistryOk(m) && i < |m.series| && Room(m, i)
    ensures m.series[i].name in m.dirs && BlockWritten(m, WriteBlock(m, i), i)
    ensures var name := m.series[i].name;
            StoredPoints(WriteBlock(m, i).dirs[name]) == StoredPoints(m.dirs[name]) + m.series[i].buffer
  {
    hide RegistryOk, SeriesOk, StoredPoints, FlushedSeries, FlushedDirectory, Placed;
    RegistryAt(m, i);
    var s := m.series[i];
    var dir := m.dirs[s.name];
    BufferBound(s, dir);
    if ValidBlock(s.buffer) {
      FlushedOk(s, dir);
      FlushedPlaces(s, dir);
      FlushedRecord(s, dir);
    } else {
      assert StoredPoints(dir) + [] == StoredPoints(dir);
      assert m.dirs == m.dirs[s.name := dir];
    }
  }

  /** Writing a block moves points from the buffer of one series to its disk and changes no one's view. */
  lemma WriteBlockOk(m: Model, i: nat)
    requires RegistryOk(m) && i < |m.series| && Room(m, i)
    ensures m.series[i].name in m.dirs
    ensures var m' := WriteBlock(m, i);
            RegistryOk(m') && SameShape(m, m') && SameVisible(m, m') && BlockWritten(m, m', i)
  {
    hide RegistryOk, SeriesOk, StoredPoints, WriteBlock, Find, Placed;
    RegistryAt(m, i);
    WriteBlockWrites(m, i);
    var s, m' := m.series[i], WriteBlock(m, i);
    ReplaceSeries(m, m', i);
    assert m'.dirs.Keys == m.dirs.Keys;
    assert StoredPoints(m'.dirs[s.name]) + [] == StoredPoints(m'.dirs[s.name]);
    hide BufferOf;
  }

  lemma FlushedRecord(s: Series, dir: Directory)
    requires ValidBlock(s.buffer)
    ensures FlushedSeries(s, dir).name == s.name && FlushedSeries(s, dir).buffer == []
  {}

  lemma BufferBound(s: Series, dir: Directory)
    requires SeriesOk(s, dir)
    ensures |s.buffer| <= BLOCK_MAX_POINTS && (!ValidBlock(s.buffer) ==> s.buffer == [])
  {}

  // ---------------------------------------------------------------- log truncation and quota

  lemma TruncateMirrors(m: Model)
    requires DistinctNames(m.series)
    ensures Mirror(TruncateLog(m))
  {
    var m' := TruncateLog(m);
    BufferEntriesWellFormed(m.series);
    assert Journal(m') == BufferEntries(m.series);
    forall n: Name
      ensures PointsFor(Journal(m'), n) == BufferOf(m'.series, n)
    {
      BufferEntriesMirror(m.series, n);
    }
  }

  lemma RegistryIgnoresLog(m: Model, m': Model)
    requires m' == m.(log := m'.log, pending := m'.pending, torn := m'.torn, kept := m'.kept)
    ensures RegistryOk(m) ==> RegistryOk(m')
    ensures SameVisible(m, m') && SameShape(m, m')
  {
    hide SeriesOk, StoredPoints, Find;
  }

  lemma SameBuffers(m: Model, m': Model)
    requires SameSeries(m, m')
    ensures forall n: Name :: BufferOf(m'.series, n) == BufferOf(m.series, n)
  {
    forall n: Name
      ensures BufferOf(m'.series, n) == BufferOf(m.series, n)
    {
      FindSameNames(m.series, m'.series, n);
    }
  }

  /** Quota cleanup keeps the invariant, whatever it deletes; with the quota disabled it deletes nothing. */
  lemma EnforceOk(m: Model)
    requires Inv(m)
    ensures Inv(Enforce(m).0) && SameShape(m, Enforce(m).0) && SameSeries(m, Enforce(m).0)
    ensures m.quota == 0 ==> Enforce(m).1 == Ok && SameVisible(m, Enforce(m).0)
  {
    hide RegistryOk, AllWellFormed, Visible, PointsFor, BufferOf;
    QuotaIsSafe(m);
    var m' := Enforce(m).0;
    SameBuffers(m, m');
    if m.quota == 0 {
      FlagInvisible(m, false);
    }
    hide Enforce;
  }

  lemma FlagInvisible(m: Model, flag: bool)
    ensures SameVisible(m, m.(exceeded := flag))
  {}

  lemma VisibleTransitive(a: Model, b: Model, c: Model)
    requires SameVisible(a, b) && SameVisible(b, c)
    ensures SameVisible(a, c)
  {
    hide Visible;
  }

  lemma ShapeTransitive(a: Model, b: Model, c: Model)
    requires SameShape(a, b) && SameShape(b, c)
    ensures SameShape(a, c)
  {}

  /** Truncation and cleanup after blocks were written. */
  lemma SettleOk(m: Model)
    requires RegistryOk(m)
    ensures var (m', st) := Enforce(TruncateLog(m));
            && Inv(m') && SameShape(m, m') && SameSeries(m, m') && m'.log == BufferEntries(m.series) && m'.pending == []
            && m'.torn == [] && m'.kept == 0
            && (m.quota == 0 ==> st == Ok && SameVisible(m, m'))
  {
    hide RegistryOk, SameVisible, Mirror;
    var t := TruncateLog(m);
    RegistryIgnoresLog(m, t);
    TruncateMirrors(m) by {
      RegistryNames(m);
    }
    EnforceOk(t);
    QuotaIsSafe(t);
    if m.quota == 0 {
      VisibleTransitive(m, t, Enforce(t).0);
    }
    hide Enforce;
  }

  lemma RegistryNames(m: Model)
    requires RegistryOk(m)
    ensures DistinctNames(m.series)
  {}

  /** What a flush guarantees about every series, and with the quota disabled about every reader's view. */
  ghost predicate Flushed(m: Model, m': Model, st: Status, i: nat)
    requires i < |m.series|
  {
    && Inv(m') && SameShape(m, m')
    && m'.series[i].buffer == []
    && m.series[i].activeId <= m'.series[i].activeId <= m.series[i].activeId + 1
    && (forall j :: 0 <= j < |m.series| && j != i ==>
          m'.series[j].buffer == m.series[j].buffer && m'.series[j].activeId == m.series[j].activeId)
    && (m.quota == 0 ==> st == Ok && SameVisible(m, m'))
  }

  /**
   * Where a flush puts the buffer of series `i`. A cleanup behind it may delete files, but not the one with the new
   * block, and without a quota it deletes none.
   */
  ghost predicate BlockPlaced(m: Model, m': Model, i: nat)
    requires i < |m.series| <= |m'.series|
  {
    var s, active := m.series[i], m'.series[i].activeId;
    var dir, dir' := DirOf(m.dirs, s.name), DirOf(m'.dirs, s.name);
    if s.buffer == [] then active == s.activeId && dir' == dir
    else
      && ValidBlock(s.buffer)
      && var grown := dir[active := Blocks(dir, active) + [s.buffer]];
      && Placed(dir, s.activeId, s.buffer, grown, active) && active in dir'
      && (forall id :: id in dir' ==> id in grown && dir'[id] == grown[id])
      && (m.quota == 0 ==> dir' == grown)
  }

  lemma FlushPlaces(m: Model, i: nat)
    requires Inv(m) && i < |m.series| && Room(m, i)
    ensures i < |Flush(m, i).0.series| && BlockPlaced(m, Flush(m, i).0, i)
  {
    hide RegistryOk, SameVisible, Mirror, WriteBlock, Replaced, Enforce, TruncateLog, SeriesOk, Placed;
    if m.series[i].buffer != [] {
      var w := WriteBlock(m, i);
      WriteBlockOk(m, i);
      SettledFiles(w);
      var name, s' := m.series[i].name, Flush(m, i).0.series[i];
      assert Placed(m.dirs[name], m.series[i].activeId, m.series[i].buffer, w.dirs[name], w.series[i].activeId);
      assert s'.activeId == w.series[i].activeId && w.series[i].name == name && DirOf(w.dirs, name) == w.dirs[name];
      hide KeepsActive;
      PlacedThenThinned(m.dirs[name], m.series[i].activeId, m.series[i].buffer, w.dirs[name], s'.activeId);
      KeptActive(w, Flush(m, i).0, i);
    }
  }

  lemma KeptActive(w: Model, m': Model, i: nat)
    requires KeepsActive(w, m') && i < |w.series|
    ensures var s := w.series[i]; s.activeId in DirOf(w.dirs, s.name) ==> s.activeId in DirOf(m'.dirs, s.name)
  {}

  lemma PlacedThenThinned(dir: Directory, activeId: nat, ps: seq<Point>, dir': Directory, activeId': nat)
    requires Placed(dir, activeId, ps, dir', activeId')
    ensures activeId' in dir' && ValidBlock(ps) && dir' == dir[activeId' := Blocks(dir, activeId') + [ps]]
  {}

  /** What truncation and cleanup leave of the files. */
  lemma SettledFiles(w: Model)
    requires RegistryOk(w)
    ensures var m' := Enforce(TruncateLog(w)).0;
            && SameSeries(w, m') && KeepsActive(w, m')
            && (w.quota == 0 ==> m'.dirs == w.dirs)
            && forall n :: n in w.dirs ==>
                 forall id :: id in m'.dirs[n] ==> id in w.dirs[n] && m'.dirs[n][id] == w.dirs[n][id]
  {
    hide RegistryOk, Enforce;
    RegistryIgnoresLog(w, TruncateLog(w));
    QuotaIsSafe(TruncateLog(w));
    EnforceThins(TruncateLog(w));
  }

  /** A flush empties one buffer, keeps the invariant, and puts the block where it belongs. */
  lemma FlushOk(m: Model, i: nat)
    requires Inv(m) && i < |m.series| && Room(m, i)
    ensures Flushed(m, Flush(m, i).0, Flush(m, i).1, i) && BlockPlaced(m, Flush(m, i).0, i)
  {
    hide RegistryOk, SameVisible, Mirror, WriteBlock, Replaced, Enforce, TruncateLog, BlockPlaced, Placed;
    FlushPlaces(m, i);
    if m.series[i].buffer == [] {
      SelfVisible(m);
    } else {
      var w := WriteBlock(m, i);
      WriteBlockOk(m, i);
      ReplacedOthers(m, w, i);
      hide Inv;
      SettleOk(w);
      FlushSettled(m, w, Flush(m, i).0, Flush(m, i).1, i);
    }
  }

  lemma FlushSettled(m: Model, w: Model, m': Model, st: Status, i: nat)
    requires i < |m.series| == |w.series| && SameShape(m, w) && SameVisible(m, w) && w.series[i].buffer == []
    requires m.series[i].activeId <= w.series[i].activeId <= m.series[i].activeId + 1
    requires forall j :: 0 <= j < |m.series| && j != i ==> w.series[j] == m.series[j]
    requires Inv(m') && SameShape(w, m') && SameSeries(w, m')
    requires w.quota == 0 ==> st == Ok && SameVisible(w, m')
    ensures Flushed(m, m', st, i)
  {
    hide Inv, SameVisible;
    ShapeTransitive(m, w, m');
    if m.quota == 0 {
      VisibleTransitive(m, w, m');
    }
  }

  lemma SelfVisible(m: Model)
    ensures SameVisible(m, m) && SameShape(m, m)
  {}

  lemma ReplacedOthers(m: Model, m': Model, i: nat)
    requires i < |m.series| && Replaced(m, m', i)
    ensures |m'.series| == |m.series| && forall j :: 0 <= j < |m.series| && j != i ==> m'.series[j] == m.series[j]
  {
    hide SeriesOk;
  }

  // ---------------------------------------------------------------- appends

  /** `es` records exactly `ps`, for series `i`. */
  ghost predicate Records(m: Model, i: nat, es: seq<Entry>, ps: seq<Point>)
    requires i < |m.series|
  {
    && AllWellFormed(es)
    && forall n: Name :: PointsFor(es, n) == if n == m.series[i].name then ps else []
  }

  /** Everyone sees what they saw before, and the readers of series `i` also see `ps` at the end. */
  ghost predicate Extended(m: Model, m': Model, i: nat, ps: seq<Point>)
    requires i < |m.series|
  {
    forall n: Name :: Visible(m', n) == Visible(m, n) + if n == m.series[i].name then ps else []
  }

  lemma PushReplaces(m: Model, m1: Model, i: nat, ps: seq<Point>)
    requires RegistryOk(m) && i < |m.series| && |m.series[i].buffer| + |ps| <= BLOCK_MAX_POINTS
    requires m1 == m.(log := m1.log, pending := m1.pending)
    ensures Replaced(m, Push(m1, i, ps), i) && SameShape(m, Push(m1, i, ps))
  {
    hide RegistryOk, SeriesOk;
    RegistryAt(m, i);
    PushedSeries(m.series[i], m.dirs[m.series[i].name], ps);
    assert m.dirs == m.dirs[m.series[i].name := m.dirs[m.series[i].name]];
  }

  ghost predicate BuffersExtended(m: Model, m': Model, i: nat, ps: seq<Point>)
    requires i < |m.series|
  {
    forall n: Name :: BufferOf(m'.series, n) == BufferOf(m.series, n) + if n == m.series[i].name then ps else []
  }

  lemma PushRegistry(m: Model, m1: Model, i: nat, ps: seq<Point>)
    requires RegistryOk(m) && i < |m.series| && |m.series[i].buffer| + |ps| <= BLOCK_MAX_POINTS
    requires m1 == m.(log := m1.log, pending := m1.pending)
    ensures var m' := Push(m1, i, ps);
            RegistryOk(m') && SameShape(m, m') && Extended(m, m', i, ps) && BuffersExtended(m, m', i, ps)
  {
    hide RegistryOk, Replaced, BufferOf;
    var m', name := Push(m1, i, ps), m.series[i].name;
    PushReplaces(m, m1, i, ps);
    RegistryAt(m, i);
    ReplaceSeries(m, m', i);
    hide SameShape;
    forall n: Name
      ensures BufferOf(m'.series, n) == BufferOf(m.series, n) + if n == name then ps else []
    {
      assert n != name ==> BufferOf(m.series, n) + [] == BufferOf(m.series, n);
    }
    PushVisible(m, m', i, ps);
  }

  lemma PushVisible(m: Model, m': Model, i: nat, ps: seq<Point>)
    requires i < |m.series| && m'.dirs == m.dirs && BuffersExtended(m, m', i, ps)
    ensures Extended(m, m', i, ps)
  {
    hide StoredPoints, BufferOf;
    forall n: Name
      ensures Visible(m', n) == Visible(m, n) + if n == m.series[i].name then ps else []
    {
      var more := if n == m.series[i].name then ps else [];
      assert BufferOf(m'.series, n) == BufferOf(m.series, n) + more;
      Associative(StoredPoints(DirOf(m.dirs, n)), BufferOf(m.series, n), more);
    }
  }

  /** Accepted points enter the journal and the buffer of their series together. */
  lemma PushLogged(m: Model, m1: Model, i: nat, es: seq<Entry>, ps: seq<Point>)
    requires Inv(m) && i < |m.series| && |m.series[i].buffer| + |ps| <= BLOCK_MAX_POINTS
    requires Logged(m, m1, es) && (m.durability.Strict? ==> m1.pending == []) && Records(m, i, es, ps)
    ensures var m' := Push(m1, i, ps);
            Inv(m') && SameShape(m, m') && Extended(m, m', i, ps)
  {
    hide RegistryOk, PointsFor, BufferOf, Extended;
    var m', name := Push(m1, i, ps), m.series[i].name;
    PushRegistry(m, m1, i, ps);
    forall n: Name
      ensures PointsFor(Journal(m'), n) == BufferOf(m'.series, n)
    {
      PointsForConcat(Journal(m), es, n);
      assert PointsFor(es, n) == if n == name then ps else [];
    }
    assert AllWellFormed(Journal(m'));
  }

  lemma PushedSeries(s: Series, dir: Directory, ps: seq<Point>)
    requires SeriesOk(s, dir) && |s.buffer| + |ps| <= BLOCK_MAX_POINTS
    ensures SeriesOk(s.(buffer := s.buffer + ps), dir)
  {
    hide FilesOk, SortedIds, IndexOfIds;
  }

  lemma MakeRoomOk(m: Model, i: nat)
    requires Inv(m) && i < |m.series|
    requires |m.series[i].buffer| == BLOCK_MAX_POINTS ==> Room(m, i)
    ensures var (m1, st) := MakeRoom(m, i);
            && Inv(m1) && SameShape(m, m1)
            && m1.series[i].activeId
               <= m.series[i].activeId + (if |m.series[i].buffer| == BLOCK_MAX_POINTS then 1 else 0)
            && |m1.series[i].buffer| < BLOCK_MAX_POINTS
            && (m.quota == 0 ==> st == Ok && SameVisible(m, m1))
            && (|m.series[i].buffer| < BLOCK_MAX_POINTS ==> m1 == m && st == Ok)
            && (|m.series[i].buffer| == BLOCK_MAX_POINTS ==> m1.series[i].buffer == [])
  {
    hide SameVisible, Mirror, Flush;
    BufferAtMost(m, i);
    if |m.series[i].buffer| == BLOCK_MAX_POINTS {
      FlushOk(m, i);
    } else {
      SelfVisible(m);
    }
    hide RegistryOk;
  }

  lemma BufferAtMost(m: Model, i: nat)
    requires RegistryOk(m) && i < |m.series|
    ensures |m.series[i].buffer| <= BLOCK_MAX_POINTS
  {
    RegistryAt(m, i);
    BufferBound(m.series[i], m.dirs[m.series[i].name]);
    hide RegistryOk;
  }

  lemma ExtendedAfter(m: Model, m1: Model, m2: Model, i: nat, ps: seq<Point>)
    requires i < |m.series| && SameShape(m, m1) && SameVisible(m, m1) && Extended(m1, m2, i, ps)
    ensures Extended(m, m2, i, ps)
  {
    hide Visible;
  }

  lemma ExtendedTwice(m: Model, m1: Model, m2: Model, i: nat, a: seq<Point>, b: seq<Point>)
    requires i < |m.series| && SameShape(m, m1) && Extended(m, m1, i, a) && Extended(m1, m2, i, b)
    ensures Extended(m, m2, i, a + b)
  {
    hide Visible;
    forall n: Name
      ensures Visible(m2, n) == Visible(m, n) + if n == m.series[i].name then a + b else []
    {
      assert Visible(m1, n) == Visible(m, n) + if n == m.series[i].name then a else [];
      assert Visible(m2, n) == Visible(m1, n) + if n == m.series[i].name then b else [];
      Associative(Visible(m, n), a, b);
    }
  }

  lemma PointRecorded(m: Model, i: nat, p: Point)
    requires i < |m.series|
    ensures Records(m, i, [PointV3(m.series[i].name, p)], [p])
  {
    forall n: Name
      ensures PointsFor([PointV3(m.series[i].name, p)], n) == if n == m.series[i].name then [p] else []
    {
      PointsForOne(PointV3(m.series[i].name, p), n);
    }
    hide PointsFor;
  }

  lemma BatchRecorded(m: Model, i: nat, ps: seq<Point>)
    requires i < |m.series|
    ensures Records(m, i, BatchEntries(m.series[i].name, ps), ps)
  {
    hide PointsFor;
    BatchEntriesPoints(m.series[i].name, ps, m.series[i].name);
    forall n: Name
      ensures PointsFor(BatchEntries(m.series[i].name, ps), n) == if n == m.series[i].name then ps else []
    {
      BatchEntriesPoints(m.series[i].name, ps, n);
    }
  }

  /** An append keeps the invariant under any quota; an accepted point is the new last point of its series. */
  lemma AppendPointOk(m: Model, i: nat, p: Point)
    requires Inv(m) && i < |m.series| && (|m.series[i].buffer| == BLOCK_MAX_POINTS ==> Room(m, i))
    ensures var (m', st) := AppendPoint(m, i, p);
            && Inv(m') && SameShape(m, m')
            && (st == Ok ==> Extended(MakeRoom(m, i).0, m', i, [p]))
            && (m.quota == 0 ==> st == Ok && Extended(m, m', i, [p]))
  {
    hide Inv, SameVisible, MakeRoom, Extended, WalAppendPoint, Records, Push;
    MakeRoomOk(m, i);
    var (m1, st) := MakeRoom(m, i);
    if st == Ok {
      var name := m1.series[i].name;
      PointRecorded(m1, i, p);
      PushLogged(m1, WalAppendPoint(m1, name, p), i, [PointV3(name, p)], [p]);
      ShapeTransitive(m, m1, AppendPoint(m, i, p).0);
      if m.quota == 0 {
        ExtendedAfter(m, m1, AppendPoint(m, i, p).0, i, [p]);
      }
    }
    hide SameShape;
  }

  /** Enough segment ids are left for the flushes that `n` more points can cause. */
  predicate Budget(m: Model, i: nat, n: nat)
    requires i < |m.series|
  {
    m.series[i].activeId + (|m.series[i].buffer| + n) / BLOCK_MAX_POINTS <= MAX_SEGMENT_ID
  }

  lemma BudgetArithmetic(active: nat, active': nat, buffer: nat, n: nat)
    requires buffer <= BLOCK_MAX_POINTS && n > 0 && active + (buffer + n) / BLOCK_MAX_POINTS <= MAX_SEGMENT_ID
    ensures buffer == BLOCK_MAX_POINTS ==> active < MAX_SEGMENT_ID
    ensures buffer == BLOCK_MAX_POINTS && active' <= active + 1 ==> active' + n / BLOCK_MAX_POINTS <= MAX_SEGMENT_ID
  {
    DivideOneMore(n, BLOCK_MAX_POINTS);
  }

  lemma {:induction false} DivideOneMore(n: nat, c: nat)
    requires c > 0
    ensures (c + n) / c == 1 + n / c
  {
    var q, r, s := n / c, n % c, (c + n) / c;
    assert n == q * c + r && c + n == s * c + (c + n) % c;
    var d := s - q - 1;
    assert d * c == s * c - q * c - c;
    SmallMultiple(d, c);
  }

  lemma MultipleAtLeast(d: nat, c: nat)
    requires d >= 1
    ensures d * c >= c
  {
    var rest: nat := d - 1;
    assert d * c == (rest + 1) * c == rest * c + c;
    assert rest * c >= 0;
  }

  lemma SmallMultiple(d: int, c: nat)
    requires c > 0 && d * c < c && d * c + c > 0
    ensures d == 0
  {
    assert -d * c == -(d * c);
    if d > 0 {
      MultipleAtLeast(d, c);
      assert false;
    }
    if d < 0 {
      MultipleAtLeast(-d, c);
      assert false;
    }
  }

  /** One round of a batch append: room is made, a chunk is logged and copied into the buffer. */
  lemma BatchRound(m: Model, i: nat, ps: seq<Point>)
    requires Inv(m) && i < |m.series| && ps != [] && Budget(m, i, |ps|)
    ensures var (m1, st) := MakeRoom(m, i);
            var n := Chunk(m1, i, |ps|);
            && Inv(m1) && SameShape(m, m1) && 0 < n <= |ps|
            && (m.quota == 0 ==> st == Ok && SameVisible(m, m1))
            && var m2 := Push(WalAppendBatch(m1, m1.series[i].name, ps[..n]), i, ps[..n]);
               Inv(m2) && SameShape(m, m2) && Extended(m1, m2, i, ps[..n]) && Budget(m2, i, |ps| - n)
  {
    hide Inv, SameVisible, MakeRoom, Extended, WalAppendBatch, BatchEntries, Records;
    BufferAtMost(m, i) by {
      InvRegistry(m);
    }
    BudgetArithmetic(m.series[i].activeId, MakeRoom(m, i).0.series[i].activeId, |m.series[i].buffer|, |ps|);
    MakeRoomOk(m, i);
    var (m1, st) := MakeRoom(m, i);
    var n := Chunk(m1, i, |ps|);
    var m2 := WalAppendBatch(m1, m1.series[i].name, ps[..n]);
    BatchRecorded(m1, i, ps[..n]);
    PushLogged(m1, m2, i, BatchEntries(m1.series[i].name, ps[..n]), ps[..n]);
    var m3 := Push(m2, i, ps[..n]);
    ShapeTransitive(m, m1, m3);
    assert m3.series[i].activeId == m1.series[i].activeId;
    assert |m3.series[i].buffer| + (|ps| - n) == |m1.series[i].buffer| + |ps|;
    hide SameShape;
  }

  lemma InvRegistry(m: Model)
    requires Inv(m)
    ensures RegistryOk(m)
  {}

  /** A batch of any length keeps the invariant; without a quota all of it is accepted, in order. */
  lemma {:induction false} AppendBatchOk(m: Model, i: nat, ps: seq<Point>)
    requires Inv(m) && i < |m.series| && Budget(m, i, |ps|)
    ensures var (m', st) := AppendBatch(m, i, ps);
            && Inv(m') && SameShape(m, m')
            && (m.quota == 0 ==> st == Ok && Extended(m, m', i, ps))
    decreases |ps|
  {
    hide Inv, SameVisible, MakeRoom, Extended, WalAppendBatch, Budget, Push, Chunk;
    if ps == [] {
      SelfVisible(m);
      ExtendedByNothing(m, i);
    } else {
      BatchRound(m, i, ps);
      var (m1, st) := MakeRoom(m, i);
      if st == Ok {
        var n := Chunk(m1, i, |ps|);
        var m2 := Push(WalAppendBatch(m1, m1.series[i].name, ps[..n]), i, ps[..n]);
        AppendBatchOk(m2, i, ps[n..]);
        var m' := AppendBatch(m2, i, ps[n..]).0;
        ShapeTransitive(m, m2, m');
        if m.quota == 0 {
          ExtendedAfter(m, m1, m2, i, ps[..n]);
          ExtendedTwice(m, m2, m', i, ps[..n], ps[n..]);
          assert ps[..n] + ps[n..] == ps;
        }
      }
    }
  }

  lemma ExtendedByNothing(m: Model, i: nat)
    requires i < |m.series|
    ensures Extended(m, m, i, [])
  {
    hide Visible;
    forall n: Name
      ensures Visible(m, n) == Visible(m, n) + []
    {}
  }

  // ---------------------------------------------------------------- flush all

  lemma {:induction false} WriteBlocksOk(m: Model, n: nat)
    requires RegistryOk(m) && AllRoom(m) && n <= |m.series|
    ensures var w := WriteBlocks(m, n);
            && RegistryOk(w) && SameShape(m, w) && SameVisible(m, w) && Journal(w) == Journal(m)
            && w == m.(log := w.log, pending := w.pending, dirs := w.dirs, series := w.series)
            && (forall j :: 0 <= j < n ==> w.series[j].buffer == [])
            && (forall j :: n <= j < |m.series| ==> w.series[j] == m.series[j])
            && (forall j :: 0 <= j < |m.series| ==>
                  m.series[j].activeId <= w.series[j].activeId <= m.series[j].activeId + 1)
            && (forall j :: 0 <= j < n && m.series[j].buffer != [] ==> w.pending == [])
            && (m.pending == [] ==> w.pending == [])
  {
    hide RegistryOk, SameVisible, WriteBlock, Replaced;
    if n == 0 {
      SelfVisible(m);
    } else {
      WriteBlocksOk(m, n - 1);
      var w := WriteBlocks(m, n - 1);
      assert Room(m, n - 1) && w.series[n - 1] == m.series[n - 1];
      WriteBlockOk(w, n - 1);
      ReplacedOthers(w, WriteBlock(w, n - 1), n - 1);
      ShapeTransitive(m, w, WriteBlock(w, n - 1));
      VisibleTransitive(m, w, WriteBlock(w, n - 1));
    }
  }

  lemma {:induction false} NothingBuffered(series: seq<Series>)
    requires forall j :: 0 <= j < |series| ==> series[j].buffer == []
    ensures BufferEntries(series) == []
  {
    if series != [] {
      NothingBuffered(series[..|series| - 1]);
    }
  }

  /** After flushing everything the log is empty and no buffer holds a point. */
  lemma FlushAllOk(m: Model)
    requires Inv(m) && AllRoom(m)
    ensures var (m', st) := FlushAll(m);
            && Inv(m') && SameShape(m, m') && m'.log == [] && m'.pending == [] && m'.torn == [] && m'.kept == 0
            && (forall j :: 0 <= j < |m'.series| ==> m'.series[j].buffer == [])
            && (m.quota == 0 ==> st == Ok && SameVisible(m, m'))
  {
    hide RegistryOk, SameVisible, Mirror, WriteBlocks;
    WriteBlocksOk(m, |m.series|);
    var w := WriteBlocks(m, |m.series|);
    SettleOk(w);
    NothingBuffered(w.series);
    var m' := FlushAll(m).0;
    ShapeTransitive(m, w, m');
    if m.quota == 0 {
      VisibleTransitive(m, w, m');
    }
    hide Enforce, TruncateLog, Inv;
  }

  // ---------------------------------------------------------------- create and delete

  lemma FindAppended(series: seq<Series>, s: Series, name: Name)
    ensures Find(series + [s], name) ==
            if Find(series, name) < |series| then Find(series, name)
            else if name == s.name then |series| else |series| + 1
  {
    var k, k' := Find(series, name), Find(series + [s], name);
    assert forall j :: 0 <= j < |series| ==> (series + [s])[j] == series[j];
    assert (series + [s])[|series|] == s;
    assert k < |series| ==> (series + [s])[k].name == name;
    assert k' < |series| ==> series[k'].name == name;
  }

  lemma RegisteredName(m: Model, name: Name)
    requires RegistryOk(m)
    ensures Find(m.series, name) < |m.series| <==> name in m.dirs
  {
    hide SeriesOk;
    var i := Find(m.series, name);
    assert i < |m.series| ==> m.series[i].name == name;
  }

  /** Creating a series adds an empty one and leaves the others alone. */
  lemma AddSeriesOk(m: Model, name: Name)
    requires Inv(m)
    ensures var m' := AddSeries(m, name);
            && Inv(m') && m'.dirs.Keys == m.dirs.Keys + {name}
            && (forall n: Name :: Visible(m', n) == Visible(m, n))
            && (Find(m.series, name) < |m.series| ==> m' == m)
            && m' == m.(dirs := m'.dirs, series := m'.series, nextGeneration := m'.nextGeneration)
            && (Find(m.series, name) == |m.series| ==>
                  Visible(m, name) == [] && name !in m.dirs)
  {
    hide SeriesOk, StoredPoints, PointsFor;
    if Find(m.series, name) < |m.series| {
      assert name in m.dirs;
    } else {
      NewSeriesOk(m, name);
    }
  }

  lemma NewSeriesOk(m: Model, name: Name)
    requires Inv(m) && Find(m.series, name) == |m.series|
    ensures name !in m.dirs
    ensures var m' := AddSeries(m, name);
            && Inv(m') && m'.dirs.Keys == m.dirs.Keys + {name}
            && m' == m.(dirs := m'.dirs, series := m'.series, nextGeneration := m'.nextGeneration)
            && (forall n: Name :: Visible(m', n) == Visible(m, n)) && Visible(m, name) == []
  {
    hide RegistryOk, StoredPoints, PointsFor, AddSeries, Find, BufferOf, AllWellFormed;
    RegisteredName(m, name);
    var m', s := AddSeries(m, name), NewSeries(m, name);
    AddedSeries(m, name);
    AddedBuffers(m, m', s);
    AppendedRegistry(m, m', s);
    EmptyDirectory();
    assert Journal(m') == Journal(m);
    hide Journal;
  }

  ghost function NewSeries(m: Model, name: Name): Series {
    Rebuild(Series(name, m.nextGeneration + 1, 1, [], [], []), map[])
  }

  lemma AddedSeries(m: Model, name: Name)
    requires Find(m.series, name) == |m.series| && name !in m.dirs
    ensures var s := NewSeries(m, name);
            && s.name == name && s.buffer == [] && SeriesOk(s, map[])
            && AddSeries(m, name) == m.(dirs := m.dirs[name := map[]], series := m.series + [s],
                                        nextGeneration := m.nextGeneration + 1)
  {
    RebuildOk(Series(name, m.nextGeneration + 1, 1, [], [], []), map[]);
    hide SortedIds, IndexOfIds, FilesOk, Find, DiscoverIds;
  }

  lemma AddedBuffers(m: Model, m': Model, s: Series)
    requires RegistryOk(m) && m'.series == m.series + [s] && s.buffer == [] && m'.dirs == m.dirs[s.name := map[]]
    requires Find(m.series, s.name) == |m.series|
    ensures BufferOf(m.series, s.name) == []
    ensures forall n: Name :: BufferOf(m'.series, n) == BufferOf(m.series, n)
    ensures forall n: Name :: n in m'.dirs ==> Find(m'.series, n) < |m'.series|
  {
    hide SeriesOk, Find, DistinctNames;
    forall n: Name
      ensures BufferOf(m'.series, n) == BufferOf(m.series, n)
      ensures n in m'.dirs ==> Find(m'.series, n) < |m'.series|
    {
      FindAppended(m.series, s, n);
    }
  }

  lemma EmptyDirectory()
    ensures StoredPoints(map[]) == []
  {
    var empty: Directory := map[];
    assert empty.Keys == {};
  }

  lemma AppendedRegistry(m: Model, m': Model, s: Series)
    requires RegistryOk(m) && m'.series == m.series + [s] && m'.dirs == m.dirs[s.name := map[]]
    requires s.name !in m.dirs && SeriesOk(s, map[])
    requires forall n: Name :: n in m'.dirs ==> Find(m'.series, n) < |m'.series|
    ensures RegistryOk(m')
  {
    hide SeriesOk, Find;
    forall j | 0 <= j < |m'.series|
      ensures m'.series[j].name in m'.dirs && SeriesOk(m'.series[j], m'.dirs[m'.series[j].name])
    {
      if j < |m.series| {
        assert m'.series[j] == m.series[j];
      }
    }
    forall i, j | 0 <= i < j < |m'.series|
      ensures m'.series[i].name != m'.series[j].name
    {
      if j == |m.series| {
        assert m.series[i].name in m.dirs;
      }
    }
  }

  lemma FindDropped(series: seq<Series>, i: nat, name: Name)
    requires DistinctNames(series) && i < |series|
    ensures var rest := series[..i] + series[i + 1..];
            && DistinctNames(rest)
            && (Find(rest, name) < |rest| <==> Find(series, name) < |series| && name != series[i].name)
  {
    var rest := series[..i] + series[i + 1..];
    assert forall j :: 0 <= j < |rest| ==> rest[j] == series[if j < i then j else j + 1];
    var k, k' := Find(series, name), Find(rest, name);
    if k < |series| && k != i {
      assert rest[if k < i then k else k - 1].name == name;
    }
    if k' < |rest| {
      var j := if k' < i then k' else k' + 1;
      assert series[j].name == name;
      FindAt(series, j);
      OtherName(series, i, j);
    }
  }

  lemma DroppedFinds(m: Model, i: nat)
    requires RegistryOk(m) && i < |m.series|
    ensures var m', name := DropSeries(m, i), m.series[i].name;
            && DistinctNames(m'.series)
            && forall n: Name :: n in m'.dirs ==> Find(m'.series, n) < |m'.series|
  {
    hide SeriesOk, Find;
    FindDropped(m.series, i, m.series[i].name);
    forall n: Name | n in DropSeries(m, i).dirs
      ensures Find(DropSeries(m, i).series, n) < |DropSeries(m, i).series|
    {
      FindDropped(m.series, i, n);
    }
    hide DistinctNames;
  }

  lemma DroppedRegistry(m: Model, i: nat)
    requires RegistryOk(m) && i < |m.series|
    ensures RegistryOk(DropSeries(m, i))
  {
    hide SeriesOk, Find;
    var m' := DropSeries(m, i);
    DroppedFinds(m, i);
    forall j | 0 <= j < |m'.series|
      ensures m'.series[j].name in m'.dirs && SeriesOk(m'.series[j], m'.dirs[m'.series[j].name])
    {
      var j' := if j < i then j else j + 1;
      assert m'.series[j] == m.series[j'];
      OtherName(m.series, i, j');
    }
    hide DropSeries;
  }

  /** Dropping a series from a fully flushed database removes it and nothing else. */
  lemma DropSeriesOk(m: Model, i: nat)
    requires Inv(m) && i < |m.series| && m.log == [] && m.pending == []
    requires forall j :: 0 <= j < |m.series| ==> m.series[j].buffer == []
    ensures var m', name := DropSeries(m, i), m.series[i].name;
            && Inv(m') && m'.dirs.Keys == m.dirs.Keys - {name}
            && forall n: Name :: n != name ==> Visible(m', n) == Visible(m, n)
  {
    hide SeriesOk, StoredPoints, PointsFor, RegistryOk;
    var m', name := DropSeries(m, i), m.series[i].name;
    DroppedRegistry(m, i);
    assert forall j :: 0 <= j < |m'.series| ==> m'.series[j] == m.series[if j < i then j else j + 1];
    assert forall n: Name :: BufferOf(m'.series, n) == [] && BufferOf(m.series, n) == [];
    assert Journal(m') == Journal(m) == [];
  }

  /** A deleted series is gone, no other series changes, and nothing in the log can bring it back. */
  lemma DeleteSeriesOk(m: Model, name: Name)
    requires Inv(m) && AllRoom(m)
    ensures var (m', st) := DeleteSeries(m, name);
            && Inv(m')
            && (st == NotFound <==> name !in m.dirs) && (st == NotFound ==> m' == m)
            && (st == Ok ==> m'.dirs.Keys == m.dirs.Keys - {name} && Journal(m') == [])
            && (m.quota == 0 && name in m.dirs ==>
                  st == Ok && forall n: Name :: n != name ==> Visible(m', n) == Visible(m, n))
  {
    hide SeriesOk, Visible, Mirror, Find, BufferOf, FlushAll, RegistryOk, DropSeries;
    var i := Find(m.series, name);
    RegisteredName(m, name);
    if i < |m.series| {
      FlushAllOk(m);
      var (m1, st) := FlushAll(m);
      if st == Ok {
        assert m1.series[i].name == name;
        DropSeriesOk(m1, i);
        DropsNothingElse(m1, i);
      }
      EnforceNeverNotFound(m);
    }
  }

  lemma DropsNothingElse(m: Model, i: nat)
    requires i < |m.series|
    ensures Journal(DropSeries(m, i)) == Journal(m)
  {}

  lemma EnforceNeverNotFound(m: Model)
    ensures FlushAll(m).1 != NotFound
  {}
}
