/** Deleting old data segment by segment (src/core/series_retention.c). */
module Retention {
  import opened Wire
  import opened Config
  import opened Codec
  import opened Points
  import opened Segments
  import opened WalFormat
  import opened State
  import opened Quota
  import opened Engine
  import opened Invariants

  /** Every point of the file is older than `t`. */
  predicate AllBefore(dir: Directory, id: nat, t: i64) {
    forall p :: p in Flatten(Blocks(dir, id)) ==> p.timestamp < t
  }

  lemma BoundExpires(dir: Directory, bounds: seq<Bound>, ids: seq<nat>, t: i64)
    requires forall id :: id in ids ==> Blocks(dir, id) != []
    requires bounds == BoundsOfFiles(dir, ids)
    ensures forall k :: 0 <= k < |ids| ==> bounds[k].id == ids[k] && (bounds[k].max < t <==> AllBefore(dir, ids[k], t))
  {
    hide BoundsOfFiles;
    forall k | 0 <= k < |ids|
      ensures bounds[k].max < t <==> AllBefore(dir, ids[k], t)
    {
      assert ids[k] in ids;
      SegmentMaxIsMax(Blocks(dir, ids[k]));
      hide Flatten, SegmentMax, Blocks;
    }
  }

  lemma ExpiredMembers(index: seq<IndexEntry>, ids: seq<nat>, t: i64)
    requires |Bounds(index)| == |ids| && forall k :: 0 <= k < |ids| ==> Bounds(index)[k].id == ids[k]
    ensures forall k :: 0 <= k < |ids| && Bounds(index)[k].max < t ==> ids[k] in Expired(index, t)
    ensures forall id :: id in Expired(index, t) ==>
              exists k :: 0 <= k < |ids| && ids[k] == id && Bounds(index)[k].max < t
  {
    hide Bounds;
    var bounds := Bounds(index);
    forall k | 0 <= k < |ids| && bounds[k].max < t
      ensures ids[k] in Expired(index, t)
    {
      assert bounds[k] in bounds;
    }
    forall id | id in Expired(index, t)
      ensures exists k :: 0 <= k < |ids| && ids[k] == id && bounds[k].max < t
    {
      var b :| b in bounds && b.max < t && b.id == id;
      var k :| 0 <= k < |bounds| && bounds[k] == b;
      assert ids[k] == id;
    }
  }

  /** Judged by the index alone, exactly the files whose points are all older than the threshold expire. */
  lemma ExpiredExact(s: Series, dir: Directory, t: i64)
    requires SeriesOk(s, dir)
    ensures forall id :: id in Expired(s.index, t) <==> id in dir && AllBefore(dir, id, t)
  {
    hide SeriesOk, Bounds, AllBefore, BoundsOfFiles, Blocks, Expired;
    var ids := s.segmentIds;
    IdsOfSeries(s, dir);
    SeriesBounds(s, dir);
    BoundExpires(dir, Bounds(s.index), ids, t);
    ExpiredMembers(s.index, ids, t);
    forall id | id in dir && AllBefore(dir, id, t)
      ensures id in Expired(s.index, t)
    {
      assert id in ids;
    }
  }

  lemma IdsOfSeries(s: Series, dir: Directory)
    requires SeriesOk(s, dir)
    ensures forall id :: id in s.segmentIds <==> id in dir
  {}

  /** Leaving files out leaves their points out and no others. */
  lemma {:induction false} KeptPoints(dir: Directory, ids: seq<nat>, gone: set<nat>, t: int)
    requires forall id, p :: id in ids && id in gone && p in Flatten(Blocks(dir, id)) ==> p.timestamp < t
    ensures Thinned(PointsOfIds(dir, ids), PointsOfIds(dir, Keep(ids, gone)), t)
  {
    hide Flatten, Blocks, Thinned;
    if ids == [] {
      ThinnedSame([], t);
    } else {
      var init, last := ids[..|ids| - 1], ids[|ids| - 1];
      assert last in ids;
      KeptPoints(dir, init, gone, t);
      var points, kept := Flatten(Blocks(dir, last)), Keep(init, gone);
      if last in gone {
        ThinnedAway(points, t);
        ThinnedConcat(PointsOfIds(dir, init), PointsOfIds(dir, kept), points, [], t);
        assert PointsOfIds(dir, kept) + [] == PointsOfIds(dir, kept) && kept + [] == kept;
      } else {
        IdsPush(dir, kept, last);
        ThinnedSame(points, t);
        ThinnedConcat(PointsOfIds(dir, init), PointsOfIds(dir, kept), points, points, t);
      }
    }
  }

  /** Deleting files leaves the points of the others, file by file, in the order they had. */
  lemma StoredWithout(dir: Directory, gone: set<nat>)
    ensures StoredPoints(dir - gone) == PointsOfIds(dir, Keep(SortedIds(dir.Keys), gone))
  {
    hide PointsOfIds;
    assert (dir - gone).Keys == dir.Keys - gone;
    SortedIdsWithout(dir.Keys, gone);
    var kept := SortedIds((dir - gone).Keys);
    forall id | id in kept
      ensures Blocks(dir - gone, id) == Blocks(dir, id)
    {
      assert id in (dir - gone).Keys;
    }
    hide SortedIds, Keep, Blocks;
    SameFiles(dir - gone, dir, kept);
  }

  /** What a retention call with threshold `t` does to series `i` once its buffer has been flushed into `m1`. */
  ghost predicate Retained(m1: Model, m': Model, i: nat, t: i64)
    requires i < |m1.series|
  {
    var name := m1.series[i].name;
    var dir, dir' := DirOf(m1.dirs, name), DirOf(m'.dirs, name);
    && (forall id :: id in dir' <==> id in dir && !AllBefore(dir, id, t))
    && (forall id :: id in dir' ==> dir'[id] == dir[id])
    && Thinned(Visible(m1, name), Visible(m', name), t)
    && (forall n: Name :: n != name ==> Visible(m', n) == Visible(m1, n))
    && BufferOf(m'.series, name) == []
  }

  lemma RetainedStored(s: Series, dir: Directory, t: i64)
    requires SeriesOk(s, dir)
    ensures Thinned(StoredPoints(dir), StoredPoints(dir - Expired(s.index, t)), t)
  {
    hide SeriesOk, PointsOfIds, Expired, Thinned, Keep;
    ExpiredExact(s, dir, t);
    StoredWithout(dir, Expired(s.index, t));
    KeptPoints(dir, SortedIds(dir.Keys), Expired(s.index, t), t);
    hide SortedIds;
  }

  lemma RebuiltReplaces(m1: Model, i: nat, gone: set<nat>)
    requires RegistryOk(m1) && i < |m1.series|
    ensures var s := m1.series[i];
            var dir := DirOf(m1.dirs, s.name) - gone;
            var m' := m1.(dirs := m1.dirs[s.name := dir], series := m1.series[i := Rebuild(s, dir)]);
            Replaced(m1, m', i) && SameShape(m1, m')
  {
    hide SeriesOk, RegistryOk, FilesOk;
    RegistryAt(m1, i);
    var s := m1.series[i];
    var dir := m1.dirs[s.name];
    SeriesFiles(s, dir);
    FilesOkWithout(dir, gone);
    BufferBound(s, dir);
    RebuildOk(s, dir - gone);
    var rebuilt := Rebuild(s, dir - gone);
    assert rebuilt.name == s.name && rebuilt.buffer == s.buffer;
    hide Rebuild;
  }

  /** The deletion itself, on a flushed series. */
  lemma DropExpired(m1: Model, i: nat, t: i64)
    requires Inv(m1) && i < |m1.series| && m1.series[i].buffer == []
    ensures var s := m1.series[i];
            var dir := DirOf(m1.dirs, s.name) - Expired(s.index, t);
            var m' := m1.(dirs := m1.dirs[s.name := dir], series := m1.series[i := Rebuild(s, dir)]);
            Inv(m') && SameShape(m1, m') && Retained(m1, m', i, t)
  {
    hide SeriesOk, StoredPoints, PointsFor, RegistryOk, AllBefore, BufferOf, Replaced, Expired, Thinned;
    RegistryAt(m1, i);
    var s := m1.series[i];
    var dir, gone := m1.dirs[s.name], Expired(s.index, t);
    var m' := m1.(dirs := m1.dirs[s.name := dir - gone], series := m1.series[i := Rebuild(s, dir - gone)]);
    RebuiltReplaces(m1, i, gone);
    ReplaceSeries(m1, m', i);
    assert m'.series[i].buffer == [];
    hide Rebuild, SameShape;
    forall n: Name
      ensures BufferOf(m'.series, n) == BufferOf(m1.series, n)
    {}
    assert Journal(m') == Journal(m1);
    ExpiredExact(s, dir, t);
    RetainedStored(s, dir, t);
    assert StoredPoints(dir) + [] == StoredPoints(dir) && StoredPoints(dir - gone) + [] == StoredPoints(dir - gone);
  }

  lemma SeriesFiles(s: Series, dir: Directory)
    requires SeriesOk(s, dir)
    ensures FilesOk(dir)
  {}

  lemma NothingExpired(m1: Model, i: nat, t: i64)
    requires Inv(m1) && i < |m1.series| && m1.series[i].buffer == [] && Expired(m1.series[i].index, t) == {}
    ensures Retained(m1, m1, i, t)
  {
    hide SeriesOk, StoredPoints, RegistryOk, AllBefore, Expired, Mirror, Thinned;
    RegistryAt(m1, i);
    ExpiredExact(m1.series[i], m1.dirs[m1.series[i].name], t);
    ThinnedSame(Visible(m1, m1.series[i].name), t);
    hide BufferOf;
  }

  /**
   * Retention deletes exactly the segments whose points are all older than the threshold. Points are only
   * left out, all of them older, the rest keeps its order, and the other series are untouched.
   */
  lemma DeleteBeforeOk(m: Model, i: nat, t: i64)
    requires Inv(m) && i < |m.series| && Room(m, i)
    ensures var (m', st) := DeleteBefore(m, i, t);
            var m1 := Flush(m, i).0;
            && Inv(m') && SameShape(m, m')
            && (st == Ok ==> Retained(m1, m', i, t))
            && (m.quota == 0 ==>
                  && st == Ok
                  && Thinned(Visible(m, m.series[i].name), Visible(m', m.series[i].name), t)
                  && forall n: Name :: n != m.series[i].name ==> Visible(m', n) == Visible(m, n))
  {
    hide Inv, Visible, Thinned, Flush, Expired, Rebuild, DirOf;
    FlushOk(m, i);
    var (m1, st) := Flush(m, i);
    var m' := DeleteBefore(m, i, t).0;
    if st == Ok {
      if Expired(m1.series[i].index, t) == {} {
        NothingExpired(m1, i, t);
      } else {
        DropExpired(m1, i, t);
        ShapeTransitive(m, m1, m');
      }
    }
  }
}
