/** The state of an open database above the byte level: segment directories, series records and the log. */
module State {
  import opened Wire
  import opened Config
  import opened Codec
  import opened Segments
  import opened WalFormat

  datatype Durability = Fast | Balanced | Strict

  datatype Status = Ok | NotFound | QuotaExceeded

  /** The segment files of one series: file id to the blocks it holds. */
  type Directory = map<nat, seq<Block>>

  datatype Series = Series(
    name: Name, generation: nat, activeId: nat, segmentIds: seq<nat>, index: seq<IndexEntry>, buffer: seq<Point>)

  /**
   * `log` holds the records of wal.log and `pending` those of the in-memory log buffer; `dirs` is the
   * series directory on disk. Everything else is lost when the process dies. A crash can leave `torn`, part of a
   * record, in wal.log; it then stands behind the first `kept` records and in front of those written since.
   */
  datatype Model = Model(
    log: seq<Entry>, pending: seq<Entry>, torn: seq<byte>, kept: nat, dirs: map<Name, Directory>,
    durability: Durability, series: seq<Series>, nextGeneration: nat, quota: nat, exceeded: bool)

  // ---------------------------------------------------------------- segment ids

  predicate Increasing(ids: seq<nat>) {
    forall i, j :: 0 <= i < j < |ids| ==> ids[i] < ids[j]
  }

  lemma {:induction false} MaxExists(s: set<nat>)
    requires s != {}
    ensures exists m :: m in s && forall x :: x in s ==> x <= m
  {
    var y :| y in s;
    if s != {y} {
      MaxExists(s - {y});
      var m :| m in s - {y} && forall x :: x in s - {y} ==> x <= m;
      var top := if m < y then y else m;
      forall x | x in s
        ensures x <= top
      {
        assert x == y || x in s - {y};
      }
      assert top in s;
    } else {
      assert forall x :: x in s ==> x <= y;
    }
  }

  ghost function MaxId(s: set<nat>): (m: nat)
    requires s != {}
    ensures m in s && forall x :: x in s ==> x <= m
  {
    MaxExists(s);
    var m :| m in s && forall x :: x in s ==> x <= m;
    m
  }

  /** The ids of a directory in increasing order. */
  ghost function SortedIds(s: set<nat>): (ids: seq<nat>)
    ensures Increasing(ids) && forall x :: x in ids <==> x in s
  {
    if s == {} then [] else SortedIds(s - {MaxId(s)}) + [MaxId(s)]
  }

  /** There is only one increasing listing of a set, so any sort of the file names gives `SortedIds`. */
  lemma {:induction false} SortedIdsUnique(ids: seq<nat>, s: set<nat>)
    requires Increasing(ids) && forall x :: x in ids <==> x in s
    ensures ids == SortedIds(s)
  {
    assert |ids| == 0 || ids[0] in s;
    if s != {} {
      var m, n := MaxId(s), |ids| - 1;
      assert m in ids;
      var k :| 0 <= k < |ids| && ids[k] == m;
      assert ids[n] in s;
      assert ids[n] <= m;
      assert ids[n] == m;
      var init := ids[..n];
      assert ids == init + [m];
      forall x
        ensures x in init <==> x in s - {m}
      {
        if x in init {
          var j :| 0 <= j < n && init[j] == x;
          assert ids[j] < ids[n] && ids[j] in ids;
        }
        if x in s - {m} {
          assert x in ids;
        }
      }
      SortedIdsUnique(init, s - {m});
    }
  }

  lemma SortedIdsPush(s: set<nat>, id: nat)
    requires forall x :: x in s ==> x < id
    ensures SortedIds(s + {id}) == SortedIds(s) + [id]
  {
    var ids := SortedIds(s) + [id];
    forall i, j | 0 <= i < j < |ids|
      ensures ids[i] < ids[j]
    {
      assert SortedIds(s)[i] in s;
    }
    SortedIdsUnique(ids, s + {id});
  }

  /** The ids outside `gone`, in the order they had. */
  function Keep(ids: seq<nat>, gone: set<nat>): seq<nat> {
    if ids == [] then []
    else Keep(ids[..|ids| - 1], gone) + if ids[|ids| - 1] in gone then [] else [ids[|ids| - 1]]
  }

  lemma {:induction false} KeepProperties(ids: seq<nat>, gone: set<nat>)
    requires Increasing(ids)
    ensures Increasing(Keep(ids, gone)) && forall x :: x in Keep(ids, gone) <==> x in ids && x !in gone
  {
    if ids != [] {
      var init, last := ids[..|ids| - 1], ids[|ids| - 1];
      KeepProperties(init, gone);
      assert ids == init + [last];
      forall x | x in init
        ensures x < last
      {
        var j :| 0 <= j < |init| && init[j] == x;
        assert ids[j] < ids[|ids| - 1];
      }
      var kept := Keep(init, gone);
      forall i, j | 0 <= i < j < |Keep(ids, gone)|
        ensures Keep(ids, gone)[i] < Keep(ids, gone)[j]
      {
        assert kept[i] in kept;
      }
    }
  }

  lemma SortedIdsWithout(s: set<nat>, gone: set<nat>)
    ensures SortedIds(s - gone) == Keep(SortedIds(s), gone)
  {
    KeepProperties(SortedIds(s), gone);
    SortedIdsUnique(Keep(SortedIds(s), gone), s - gone);
  }

  // ---------------------------------------------------------------- directories

  function Blocks(dir: Directory, id: nat): seq<Block> {
    if id in dir then dir[id] else []
  }

  function Flatten(bs: seq<Block>): seq<Point> {
    if bs == [] then [] else Flatten(bs[..|bs| - 1]) + bs[|bs| - 1]
  }

  /** The index a scan of the given files produces. */
  function IndexOfIds(dir: Directory, ids: seq<nat>): seq<IndexEntry> {
    if ids == [] then []
    else
      var last := ids[|ids| - 1];
      IndexOfIds(dir, ids[..|ids| - 1]) + IndexOf(last, Blocks(dir, last))
  }

  function PointsOfIds(dir: Directory, ids: seq<nat>): seq<Point> {
    if ids == [] then []
    else
      var last := ids[|ids| - 1];
      PointsOfIds(dir, ids[..|ids| - 1]) + Flatten(Blocks(dir, last))
  }

  lemma {:induction false} SameFiles(dir: Directory, dir': Directory, ids: seq<nat>)
    requires forall id :: id in ids ==> Blocks(dir, id) == Blocks(dir', id)
    ensures IndexOfIds(dir, ids) == IndexOfIds(dir', ids)
    ensures PointsOfIds(dir, ids) == PointsOfIds(dir', ids)
  {
    hide IndexOf, Flatten, Blocks;
    if ids != [] {
      assert ids[|ids| - 1] in ids;
      SameFiles(dir, dir', ids[..|ids| - 1]);
    }
  }

  /** The points on disk, in the order of segment ids and then of blocks. */
  ghost function StoredPoints(dir: Directory): seq<Point> {
    PointsOfIds(dir, SortedIds(dir.Keys))
  }

  /** The id of the last listed file, or 1 when there is none. */
  function ActiveId(ids: seq<nat>): nat {
    if ids == [] then 1 else ids[|ids| - 1]
  }

  /** The files whose names the directory scan recognises. */
  ghost function DiscoverIds(dir: Directory): seq<nat> {
    SortedIds(set id | id in dir && 1 <= id <= MAX_SEGMENT_ID)
  }

  /** Drops the index of a series and rebuilds it from the files on disk. */
  ghost function Rebuild(s: Series, dir: Directory): Series {
    var ids := DiscoverIds(dir);
    s.(segmentIds := ids, index := IndexOfIds(dir, ids), activeId := ActiveId(ids))
  }

  // ---------------------------------------------------------------- registry

  /** Position of a series in the registry, or its length. */
  function FindFrom(series: seq<Series>, name: Name, i: nat): (k: nat)
    requires i <= |series|
    ensures i <= k <= |series|
    ensures k < |series| ==> series[k].name == name
    ensures forall j :: i <= j < k ==> series[j].name != name
    decreases |series| - i
  {
    if i == |series| || series[i].name == name then i else FindFrom(series, name, i + 1)
  }

  function Find(series: seq<Series>, name: Name): (k: nat)
    ensures k <= |series|
    ensures k < |series| ==> series[k].name == name
    ensures forall j :: 0 <= j < k ==> series[j].name != name
  {
    FindFrom(series, name, 0)
  }

  predicate DistinctNames(series: seq<Series>) {
    forall i, j :: 0 <= i < j < |series| ==> series[i].name != series[j].name
  }

  lemma FindAt(series: seq<Series>, i: nat)
    requires DistinctNames(series) && i < |series|
    ensures Find(series, series[i].name) == i
  {
    var k := Find(series, series[i].name);
    assert k == i || k < i || i < k;
  }

  // ---------------------------------------------------------------- points in a log

  /** The points a log holds for one series, oldest first. */
  function PointsFor(es: seq<Entry>, name: Name): seq<Point> {
    if es == [] then []
    else
      var last := es[|es| - 1];
      PointsFor(es[..|es| - 1], name) + if last.name == name then last.Points() else []
  }

  lemma {:induction false} PointsForConcat(a: seq<Entry>, b: seq<Entry>, name: Name)
    ensures PointsFor(a + b, name) == PointsFor(a, name) + PointsFor(b, name)
  {
    hide Entry.Points;
    if b == [] {
      assert a + b == a;
    } else {
      var init, last := b[..|b| - 1], b[|b| - 1];
      assert (a + b)[..|a + b| - 1] == a + init && (a + b)[|a + b| - 1] == last;
      PointsForConcat(a, init, name);
      Associative(PointsFor(a, name), PointsFor(init, name), if last.name == name then last.Points() else []);
    }
  }

  lemma {:induction false} PointsForAbsent(es: seq<Entry>, name: Name)
    requires forall k :: 0 <= k < |es| ==> es[k].name != name
    ensures PointsFor(es, name) == []
  {
    if es != [] {
      PointsForAbsent(es[..|es| - 1], name);
    }
  }

  /** Batch records for a run of points, each as long as a record may be. */
  function BatchEntries(name: Name, ps: seq<Point>): (es: seq<Entry>)
    decreases |ps|
  {
    if ps == [] then []
    else
      var n := if |ps| > WAL_MAX_BATCH_POINTS then WAL_MAX_BATCH_POINTS else |ps|;
      [BatchV3(name, ps[..n])] + BatchEntries(name, ps[n..])
  }

  lemma PointsForOne(e: Entry, name: Name)
    ensures PointsFor([e], name) == if e.name == name then e.Points() else []
  {
    assert [e][..0] == [];
  }

  lemma {:induction false} BatchEntriesPoints(name: Name, ps: seq<Point>, n: Name)
    ensures AllWellFormed(BatchEntries(name, ps))
    ensures forall k :: 0 <= k < |BatchEntries(name, ps)| ==> BatchEntries(name, ps)[k].name == name
    ensures PointsFor(BatchEntries(name, ps), n) == if n == name then ps else []
    decreases |ps|
  {
    hide PointsFor;
    if ps == [] {
      PointsForAbsent([], n);
    } else {
      var len := if |ps| > WAL_MAX_BATCH_POINTS then WAL_MAX_BATCH_POINTS else |ps|;
      var e := BatchV3(name, ps[..len]);
      BatchEntriesPoints(name, ps[len..], n);
      PointsForConcat([e], BatchEntries(name, ps[len..]), n);
      PointsForOne(e, n);
      assert ps == ps[..len] + ps[len..];
    }
  }

  /** A record is filled before another one is begun: all but the last hold as many points as a record may. */
  lemma {:induction false} BatchEntriesFull(name: Name, ps: seq<Point>)
    ensures ps != [] && |ps| <= WAL_MAX_BATCH_POINTS ==> BatchEntries(name, ps) == [BatchV3(name, ps)]
    ensures forall k :: 0 <= k < |BatchEntries(name, ps)| ==>
              && BatchEntries(name, ps)[k].BatchV3?
              && (k < |BatchEntries(name, ps)| - 1 ==> |BatchEntries(name, ps)[k].batch| == WAL_MAX_BATCH_POINTS)
    decreases |ps|
  {
    if ps != [] {
      var n := if |ps| > WAL_MAX_BATCH_POINTS then WAL_MAX_BATCH_POINTS else |ps|;
      BatchEntriesFull(name, ps[n..]);
      assert n == |ps| ==> ps[..n] == ps;
    }
  }

  /** What a truncation writes: the buffers of all series, in registry order. */
  function BufferEntries(series: seq<Series>): seq<Entry> {
    if series == [] then []
    else
      var last := series[|series| - 1];
      BufferEntries(series[..|series| - 1]) + BatchEntries(last.name, last.buffer)
  }

  lemma {:induction false} BufferEntriesWellFormed(series: seq<Series>)
    ensures AllWellFormed(BufferEntries(series))
    ensures forall k :: 0 <= k < |BufferEntries(series)| ==>
              exists i :: 0 <= i < |series| && series[i].name == BufferEntries(series)[k].name
  {
    hide BatchEntries, Entry.WellFormed;
    if series != [] {
      var init, last := series[..|series| - 1], series[|series| - 1];
      BufferEntriesWellFormed(init);
      BatchEntriesPoints(last.name, last.buffer, last.name);
      var a: seq<Entry>, b: seq<Entry> := BufferEntries(init), BatchEntries(last.name, last.buffer);
      forall k: nat | 0 <= k < |a + b|
        ensures exists i :: 0 <= i < |series| && series[i].name == (a + b)[k].name
      {
        if k < |a| {
          var i :| 0 <= i < |init| && init[i].name == a[k].name;
          assert series[i].name == (a + b)[k].name;
        } else {
          assert series[|series| - 1].name == b[k - |a|].name;
        }
      }
    }
  }

  lemma FindInInit(series: seq<Series>, name: Name)
    requires DistinctNames(series) && series != []
    ensures var init, last := series[..|series| - 1], series[|series| - 1];
            var i, j := Find(series, name), Find(init, name);
            && DistinctNames(init)
            && (if last.name == name then i == |init| && j == |init|
                else if j < |init| then i == j else i == |series|)
  {
    var init := series[..|series| - 1];
    var i, j := Find(series, name), Find(init, name);
    if j < |init| {
      assert series[j].name == name;
      FindAt(series, j);
    }
    if i < |init| {
      assert init[i].name == name;
    }
  }

  /** After a truncation the log mirrors every buffer, whatever it held before. */
  lemma {:induction false} BufferEntriesMirror(series: seq<Series>, name: Name)
    requires DistinctNames(series)
    ensures PointsFor(BufferEntries(series), name) ==
            var i := Find(series, name); if i < |series| then series[i].buffer else []
  {
    hide BatchEntries, PointsFor, Find, DistinctNames;
    if series == [] {
      PointsForAbsent([], name);
    } else {
      var init, last := series[..|series| - 1], series[|series| - 1];
      FindInInit(series, name);
      BufferEntriesMirror(init, name);
      BatchEntriesPoints(last.name, last.buffer, name);
      PointsForConcat(BufferEntries(init), BatchEntries(last.name, last.buffer), name);
    }
  }

  // ---------------------------------------------------------------- consistency of a series with its directory

  /** Every file is a recognisable segment with data, and is within the size limit unless it is a single block. */
  predicate FilesOk(dir: Directory) {
    forall id :: id in dir ==>
      && 1 <= id <= MAX_SEGMENT_ID
      && dir[id] != []
      && (SegmentSize(dir[id]) <= SEGMENT_MAX_BYTES || |dir[id]| == 1)
  }

  /** The volatile index is what a scan of the directory would produce. */
  ghost predicate SeriesOk(s: Series, dir: Directory) {
    && FilesOk(dir)
    && s.segmentIds == SortedIds(dir.Keys)
    && s.index == IndexOfIds(dir, s.segmentIds)
    && s.activeId == ActiveId(s.segmentIds)
    && |s.buffer| <= BLOCK_MAX_POINTS
  }

  lemma DiscoverAll(dir: Directory)
    requires FilesOk(dir)
    ensures DiscoverIds(dir) == SortedIds(dir.Keys)
  {
    assert (set id | id in dir && 1 <= id <= MAX_SEGMENT_ID) == dir.Keys;
  }

  /** A rebuild always reaches a consistent index, and changes nothing when the index was consistent. */
  lemma RebuildOk(s: Series, dir: Directory)
    requires FilesOk(dir) && |s.buffer| <= BLOCK_MAX_POINTS
    ensures SeriesOk(Rebuild(s, dir), dir)
    ensures SeriesOk(s, dir) ==> Rebuild(s, dir) == s
  {
    DiscoverAll(dir);
  }

  function DirOf(dirs: map<Name, Directory>, name: Name): Directory {
    if name in dirs then dirs[name] else map[]
  }

  ghost predicate RegistryOk(m: Model) {
    && DistinctNames(m.series)
    && (forall i :: 0 <= i < |m.series| ==>
          m.series[i].name in m.dirs && SeriesOk(m.series[i], m.dirs[m.series[i].name]))
    && (forall n :: n in m.dirs ==> Find(m.series, n) < |m.series|)
  }
}
