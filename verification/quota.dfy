/** Whole-file deletion under a disk quota (src/core/db_quota.c), and the time bounds it shares with retention. */
module Quota {
  import opened Wire
  import opened Config
  import opened Codec
  import opened Segments
  import opened WalFormat
  import opened State
  import SegmentNames

  // ---------------------------------------------------------------- per-segment bounds

  datatype Bound = Bound(id: nat, max: i64)

  function BoundIndex(bs: seq<Bound>, id: nat): (k: nat)
    ensures k <= |bs|
    ensures k < |bs| ==> bs[k].id == id
    ensures forall j :: 0 <= j < k ==> bs[j].id != id
  {
    if bs == [] || bs[0].id == id then 0 else 1 + BoundIndex(bs[1..], id)
  }

  /** Raises the bound of the entry's segment, or starts one. */
  function AddBound(bs: seq<Bound>, e: IndexEntry): seq<Bound> {
    var k := BoundIndex(bs, e.segmentId);
    if k == |bs| then bs + [Bound(e.segmentId, e.maxTimestamp)]
    else if e.maxTimestamp > bs[k].max then bs[k := Bound(e.segmentId, e.maxTimestamp)]
    else bs
  }

  function FoldBounds(bs: seq<Bound>, index: seq<IndexEntry>): seq<Bound> {
    if index == [] then bs else AddBound(FoldBounds(bs, index[..|index| - 1]), index[|index| - 1])
  }

  function Bounds(index: seq<IndexEntry>): seq<Bound> {
    FoldBounds([], index)
  }

  lemma {:induction false} FoldConcat(bs: seq<Bound>, a: seq<IndexEntry>, b: seq<IndexEntry>)
    ensures FoldBounds(bs, a + b) == FoldBounds(FoldBounds(bs, a), b)
  {
    hide AddBound;
    if b == [] {
      assert a + b == a;
    } else {
      assert (a + b)[..|a + b| - 1] == a + b[..|b| - 1] && (a + b)[|a + b| - 1] == b[|b| - 1];
      FoldConcat(bs, a, b[..|b| - 1]);
    }
  }

  /** The largest timestamp of a segment. */
  function SegmentMax(bs: seq<Block>): i64
    requires bs != []
  {
    var last := MaxTimestamp(bs[|bs| - 1]);
    if |bs| == 1 then last
    else
      var m := SegmentMax(bs[..|bs| - 1]);
      if last > m then last else m
  }

  lemma {:induction false} SegmentMaxIsMax(bs: seq<Block>)
    requires bs != []
    ensures forall p :: p in Flatten(bs) ==> p.timestamp <= SegmentMax(bs)
    ensures exists p :: p in Flatten(bs) && p.timestamp == SegmentMax(bs)
  {
    hide MaxTimestamp;
    var init, last := bs[..|bs| - 1], bs[|bs| - 1];
    TimestampBounds(last);
    var p :| p in last && p.timestamp == MaxTimestamp(last);
    assert p in Flatten(bs);
    if init == [] {
      assert Flatten(init) == [];
    } else {
      SegmentMaxIsMax(init);
      var q :| q in Flatten(init) && q.timestamp == SegmentMax(init);
      assert q in Flatten(bs);
    }
  }

  lemma {:induction false} FoldSegment(bs: seq<Bound>, id: nat, blocks: seq<Block>)
    requires blocks != [] && forall k :: 0 <= k < |bs| ==> bs[k].id != id
    ensures FoldBounds(bs, IndexOf(id, blocks)) == bs + [Bound(id, SegmentMax(blocks))]
  {
    hide MaxTimestamp, SegmentSize, MinTimestamp, PayloadSize;
    var init, last := blocks[..|blocks| - 1], blocks[|blocks| - 1];
    var index, e := IndexOf(id, blocks), EntryFor(id, SegmentSize(init), last);
    assert index[..|index| - 1] == IndexOf(id, init) && index[|index| - 1] == e;
    if init == [] {
      assert BoundIndex(bs, id) == |bs|;
    } else {
      FoldSegment(bs, id, init);
      var folded := bs + [Bound(id, SegmentMax(init))];
      assert forall k :: 0 <= k < |bs| ==> folded[k].id == bs[k].id != id;
      assert folded[|bs|].id == id;
    }
  }

  /** The bounds collected from an index are, file by file, the true largest timestamps. */
  function BoundsOfFiles(dir: Directory, ids: seq<nat>): (bs: seq<Bound>)
    requires forall id :: id in ids ==> Blocks(dir, id) != []
    ensures |bs| == |ids|
    ensures forall k :: 0 <= k < |ids| ==> bs[k] == Bound(ids[k], SegmentMax(Blocks(dir, ids[k])))
  {
    if ids == [] then []
    else
      var last := ids[|ids| - 1];
      assert last in ids;
      BoundsOfFiles(dir, ids[..|ids| - 1]) + [Bound(last, SegmentMax(Blocks(dir, last)))]
  }

  lemma {:induction false} BoundsOfIndex(dir: Directory, ids: seq<nat>)
    requires Increasing(ids) && forall id :: id in ids ==> Blocks(dir, id) != []
    ensures Bounds(IndexOfIds(dir, ids)) == BoundsOfFiles(dir, ids)
  {
    hide IndexOf, SegmentMax, Blocks, FoldBounds;
    if ids == [] {
      EmptyFold([]);
    } else {
      var init, last := ids[..|ids| - 1], ids[|ids| - 1];
      assert last in ids;
      BoundsOfIndex(dir, init);
      FoldConcat([], IndexOfIds(dir, init), IndexOf(last, Blocks(dir, last)));
      FoldSegment(BoundsOfFiles(dir, init), last, Blocks(dir, last));
    }
  }

  lemma EmptyFold(bs: seq<Bound>)
    ensures FoldBounds(bs, []) == bs
  {}

  lemma SeriesBounds(s: Series, dir: Directory)
    requires SeriesOk(s, dir)
    ensures forall id :: id in s.segmentIds ==> Blocks(dir, id) != []
    ensures Bounds(s.index) == BoundsOfFiles(dir, s.segmentIds)
  {
    assert forall id :: id in s.segmentIds ==> id in dir;
    BoundsOfIndex(dir, s.segmentIds);
  }

  // ---------------------------------------------------------------- candidates

  datatype Candidate = Candidate(seriesIndex: nat, segmentId: nat, maxTimestamp: i64, size: nat)

  /** The comparator of the sort: oldest first, then registry order, then id. */
  function Compare(a: Candidate, b: Candidate): int {
    if a.maxTimestamp < b.maxTimestamp then -1
    else if a.maxTimestamp > b.maxTimestamp then 1
    else if a.seriesIndex < b.seriesIndex then -1
    else if a.seriesIndex > b.seriesIndex then 1
    else (if a.segmentId > b.segmentId then 1 else 0) - (if a.segmentId < b.segmentId then 1 else 0)
  }

  /** Sealed, non-empty files among the collected bounds. */
  function CandidatesOf(bounds: seq<Bound>, activeId: nat, dir: Directory, i: nat): seq<Candidate> {
    if bounds == [] then []
    else
      var b := bounds[|bounds| - 1];
      var size := SegmentSize(Blocks(dir, b.id));
      CandidatesOf(bounds[..|bounds| - 1], activeId, dir, i)
      + if b.id == activeId || size == 0 then [] else [Candidate(i, b.id, b.max, size)]
  }

  function SeriesCandidates(s: Series, dir: Directory, i: nat): seq<Candidate> {
    if |s.segmentIds| <= 1 then [] else CandidatesOf(Bounds(s.index), s.activeId, dir, i)
  }

  /** Candidates of the first `n` series. */
  function Candidates(series: seq<Series>, dirs: map<Name, Directory>, n: nat): seq<Candidate>
    requires n <= |series|
  {
    if n == 0 then []
    else
      Candidates(series, dirs, n - 1) + SeriesCandidates(series[n - 1], DirOf(dirs, series[n - 1].name), n - 1)
  }

  predicate Sorted(cs: seq<Candidate>) {
    forall i, j :: 0 <= i < j < |cs| ==> Compare(cs[i], cs[j]) <= 0
  }

  function Insert(c: Candidate, cs: seq<Candidate>): (r: seq<Candidate>)
    ensures multiset(r) == multiset(cs) + multiset{c}
  {
    if cs == [] then [c]
    else if Compare(c, cs[0]) <= 0 then [c] + cs
    else
      assert cs == [cs[0]] + cs[1..];
      [cs[0]] + Insert(c, cs[1..])
  }

  function Sort(cs: seq<Candidate>): (r: seq<Candidate>)
    ensures multiset(r) == multiset(cs)
  {
    if cs == [] then []
    else
      assert cs == cs[..|cs| - 1] + [cs[|cs| - 1]];
      Insert(cs[|cs| - 1], Sort(cs[..|cs| - 1]))
  }

  lemma MultisetMember<T>(a: seq<T>, b: seq<T>)
    requires multiset(a) == multiset(b)
    ensures forall x :: x in a <==> x in b
  {
    forall x
      ensures x in a <==> x in b
    {
      assert x in a <==> x in multiset(a);
    }
  }

  lemma {:induction false} InsertSorted(c: Candidate, cs: seq<Candidate>)
    requires Sorted(cs)
    ensures Sorted(Insert(c, cs))
  {
    if cs != [] && Compare(c, cs[0]) > 0 {
      var rest := Insert(c, cs[1..]);
      InsertSorted(c, cs[1..]);
      hide Compare;
      CompareOther(c, cs[0]);
      forall x | x in rest
        ensures Compare(cs[0], x) <= 0
      {
        assert x in multiset(rest);
        assert x == c || x in cs[1..];
      }
      ConsSorted(cs[0], rest);
    } else if cs != [] {
      forall x | x in cs
        ensures Compare(c, x) <= 0
      {
        CompareSelf(cs[0]);
        assert Compare(cs[0], x) <= 0;
      }
      ConsSorted(c, cs);
    }
  }

  lemma CompareOther(a: Candidate, b: Candidate)
    ensures Compare(a, b) > 0 ==> Compare(b, a) <= 0
  {}

  lemma CompareSelf(a: Candidate)
    ensures Compare(a, a) == 0
  {}

  lemma ConsSorted(c: Candidate, cs: seq<Candidate>)
    requires Sorted(cs) && forall x :: x in cs ==> Compare(c, x) <= 0
    ensures Sorted([c] + cs)
  {
    hide Compare;
    var r := [c] + cs;
    forall i, j | 0 <= i < j < |r|
      ensures Compare(r[i], r[j]) <= 0
    {
      assert r[j] == cs[j - 1] && cs[j - 1] in cs;
    }
  }

  lemma {:induction false} SortSorts(cs: seq<Candidate>)
    ensures Sorted(Sort(cs))
  {
    if cs != [] {
      SortSorts(cs[..|cs| - 1]);
      InsertSorted(cs[|cs| - 1], Sort(cs[..|cs| - 1]));
    }
  }

  lemma CompareAntisymmetric(a: Candidate, b: Candidate)
    requires Compare(a, b) <= 0 && Compare(b, a) <= 0
    ensures Compare(a, b) == 0
  {}

  /** Only equal candidates compare equal. */
  predicate Identified(cs: seq<Candidate>) {
    forall x, y :: x in cs && y in cs && Compare(x, y) == 0 ==> x == y
  }

  lemma SameHead(a: seq<Candidate>, b: seq<Candidate>)
    requires Sorted(a) && Sorted(b) && multiset(a) == multiset(b) && a != [] && b != [] && Identified(a)
    ensures a[0] == b[0]
  {
    MultisetMember(a, b);
    assert a[0] in b && b[0] in a;
    var i :| 0 <= i < |b| && b[i] == a[0];
    var j :| 0 <= j < |a| && a[j] == b[0];
    if i > 0 && j > 0 {
      CompareAntisymmetric(a[0], b[0]);
    }
    hide Compare;
  }

  lemma SortedTail(a: seq<Candidate>)
    requires Sorted(a) && Identified(a) && a != []
    ensures Sorted(a[1..]) && Identified(a[1..])
  {
    hide Compare;
  }

  lemma MultisetTail<T>(a: seq<T>)
    requires a != []
    ensures multiset(a[1..]) == multiset(a) - multiset{a[0]}
  {
    assert a == [a[0]] + a[1..];
  }

  /** Any sort gives the same order when only equal candidates compare equal. */
  lemma {:induction false} SortUnique(a: seq<Candidate>, b: seq<Candidate>)
    requires Sorted(a) && Sorted(b) && multiset(a) == multiset(b)
    requires Identified(a) && Identified(b)
    ensures a == b
  {
    hide Sorted, Identified;
    assert |multiset(a)| == |a| && |multiset(b)| == |b|;
    if a != [] {
      SameHead(a, b);
      SortedTail(a);
      SortedTail(b);
      MultisetTail(a);
      MultisetTail(b);
      SortUnique(a[1..], b[1..]);
    }
  }

  // ---------------------------------------------------------------- sizes

  /** The sum of the values of a map. */
  ghost function SumOf<K>(sizes: map<K, nat>): nat
    decreases |sizes.Keys|
  {
    if sizes.Keys == {} then 0
    else
      var k :| k in sizes;
      assert (sizes - {k}).Keys == sizes.Keys - {k};
      sizes[k] + SumOf(sizes - {k})
  }

  /** It does not matter which value is added first. */
  lemma {:induction false} SumWithout<K>(sizes: map<K, nat>, k: K)
    requires k in sizes
    ensures SumOf(sizes) == sizes[k] + SumOf(sizes - {k})
    decreases |sizes.Keys|
  {
    var j :| j in sizes && SumOf(sizes) == sizes[j] + SumOf(sizes - {j});
    if j != k {
      assert (sizes - {j}).Keys == sizes.Keys - {j} && (sizes - {k}).Keys == sizes.Keys - {k};
      SumWithout(sizes - {j}, k);
      SumWithout(sizes - {k}, j);
      assert sizes - {j} - {k} == sizes - {k} - {j};
    }
  }

  lemma SumUpdated<K>(sizes: map<K, nat>, k: K, size: nat)
    requires k in sizes
    ensures SumOf(sizes[k := size]) == SumOf(sizes) - sizes[k] + size
  {
    SumWithout(sizes, k);
    SumWithout(sizes[k := size], k);
    assert sizes[k := size] - {k} == sizes - {k};
  }

  lemma NothingSummed<K>(sizes: map<K, nat>)
    requires sizes.Keys == {}
    ensures SumOf(sizes) == 0
  {}

  /** Texts are written in ASCII. */
  function Ascii(s: string): (bytes: seq<byte>)
    requires forall i :: 0 <= i < |s| ==> s[i] < 128 as char
    ensures |bytes| == |s|
  {
    seq(|s|, i requires 0 <= i < |s| => s[i] as int)
  }

  function Number(n: nat): seq<byte> {
    Ascii(SegmentNames.Decimal(n))
  }

  function SeriesLines(names: seq<Name>): seq<byte> {
    if names == [] then []
    else SeriesLines(names[..|names| - 1]) + Ascii("series=") + names[|names| - 1] + Ascii("\n")
  }

  /** The file manifest.txt (src/core/db.c:179-194). */
  function ManifestText(names: seq<Name>): seq<byte> {
    Ascii("tsedge_version=1\nseries_count=") + Number(|names|) + Ascii("\n") + SeriesLines(names)
  }

  /** The file metadata.txt of a series (src/core/series.c:37-49). */
  function MetadataText(name: Name): seq<byte> {
    Ascii("name=") + name + Ascii("\nblock_max_points=") + Number(BLOCK_MAX_POINTS)
    + Ascii("\nsegment_pattern=segment_%06u.tse\n")
  }

  function Names(series: seq<Series>): (names: seq<Name>)
    ensures |names| == |series|
  {
    seq(|series|, i requires 0 <= i < |series| => series[i].name)
  }

  function MetadataSize(names: seq<Name>): nat {
    if names == [] then 0 else MetadataSize(names[..|names| - 1]) + |MetadataText(names[|names| - 1])|
  }

  /** Bytes of the text files. */
  function TextSize(names: seq<Name>): nat {
    |ManifestText(names)| + MetadataSize(names)
  }

  function SegmentSizes(dir: Directory): map<nat, nat> {
    map id | id in dir :: SegmentSize(dir[id])
  }

  ghost function DirectorySize(dir: Directory): nat {
    SumOf(SegmentSizes(dir))
  }

  ghost function DirectorySizes(dirs: map<Name, Directory>): map<Name, nat> {
    map n | n in dirs :: DirectorySize(dirs[n])
  }

  ghost function TreeSize(dirs: map<Name, Directory>): nat {
    SumOf(DirectorySizes(dirs))
  }

  /** All regular files below the database directory. */
  ghost function TotalSize(m: Model): nat {
    LogSize(m.log) + |m.torn| + TextSize(Names(m.series)) + TreeSize(m.dirs)
  }

  // ---------------------------------------------------------------- cleanup

  /** How many candidates the deletion loop unlinks. */
  function Doomed(cs: seq<Candidate>, size: nat, limit: nat): (k: nat)
    ensures k <= |cs|
  {
    if cs == [] || size <= limit then 0
    else 1 + Doomed(cs[1..], if size > cs[0].size then size - cs[0].size else 0, limit)
  }

  /** The loop's running size after `cs` has been deleted. */
  function Tracked(cs: seq<Candidate>, size: nat): nat {
    if cs == [] then size
    else
      var t := Tracked(cs[..|cs| - 1], size);
      if t > cs[|cs| - 1].size then t - cs[|cs| - 1].size else 0
  }

  function Removed(victims: seq<Candidate>, i: nat): set<nat> {
    set v | v in victims && v.seriesIndex == i :: v.segmentId
  }

  function RemoveFiles(dirs: map<Name, Directory>, series: seq<Series>, victims: seq<Candidate>): map<Name, Directory> {
    map n | n in dirs :: dirs[n] - Removed(victims, Find(series, n))
  }

  predicate Touched(victims: seq<Candidate>, i: nat) {
    exists v :: v in victims && v.seriesIndex == i
  }

  ghost function RebuildTouched(series: seq<Series>, dirs: map<Name, Directory>, victims: seq<Candidate>): seq<Series> {
    seq(|series|, i requires 0 <= i < |series| =>
      if Touched(victims, i) then Rebuild(series[i], DirOf(dirs, series[i].name)) else series[i])
  }

  /** The state with the files of `victims` gone and the indexes of their series rebuilt. */
  ghost function Without(m: Model, victims: seq<Candidate>): Model {
    var dirs := RemoveFiles(m.dirs, m.series, victims);
    m.(dirs := dirs, series := RebuildTouched(m.series, dirs, victims))
  }

  ghost function SortedCandidates(m: Model): seq<Candidate> {
    Sort(Candidates(m.series, m.dirs, |m.series|))
  }

  ghost function Enforce(m: Model): (Model, Status) {
    if m.quota == 0 || TotalSize(m) <= m.quota then (m.(exceeded := false), Ok)
    else
      var cs := SortedCandidates(m);
      var k := Doomed(cs, TotalSize(m), m.quota);
      var over := Tracked(cs[..k], TotalSize(m)) > m.quota;
      (Without(m, cs[..k]).(exceeded := over), if over then QuotaExceeded else Ok)
  }

  // ---------------------------------------------------------------- what a candidate is

  /** A sealed segment of a series that has more than one. */
  ghost predicate IsCandidate(m: Model, c: Candidate) {
    && c.seriesIndex < |m.series|
    && var s := m.series[c.seriesIndex];
    && var dir := DirOf(m.dirs, s.name);
    && |s.segmentIds| > 1
    && c.segmentId in dir && c.segmentId != s.activeId && dir[c.segmentId] != []
    && c.maxTimestamp == SegmentMax(dir[c.segmentId])
    && c.size == SegmentSize(dir[c.segmentId]) > 0
  }

  lemma NonEmptySegment(bs: seq<Block>)
    requires bs != []
    ensures SegmentSize(bs) > 0
  {}

  predicate Once(cs: seq<Candidate>) {
    forall c :: c in cs ==> multiset(cs)[c] <= 1
  }

  lemma {:induction false} CandidatesOfFiles(dir: Directory, ids: seq<nat>, activeId: nat, i: nat)
    requires forall id :: id in ids ==> id in dir && dir[id] != []
    requires forall a, b :: 0 <= a < b < |ids| ==> ids[a] != ids[b]
    ensures var cs := CandidatesOf(BoundsOfFiles(dir, ids), activeId, dir, i);
            && (forall c :: c in cs <==>
                  c.seriesIndex == i && c.segmentId in ids && c.segmentId != activeId
                  && c.maxTimestamp == SegmentMax(dir[c.segmentId]) && c.size == SegmentSize(dir[c.segmentId]))
            && Once(cs)
  {
    hide SegmentMax, SegmentSize, BoundsOfFiles, Once;
    if ids == [] {
      NoCandidates(dir, activeId, i);
    } else {
      var init, last := ids[..|ids| - 1], ids[|ids| - 1];
      assert last in ids && ids == init + [last];
      CandidatesOfFiles(dir, init, activeId, i);
      NonEmptySegment(dir[last]);
      assert BoundsOfFiles(dir, ids)[..|ids| - 1] == BoundsOfFiles(dir, init);
      var before, cs := CandidatesOf(BoundsOfFiles(dir, init), activeId, dir, i),
                        CandidatesOf(BoundsOfFiles(dir, ids), activeId, dir, i);
      if last == activeId {
        assert cs == before;
      } else {
        var added := Candidate(i, last, SegmentMax(dir[last]), SegmentSize(dir[last]));
        assert cs == before + [added];
        OnceMore(before, added);
      }
    }
  }

  lemma NoCandidates(dir: Directory, activeId: nat, i: nat)
    ensures BoundsOfFiles(dir, []) == [] && CandidatesOf([], activeId, dir, i) == [] && Once([])
  {}

  lemma OnceMore(cs: seq<Candidate>, c: Candidate)
    requires Once(cs) && c !in cs
    ensures Once(cs + [c])
  {}

  lemma SeriesCandidatesExact(m: Model, i: nat)
    requires RegistryOk(m) && i < |m.series|
    ensures var cs := SeriesCandidates(m.series[i], DirOf(m.dirs, m.series[i].name), i);
            && (forall c :: c in cs <==> IsCandidate(m, c) && c.seriesIndex == i)
            && Once(cs)
  {
    hide SegmentMax, SegmentSize, CandidatesOf;
    var s := m.series[i];
    var dir := m.dirs[s.name];
    if |s.segmentIds| > 1 {
      SeriesBounds(s, dir);
      CandidatesOfFiles(dir, s.segmentIds, s.activeId, i);
      forall id | id in dir
        ensures SegmentSize(dir[id]) > 0
      {
        NonEmptySegment(dir[id]);
      }
    }
  }

  lemma {:induction false} CandidatesExact(m: Model, n: nat)
    requires RegistryOk(m) && n <= |m.series|
    ensures var cs := Candidates(m.series, m.dirs, n);
            && (forall c :: c in cs <==> IsCandidate(m, c) && c.seriesIndex < n)
            && Once(cs)
  {
    hide IsCandidate, SeriesCandidates, RegistryOk;
    if n > 0 {
      CandidatesExact(m, n - 1);
      SeriesCandidatesExact(m, n - 1);
      var a, b := Candidates(m.series, m.dirs, n - 1),
                  SeriesCandidates(m.series[n - 1], DirOf(m.dirs, m.series[n - 1].name), n - 1);
      forall c | c in a + b
        ensures multiset(a + b)[c] <= 1
      {
        assert multiset(a + b)[c] == multiset(a)[c] + multiset(b)[c];
        assert c in a ==> c !in b;
      }
    }
  }

  lemma NoDuplicates(cs: seq<Candidate>)
    requires Once(cs)
    ensures forall i, j :: 0 <= i < j < |cs| ==> cs[i] != cs[j]
  {
    forall i, j | 0 <= i < j < |cs|
      ensures cs[i] != cs[j]
    {
      assert cs == cs[..j] + cs[j..] && cs[i] == cs[..j][i] && cs[j] == cs[j..][0];
      assert multiset(cs) == multiset(cs[..j]) + multiset(cs[j..]);
      assert cs[i] in cs[..j] && cs[j] in cs[j..];
      assert multiset(cs)[cs[j]] == multiset(cs[..j])[cs[j]] + multiset(cs[j..])[cs[j]];
    }
  }

  /** A candidate is determined by its series and its file. */
  lemma KeyDetermines(m: Model, x: Candidate, y: Candidate)
    requires IsCandidate(m, x) && IsCandidate(m, y)
    requires x.seriesIndex == y.seriesIndex && x.segmentId == y.segmentId
    ensures x == y
  {}

  lemma CandidatesIdentified(m: Model, cs: seq<Candidate>)
    requires forall c :: c in cs ==> IsCandidate(m, c)
    ensures Identified(cs)
  {
    hide IsCandidate;
    forall x, y | x in cs && y in cs && Compare(x, y) == 0
      ensures x == y
    {
      KeyDetermines(m, x, y);
    }
  }

  /** The sorted list holds every sealed segment of every series that has several, once, oldest first. */
  lemma SortedCandidatesExact(m: Model)
    requires RegistryOk(m)
    ensures Sorted(SortedCandidates(m)) && Identified(SortedCandidates(m))
    ensures forall c :: c in SortedCandidates(m) <==> IsCandidate(m, c)
    ensures forall i, j :: 0 <= i < j < |SortedCandidates(m)| ==> SortedCandidates(m)[i] != SortedCandidates(m)[j]
  {
    hide RegistryOk, Sorted, Sort, Identified, Candidates;
    var cs := Candidates(m.series, m.dirs, |m.series|);
    SortSorts(cs);
    CandidatesExact(m, |m.series|);
    MultisetMember(SortedCandidates(m), cs);
    assert multiset(SortedCandidates(m)) == multiset(cs);
    assert Once(SortedCandidates(m));
    NoDuplicates(SortedCandidates(m));
    forall c | IsCandidate(m, c)
      ensures c in cs
    {
      CandidateInRange(m, c);
    }
    CandidatesIdentified(m, SortedCandidates(m));
    hide IsCandidate;
  }

  /** An earlier candidate is strictly older; ties go by registry position and then by file id. */
  lemma OldestFirst(m: Model, i: nat, j: nat)
    requires RegistryOk(m) && i < j < |SortedCandidates(m)|
    ensures var a, b := SortedCandidates(m)[i], SortedCandidates(m)[j];
            && a.maxTimestamp <= b.maxTimestamp
            && (a.maxTimestamp == b.maxTimestamp ==> a.seriesIndex <= b.seriesIndex)
            && (a.maxTimestamp == b.maxTimestamp && a.seriesIndex == b.seriesIndex ==> a.segmentId < b.segmentId)
  {
    hide RegistryOk, SortedCandidates, IsCandidate;
    SortedCandidatesExact(m);
    var cs := SortedCandidates(m);
    assert cs[i] in cs && cs[j] in cs;
    assert Compare(cs[i], cs[j]) <= 0 && cs[i] != cs[j];
  }

  lemma CandidateInRange(m: Model, c: Candidate)
    requires IsCandidate(m, c)
    ensures c.seriesIndex < |m.series|
  {}

  // ---------------------------------------------------------------- what deletion does

  lemma MaxOfSubset(s: set<nat>, t: set<nat>)
    requires t <= s && s != {} && MaxId(s) in t
    ensures t != {} && MaxId(t) == MaxId(s)
  {}

  lemma ActiveIsMax(s: Series, dir: Directory)
    requires SeriesOk(s, dir)
    ensures dir.Keys != {} ==> s.activeId == MaxId(dir.Keys) && s.activeId in dir
    ensures dir.Keys == {} ==> s.activeId == 1
  {}

  lemma FilesOkWithout(dir: Directory, gone: set<nat>)
    requires FilesOk(dir)
    ensures FilesOk(dir - gone)
  {
    hide SegmentSize;
  }

  lemma DirectoryWithout(s: Series, dir: Directory, gone: set<nat>)
    requires SeriesOk(s, dir) && s.activeId !in gone
    ensures SeriesOk(Rebuild(s, dir - gone), dir - gone)
    ensures Rebuild(s, dir - gone).activeId == s.activeId
    ensures gone == {} ==> Rebuild(s, dir - gone) == s
  {
    hide SortedIds, IndexOfIds, FilesOk, DiscoverIds;
    var dir' := dir - gone;
    FilesOkWithout(dir, gone);
    RebuildOk(s, dir');
    RebuildOk(s, dir);
    ActiveIsMax(s, dir);
    ActiveIsMax(Rebuild(s, dir'), dir');
    hide SeriesOk, Rebuild;
    if dir.Keys != {} {
      MaxOfSubset(dir.Keys, dir'.Keys);
    } else {
      assert dir'.Keys == {};
    }
    if gone == {} {
      assert dir' == dir;
    }
  }

  ghost predicate AllCandidates(m: Model, victims: seq<Candidate>) {
    && (forall v :: v in victims ==> IsCandidate(m, v))
    && (forall i, j :: 0 <= i < j < |victims| ==> victims[i] != victims[j])
  }

  /** Series by series: exactly the victims are gone, the active segment is not among them, the index is rebuilt. */
  lemma WithoutSeries(m: Model, victims: seq<Candidate>, i: nat)
    requires RegistryOk(m) && AllCandidates(m, victims) && i < |m.series|
    ensures var s, s', m' := m.series[i], Without(m, victims).series[i], Without(m, victims);
            && s.name in m'.dirs
            && m'.dirs[s.name] == m.dirs[s.name] - Removed(victims, i)
            && s' == Rebuild(s, m'.dirs[s.name]) && SeriesOk(s', m'.dirs[s.name])
            && s'.activeId == s.activeId && s.activeId !in Removed(victims, i)
  {
    hide SegmentMax, SegmentSize, Rebuild, SeriesOk;
    FindAt(m.series, i);
    var s := m.series[i];
    var gone := Removed(victims, i);
    forall v | v in victims && v.seriesIndex == i
      ensures v.segmentId != s.activeId
    {
      assert IsCandidate(m, v);
    }
    DirectoryWithout(s, m.dirs[s.name], gone);
    if !Touched(victims, i) {
      assert gone == {};
    }
  }

  lemma WithoutShape(m: Model, victims: seq<Candidate>)
    ensures |Without(m, victims).series| == |m.series| && Without(m, victims).dirs.Keys == m.dirs.Keys
  {
    hide Rebuild, Touched, Removed;
  }

  lemma WithoutNames(m: Model, victims: seq<Candidate>)
    requires RegistryOk(m) && AllCandidates(m, victims)
    ensures SameSeries(m, Without(m, victims))
  {
    hide SeriesOk, Removed, IsCandidate, RegistryOk, AllCandidates, Without, Rebuild;
    var m' := Without(m, victims);
    WithoutShape(m, victims);
    forall i | 0 <= i < |m.series|
      ensures m'.series[i].name == m.series[i].name && m'.series[i].buffer == m.series[i].buffer
      ensures m'.series[i].generation == m.series[i].generation && m'.series[i].activeId == m.series[i].activeId
    {
      WithoutSeries(m, victims, i);
      RebuildKeeps(m.series[i], m'.dirs[m.series[i].name]);
    }
  }

  lemma RebuildKeeps(s: Series, dir: Directory)
    ensures Rebuild(s, dir).name == s.name && Rebuild(s, dir).buffer == s.buffer
    ensures Rebuild(s, dir).generation == s.generation
  {}

  lemma WithoutOk(m: Model, victims: seq<Candidate>)
    requires RegistryOk(m) && AllCandidates(m, victims)
    ensures RegistryOk(Without(m, victims))
    ensures SameSeries(m, Without(m, victims))
  {
    hide SeriesOk, Removed, IsCandidate, Without, AllCandidates;
    var m' := Without(m, victims);
    WithoutNames(m, victims);
    forall i | 0 <= i < |m.series|
      ensures m'.series[i].name in m'.dirs && SeriesOk(m'.series[i], m'.dirs[m'.series[i].name])
    {
      WithoutSeries(m, victims, i);
      RebuildKeeps(m.series[i], m'.dirs[m.series[i].name]);
    }
    hide Rebuild;
    forall n | n in m'.dirs
      ensures Find(m'.series, n) < |m'.series|
    {
      var k := Find(m.series, n);
      assert m'.series[k].name == n;
    }
  }

  /** Nothing but the files and the indexes differs. */
  ghost predicate SameSeries(m: Model, m': Model) {
    && m'.dirs.Keys == m.dirs.Keys && |m'.series| == |m.series|
    && forall i :: 0 <= i < |m.series| ==>
         && m'.series[i].name == m.series[i].name
         && m'.series[i].buffer == m.series[i].buffer
         && m'.series[i].generation == m.series[i].generation
         && m'.series[i].activeId == m.series[i].activeId
  }

  lemma RemoveOneFile(dir: Directory, id: nat)
    requires id in dir
    ensures DirectorySize(dir - {id}) == DirectorySize(dir) - SegmentSize(dir[id])
  {
    hide SegmentSize, SumOf;
    SumWithout(SegmentSizes(dir), id);
    assert SegmentSizes(dir) - {id} == SegmentSizes(dir - {id});
  }

  lemma DirectoryChanged(dirs: map<Name, Directory>, name: Name, dir: Directory)
    requires name in dirs
    ensures TreeSize(dirs[name := dir]) == TreeSize(dirs) - DirectorySize(dirs[name]) + DirectorySize(dir)
  {
    hide DirectorySize, SumOf;
    SumUpdated(DirectorySizes(dirs), name, DirectorySize(dir));
    assert DirectorySizes(dirs)[name := DirectorySize(dir)] == DirectorySizes(dirs[name := dir]);
  }

  lemma SameNames(series: seq<Series>, series': seq<Series>)
    requires |series| == |series'| && forall i :: 0 <= i < |series| ==> series[i].name == series'[i].name
    ensures Names(series) == Names(series')
  {}

  lemma RemovedOneMore(victims: seq<Candidate>, v: Candidate, i: nat)
    ensures Removed(victims + [v], i) == Removed(victims, i) + if v.seriesIndex == i then {v.segmentId} else {}
  {
    forall id
      ensures id in Removed(victims + [v], i) <==>
              id in Removed(victims, i) || (v.seriesIndex == i && id == v.segmentId)
    {
      if v.seriesIndex == i && id == v.segmentId {
        assert v in victims + [v];
      }
      if id in Removed(victims, i) {
        var w :| w in victims && w.seriesIndex == i && w.segmentId == id;
        assert w in victims + [v];
      }
    }
  }

  /** Deleting one more victim changes one directory. */
  lemma OneVictimRemoved(m: Model, victims: seq<Candidate>, v: Candidate)
    requires DistinctNames(m.series) && v.seriesIndex < |m.series| && m.series[v.seriesIndex].name in m.dirs
    ensures var before, name := RemoveFiles(m.dirs, m.series, victims), m.series[v.seriesIndex].name;
            && name in before && before[name] == m.dirs[name] - Removed(victims, v.seriesIndex)
            && RemoveFiles(m.dirs, m.series, victims + [v]) == before[name := before[name] - {v.segmentId}]
  {
    hide Removed, Find;
    FindAt(m.series, v.seriesIndex);
    var name := m.series[v.seriesIndex].name;
    var before, after := RemoveFiles(m.dirs, m.series, victims), RemoveFiles(m.dirs, m.series, victims + [v]);
    forall n | n in m.dirs
      ensures after[n] == if n == name then before[n] - {v.segmentId} else before[n]
    {
      RemovedOneMore(victims, v, Find(m.series, n));
      if n != name {
        OtherPosition(m.series, v.seriesIndex, n);
      }
    }
    hide RemoveFiles;
    assert after.Keys == m.dirs.Keys == before.Keys;
  }

  lemma OtherPosition(series: seq<Series>, i: nat, name: Name)
    requires i < |series| && series[i].name != name
    ensures Find(series, name) != i
  {}

  lemma DistinctKeys(m: Model, victims: seq<Candidate>, v: Candidate)
    requires AllCandidates(m, victims + [v])
    ensures v.segmentId !in Removed(victims, v.seriesIndex)
  {
    hide IsCandidate;
    assert v == (victims + [v])[|victims|] && v in victims + [v];
    forall k | 0 <= k < |victims| && victims[k].seriesIndex == v.seriesIndex
      ensures victims[k].segmentId != v.segmentId
    {
      assert (victims + [v])[k] == victims[k] && victims[k] in victims + [v];
      if victims[k].segmentId == v.segmentId {
        KeyDetermines(m, victims[k], v);
      }
    }
  }

  /** It takes exactly the size of its file off the tree. */
  lemma OneMoreVictim(m: Model, victims: seq<Candidate>, v: Candidate)
    requires RegistryOk(m) && AllCandidates(m, victims + [v])
    ensures TreeSize(RemoveFiles(m.dirs, m.series, victims + [v])) + v.size
            == TreeSize(RemoveFiles(m.dirs, m.series, victims))
  {
    hide TreeSize, DirectorySize, RemoveFiles, SegmentSize, SegmentMax, SeriesOk, Removed;
    assert v == (victims + [v])[|victims|] && v in victims + [v];
    assert IsCandidate(m, v);
    var before, name := RemoveFiles(m.dirs, m.series, victims), m.series[v.seriesIndex].name;
    OneVictimRemoved(m, victims, v);
    DistinctKeys(m, victims, v);
    RemoveOneFile(before[name], v.segmentId);
    DirectoryChanged(before, name, before[name] - {v.segmentId});
  }

  lemma SizeWithout(m: Model, victims: seq<Candidate>)
    requires RegistryOk(m) && AllCandidates(m, victims)
    ensures TotalSize(Without(m, victims))
            == LogSize(m.log) + |m.torn| + TextSize(Names(m.series)) + TreeSize(RemoveFiles(m.dirs, m.series, victims))
  {
    hide RegistryOk, AllCandidates, TreeSize, TextSize, Names, Rebuild, Touched, Removed;
    WithoutOk(m, victims);
    SameNames(m.series, Without(m, victims).series);
  }

  /** The loop's running size is the recomputed size of the directory tree. */
  lemma {:induction false} TrackedIsTotal(m: Model, victims: seq<Candidate>)
    requires RegistryOk(m) && AllCandidates(m, victims)
    ensures Tracked(victims, TotalSize(m)) == TotalSize(Without(m, victims))
  {
    hide RegistryOk, IsCandidate, TreeSize, TextSize, Names, Without, RemoveFiles;
    SizeWithout(m, victims);
    if victims == [] {
      NothingRemoved(m);
    } else {
      var init, v := victims[..|victims| - 1], victims[|victims| - 1];
      assert victims == init + [v];
      TrackedIsTotal(m, init);
      SizeWithout(m, init);
      OneMoreVictim(m, init, v);
    }
  }

  lemma NothingRemoved(m: Model)
    ensures RemoveFiles(m.dirs, m.series, []) == m.dirs
  {
    forall n | n in m.dirs
      ensures m.dirs[n] - Removed([], Find(m.series, n)) == m.dirs[n]
    {
      assert Removed([], Find(m.series, n)) == {};
    }
  }

  lemma {:induction false} TrackedCons(c: Candidate, cs: seq<Candidate>, size: nat)
    ensures Tracked([c] + cs, size) == Tracked(cs, if size > c.size then size - c.size else 0)
  {
    if cs == [] {
      assert [c] + cs == [c] && [c][..0] == [];
    } else {
      assert ([c] + cs)[..|cs|] == [c] + cs[..|cs| - 1] && ([c] + cs)[|cs|] == cs[|cs| - 1];
      TrackedCons(c, cs[..|cs| - 1], size);
    }
  }

  /** The loop stops at the first prefix that is within the limit, or at the end. */
  lemma {:induction false} DoomedIsShortest(cs: seq<Candidate>, size: nat, limit: nat)
    ensures var k := Doomed(cs, size, limit);
            && (forall j :: 0 <= j < k ==> Tracked(cs[..j], size) > limit)
            && (k < |cs| ==> Tracked(cs[..k], size) <= limit)
  {
    assert cs[..0] == [];
    if cs != [] && size > limit {
      var rest, size' := cs[1..], if size > cs[0].size then size - cs[0].size else 0;
      DoomedIsShortest(rest, size', limit);
      forall j | 0 < j <= |cs|
        ensures Tracked(cs[..j], size) == Tracked(rest[..j - 1], size')
      {
        assert cs[..j] == [cs[0]] + rest[..j - 1];
        TrackedCons(cs[0], rest[..j - 1], size);
      }
      hide Tracked;
    }
  }

  lemma PrefixCandidates(m: Model, k: nat)
    requires RegistryOk(m) && k <= |SortedCandidates(m)|
    ensures AllCandidates(m, SortedCandidates(m)[..k])
  {
    hide RegistryOk, IsCandidate, SortedCandidates;
    SortedCandidatesExact(m);
    var cs := SortedCandidates(m);
    forall v | v in cs[..k]
      ensures IsCandidate(m, v)
    {
      assert v in cs;
    }
  }

  /** The outcome of a cleanup, in terms of recomputed directory sizes only. */
  ghost predicate GreedyOutcome(m: Model, m': Model, st: Status, k: nat) {
    var cs := SortedCandidates(m);
    && k <= |cs|
    && m' == Without(m, cs[..k]).(exceeded := st.QuotaExceeded?)
    && (forall j :: 0 <= j < k ==> TotalSize(Without(m, cs[..j])) > m.quota)
    && (st == Ok || st == QuotaExceeded)
    && (st == Ok <==> TotalSize(m') <= m.quota)
    && (st == QuotaExceeded ==> k == |cs|)
  }

  /**
   * Cleanup deletes the shortest prefix of the age-sorted sealed segments that brings the directory within
   * the quota, and reports the quota as exceeded exactly when deleting all of them is not enough.
   */
  lemma QuotaIsGreedy(m: Model)
    requires RegistryOk(m) && m.quota != 0 && TotalSize(m) > m.quota
    ensures GreedyOutcome(m, Enforce(m).0, Enforce(m).1, Doomed(SortedCandidates(m), TotalSize(m), m.quota))
  {
    hide RegistryOk, SortedCandidates, AllCandidates, Doomed, Tracked, TotalSize;
    var cs, k := SortedCandidates(m), Doomed(SortedCandidates(m), TotalSize(m), m.quota);
    DoomedIsShortest(cs, TotalSize(m), m.quota);
    forall j | 0 <= j <= k
      ensures Tracked(cs[..j], TotalSize(m)) == TotalSize(Without(m, cs[..j]))
    {
      PrefixCandidates(m, j);
      TrackedIsTotal(m, cs[..j]);
    }
    hide Without;
    FlaggedSize(Without(m, cs[..k]), Enforce(m).1.QuotaExceeded?);
    assert forall j :: 0 <= j < k ==> TotalSize(Without(m, cs[..j])) > m.quota;
  }

  lemma FlaggedSize(m: Model, flag: bool)
    ensures TotalSize(m.(exceeded := flag)) == TotalSize(m)
  {
    hide LogSize, TextSize, TreeSize, Names;
  }

  ghost predicate KeepsActive(m: Model, m': Model) {
    forall i :: 0 <= i < |m.series| ==>
      var s, dir, dir' := m.series[i], DirOf(m.dirs, m.series[i].name), DirOf(m'.dirs, m.series[i].name);
      s.activeId in dir ==> s.activeId in dir' && dir'[s.activeId] == dir[s.activeId]
  }

  lemma VictimsKeepActive(m: Model, victims: seq<Candidate>)
    requires RegistryOk(m) && AllCandidates(m, victims)
    ensures KeepsActive(m, Without(m, victims))
  {
    forall i | 0 <= i < |m.series|
      ensures var s, dir, dir' := m.series[i], DirOf(m.dirs, m.series[i].name),
                                  DirOf(Without(m, victims).dirs, m.series[i].name);
              s.activeId in dir ==> s.activeId in dir' && dir'[s.activeId] == dir[s.activeId]
    {
      hide SeriesOk, IsCandidate, Rebuild;
      WithoutSeries(m, victims, i);
    }
  }

  /** Cleanup keeps the registry consistent and never deletes the active, and so never the last, file of a series. */
  lemma QuotaIsSafe(m: Model)
    requires RegistryOk(m)
    ensures var m' := Enforce(m).0;
            && RegistryOk(m') && SameSeries(m, m') && KeepsActive(m, m')
            && m' == m.(dirs := m'.dirs, series := m'.series, exceeded := m'.exceeded)
  {
    hide RegistryOk, SameSeries, KeepsActive, SortedCandidates, TotalSize, Doomed, AllCandidates, Tracked,
         RebuildTouched, RemoveFiles;
    var flag := Enforce(m).0.exceeded;
    if m.quota != 0 && TotalSize(m) > m.quota {
      var cs := SortedCandidates(m);
      var victims := cs[..Doomed(cs, TotalSize(m), m.quota)];
      PrefixCandidates(m, |victims|);
      WithoutOk(m, victims);
      VictimsKeepActive(m, victims);
      FlagIrrelevant(m, Without(m, victims), flag);
    } else {
      SelfSafe(m);
      FlagIrrelevant(m, m, flag);
    }
  }

  /** Cleanup only takes files away, and without a quota none. */
  lemma EnforceThins(m: Model)
    ensures var m' := Enforce(m).0;
            && m'.dirs.Keys == m.dirs.Keys && (m.quota == 0 ==> m'.dirs == m.dirs)
            && forall n :: n in m.dirs ==>
                 forall id :: id in m'.dirs[n] ==> id in m.dirs[n] && m'.dirs[n][id] == m.dirs[n][id]
  {
    hide SortedCandidates, TotalSize, Doomed, Tracked, RebuildTouched, Removed, Find;
  }

  lemma SelfSafe(m: Model)
    ensures SameSeries(m, m) && KeepsActive(m, m)
  {}

  lemma FlagIrrelevant(m: Model, m': Model, flag: bool)
    ensures RegistryOk(m') ==> RegistryOk(m'.(exceeded := flag))
    ensures SameSeries(m, m') ==> SameSeries(m, m'.(exceeded := flag))
    ensures KeepsActive(m, m') ==> KeepsActive(m, m'.(exceeded := flag))
  {
    hide SeriesOk;
  }
}
