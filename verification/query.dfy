/** Reads over an indexed series (src/core/series_query.c, src/storage/segment_reader.c:133-386). */
module Query {
  import opened Wire
  import opened Config
  import opened Codec
  import opened Points
  import opened Segments
  import opened WalFormat
  import opened State
  import Doubles

  // ---------------------------------------------------------------- blocks behind an index

  /** The files of one series directory. */
  type Files = map<nat, seq<byte>>

  /** All blocks of the listed files, in index order. */
  function AllBlocks(dir: Directory, ids: seq<nat>): seq<Block> {
    if ids == [] then [] else AllBlocks(dir, ids[..|ids| - 1]) + Blocks(dir, ids[|ids| - 1])
  }

  ghost predicate FilesHold(files: Files, dir: Directory) {
    files.Keys == dir.Keys && forall id :: id in dir ==> files[id] == SegmentBytes(dir[id])
  }

  /** The file an entry points into decodes, at the entry's offset, to the given block. */
  ghost predicate Readable(files: Files, e: IndexEntry, b: Block) {
    && e.segmentId in files
    && ReadHeaderAt(files[e.segmentId], e.offset) == Read(HeaderOf(b))
    && DecodeBlockAt(files[e.segmentId], e.offset) == Some((HeaderOf(b), b))
    && e.minTimestamp == MinTimestamp(b) && e.maxTimestamp == MaxTimestamp(b)
  }

  ghost predicate Indexed(files: Files, index: seq<IndexEntry>, blocks: seq<Block>) {
    |index| == |blocks| && forall k :: 0 <= k < |index| ==> Readable(files, index[k], blocks[k])
  }

  lemma FileReadable(files: Files, dir: Directory, id: nat, k: nat)
    requires FilesHold(files, dir) && id in dir && k < |dir[id]|
    ensures Readable(files, IndexOf(id, dir[id])[k], dir[id][k])
  {
    hide ReadHeaderAt, DecodeBlockAt, MinTimestamp, MaxTimestamp, HeaderOf, SegmentBytes, SegmentSize, PayloadSize;
    IndexAt(id, dir[id], k);
    BlockHeaderReads(dir[id], k);
    BlockRoundTrip(dir[id], k);
    hide IndexOf;
  }

  lemma IndexedConcat(files: Files, i1: seq<IndexEntry>, b1: seq<Block>, i2: seq<IndexEntry>, b2: seq<Block>)
    requires Indexed(files, i1, b1) && Indexed(files, i2, b2)
    ensures Indexed(files, i1 + i2, b1 + b2)
  {
    hide Readable;
  }

  /** Every entry of a consistent index leads to its block. */
  lemma {:induction false} IndexReadable(files: Files, dir: Directory, ids: seq<nat>)
    requires FilesHold(files, dir) && forall id :: id in ids ==> id in dir
    ensures Indexed(files, IndexOfIds(dir, ids), AllBlocks(dir, ids))
  {
    hide Readable, IndexOf, SegmentBytes, FilesHold;
    if ids != [] {
      var init, last := ids[..|ids| - 1], ids[|ids| - 1];
      assert last in ids;
      IndexReadable(files, dir, init);
      forall k | 0 <= k < |dir[last]|
        ensures Readable(files, IndexOf(last, dir[last])[k], dir[last][k])
      {
        FileReadable(files, dir, last, k);
      }
      assert Indexed(files, IndexOf(last, dir[last]), dir[last]);
      IndexedConcat(files, IndexOfIds(dir, init), AllBlocks(dir, init), IndexOf(last, dir[last]), dir[last]);
      hide Indexed;
    }
  }

  /** The blocks behind an index are together the stored points. */
  lemma {:induction false} BlocksArePoints(dir: Directory, ids: seq<nat>)
    ensures Flatten(AllBlocks(dir, ids)) == PointsOfIds(dir, ids)
  {
    hide Flatten, Blocks;
    if ids == [] {
      assert Flatten([]) == [] by {
        NoBlocks();
      }
    } else {
      BlocksArePoints(dir, ids[..|ids| - 1]);
      FlattenConcat(AllBlocks(dir, ids[..|ids| - 1]), Blocks(dir, ids[|ids| - 1]));
    }
  }

  lemma NoBlocks()
    ensures Flatten([]) == []
  {}

  lemma {:induction false} FlattenConcat(a: seq<Block>, b: seq<Block>)
    ensures Flatten(a + b) == Flatten(a) + Flatten(b)
  {
    if b == [] {
      assert a + b == a;
    } else {
      assert (a + b)[..|a + b| - 1] == a + b[..|b| - 1] && (a + b)[|a + b| - 1] == b[|b| - 1];
      FlattenConcat(a, b[..|b| - 1]);
      Associative(Flatten(a), Flatten(b[..|b| - 1]), b[|b| - 1]);
    }
  }

  lemma FlattenFirst(bs: seq<Block>, k: nat)
    requires k < |bs|
    ensures Flatten(bs[k..]) == bs[k] + Flatten(bs[k + 1..])
    ensures Flatten(bs[..k + 1]) == Flatten(bs[..k]) + bs[k]
  {
    assert bs[k..] == [bs[k]] + bs[k + 1..];
    FlattenConcat([bs[k]], bs[k + 1..]);
    assert [bs[k]][..0] == [];
    assert bs[..k + 1][..k] == bs[..k];
  }

  // ---------------------------------------------------------------- range reads

  /** The points with a timestamp in [from, to], in order. */
  function InRange(ps: seq<Point>, from: i64, to: i64): seq<Point> {
    Between(ps, from, to + 1)
  }

  /** The points of the interval are those with a timestamp from `from` to `to`, each as often and in that order. */
  lemma RangeSelects(ps: seq<Point>, from: i64, to: i64)
    ensures forall p: Point ::
              multiset(InRange(ps, from, to))[p] == if from <= p.timestamp <= to then multiset(ps)[p] else 0
    ensures forall p: Point :: p in InRange(ps, from, to) <==> p in ps && from <= p.timestamp <= to
    ensures Thinned(ps, InRange(ps, from, to), TWO63)
  {
    hide Between, Thinned;
    BetweenSelects(ps, from, to + 1);
  }

  lemma InRangeConcat(a: seq<Point>, b: seq<Point>, from: i64, to: i64)
    ensures InRange(a + b, from, to) == InRange(a, from, to) + InRange(b, from, to)
  {
    BetweenConcat(a, b, from, to + 1);
  }

  lemma InRangeFirst(ps: seq<Point>, i: nat, from: i64, to: i64)
    requires i < |ps|
    ensures InRange(ps[i..], from, to)
            == (if from <= ps[i].timestamp <= to then [ps[i]] else []) + InRange(ps[i + 1..], from, to)
  {
    BetweenFirst(ps, i, from, to + 1);
  }

  /** Blocks outside the queried interval hold no point of it. */
  lemma SkippedBlock(b: Block, from: i64, to: i64)
    requires MaxTimestamp(b) < from || MinTimestamp(b) > to
    ensures InRange(b, from, to) == []
  {
    hide MinTimestamp, MaxTimestamp;
    TimestampBounds(b);
    BetweenNone(b, from, to + 1);
  }

  /**
   * A callback is a function of all points it has been given so far; true means it asked to stop. `Delivered`
   * is what it has been given when the read ends.
   */
  function Delivered(done: seq<Point>, rest: seq<Point>, stop: seq<Point> -> bool): seq<Point>
    decreases |rest|
  {
    if rest == [] then done
    else
      var d := done + [rest[0]];
      if stop(d) then d else Delivered(d, rest[1..], stop)
  }

  /** The callback sees a prefix: no shorter non-empty part of it asked to stop, and it is cut only where it did. */
  lemma {:induction false} DeliveredIsCut(done: seq<Point>, rest: seq<Point>, stop: seq<Point> -> bool)
    ensures var d := Delivered(done, rest, stop);
            && done <= d <= done + rest
            && (forall n :: |done| < n < |d| ==> !stop(d[..n]))
            && (d == done + rest || (|d| > |done| && stop(d)))
    decreases |rest|
  {
    if rest != [] {
      var next := done + [rest[0]];
      assert next + rest[1..] == done + rest;
      if !stop(next) {
        DeliveredIsCut(next, rest[1..], stop);
        var d := Delivered(next, rest[1..], stop);
        assert d[..|next|] == next;
      }
    }
  }

  /** Streams the matching points of one decoded block or of the buffer to the callback. */
  method Deliver(ps: seq<Point>, from: i64, to: i64, stop: seq<Point> -> bool, done: seq<Point>,
                 ghost later: seq<Point>)
    returns (emitted: seq<Point>, stopped: bool)
    ensures Delivered(done, InRange(ps, from, to) + later, stop)
            == if stopped then emitted else Delivered(emitted, later, stop)
  {
    emitted, stopped := done, false;
    assert ps[0..] == ps;
    for i := 0 to |ps|
      invariant Delivered(done, InRange(ps, from, to) + later, stop)
             == Delivered(emitted, InRange(ps[i..], from, to) + later, stop)
    {
      InRangeFirst(ps, i, from, to);
      var p := ps[i];
      ghost var rest := InRange(ps[i..], from, to) + later;
      if from <= p.timestamp <= to {
        assert rest[0] == p && rest[1..] == InRange(ps[i + 1..], from, to) + later;
        emitted := emitted + [p];
        if stop(emitted) {
          return emitted, true;
        }
      } else {
        assert rest == InRange(ps[i + 1..], from, to) + later;
      }
    }
    assert InRange(ps[|ps|..], from, to) + later == later;
  }

  datatype ReadStatus = ReadOk | InvalidArgument | Damaged

  /** One indexed block; a block that cannot match is not even opened. */
  method DeliverBlock(files: Files, e: IndexEntry, from: i64, to: i64, stop: seq<Point> -> bool, done: seq<Point>,
                      ghost b: Block, ghost later: seq<Point>)
    returns (emitted: seq<Point>, stopped: bool)
    requires Readable(files, e, b)
    ensures Delivered(done, InRange(b, from, to) + later, stop)
            == if stopped then emitted else Delivered(emitted, later, stop)
  {
    hide InRange, Delivered, DecodeBlockAt, ReadHeaderAt, HeaderOf, MinTimestamp, MaxTimestamp;
    if e.maxTimestamp < from || e.minTimestamp > to {
      SkippedBlock(b, from, to);
      assert [] + later == later;
      return done, false;
    }
    var r := ReadBlock(files[e.segmentId], e.offset);
    emitted, stopped := Deliver(r.value.1, from, to, stop, done, later);
  }

  /** The blocks of an index in order, then the buffer. */
  method ReadRange(files: Files, index: seq<IndexEntry>, buffer: seq<Point>, from: i64, to: i64,
                   stop: seq<Point> -> bool, ghost blocks: seq<Block>)
    returns (status: ReadStatus, emitted: seq<Point>)
    requires Indexed(files, index, blocks)
    ensures from > to ==> status == InvalidArgument && emitted == []
    ensures from <= to ==>
              status == ReadOk && emitted == Delivered([], InRange(Flatten(blocks) + buffer, from, to), stop)
  {
    hide Flatten, InRange, Delivered, Readable;
    emitted := [];
    if from > to {
      return InvalidArgument, [];
    }
    var stopped;
    ghost var tail := InRange(buffer, from, to);
    InRangeConcat(Flatten(blocks), buffer, from, to);
    ghost var goal := Delivered([], InRange(Flatten(blocks), from, to) + tail, stop);
    assert blocks[0..] == blocks;
    for k := 0 to |index|
      invariant goal == Delivered(emitted, InRange(Flatten(blocks[k..]), from, to) + tail, stop)
    {
      ghost var b, later := blocks[k], InRange(Flatten(blocks[k + 1..]), from, to);
      FlattenFirst(blocks, k);
      InRangeConcat(b, Flatten(blocks[k + 1..]), from, to);
      Associative(InRange(b, from, to), later, tail);
      emitted, stopped := DeliverBlock(files, index[k], from, to, stop, emitted, b, later + tail);
      if stopped {
        return ReadOk, emitted;
      }
    }
    NothingLeft(blocks, from, to);
    assert [] + tail == tail && tail + [] == tail;
    emitted, stopped := Deliver(buffer, from, to, stop, emitted, []);
    NothingMore(emitted, stop);
    status := ReadOk;
  }

  lemma NothingLeft(blocks: seq<Block>, from: i64, to: i64)
    ensures InRange(Flatten(blocks[|blocks|..]), from, to) == []
  {}

  lemma NothingMore(emitted: seq<Point>, stop: seq<Point> -> bool)
    ensures Delivered(emitted, [], stop) == emitted
  {}

  /** One segment read without an index, header by header. */
  method ReadSegment(file: seq<byte>, from: i64, to: i64, stop: seq<Point> -> bool, ghost blocks: seq<Block>)
    returns (status: ReadStatus, emitted: seq<Point>, stopped: bool)
    requires file == SegmentBytes(blocks)
    ensures from > to ==> status == InvalidArgument && emitted == []
    ensures from <= to ==> status == ReadOk && emitted == Delivered([], InRange(Flatten(blocks), from, to), stop)
  {
    hide Flatten, InRange, Delivered, SegmentBytes, SegmentSize, BlockSize, HeaderOf, ReadHeaderAt, DecodeBlockAt,
         EntryFor, EntryOfHeader, TimestampBytes, ValueBytes, MinTimestamp, MaxTimestamp, MinBits, MaxBits, SumBits;
    emitted, stopped := [], false;
    if from > to {
      return InvalidArgument, [], false;
    }
    var offset := 0;
    ghost var k := 0;
    ghost var goal := Delivered([], InRange(Flatten(blocks), from, to), stop);
    assert blocks[0..] == blocks && blocks[..0] == [];
    assert offset == SegmentSize(blocks[..0]) by {
      EmptySegment();
    }
    while true
      invariant k <= |blocks| && offset == SegmentSize(blocks[..k])
      invariant goal == Delivered(emitted, InRange(Flatten(blocks[k..]), from, to), stop)
      decreases |blocks| - k
    {
      var hr := ReadHeader(file, offset);
      if k == |blocks| {
        assert blocks[..k] == blocks;
        EndOfSegment(blocks);
      } else {
        BlockHeaderReads(blocks, k);
      }
      if !hr.Read? {
        break;
      }
      ghost var b := blocks[k];
      var h := hr.header;
      BlockAt(blocks, k);
      BlockStep(b, 0, offset);
      HeaderBounds(b);
      FlattenFirst(blocks, k);
      InRangeConcat(b, Flatten(blocks[k + 1..]), from, to);
      if h.maxTimestamp >= from && h.minTimestamp <= to {
        BlockRoundTrip(blocks, k);
        var r := ReadBlock(file, offset);
        emitted, stopped := Deliver(r.value.1, from, to, stop, emitted, InRange(Flatten(blocks[k + 1..]), from, to));
        if stopped {
          return ReadOk, emitted, true;
        }
      } else {
        SkippedBlock(b, from, to);
        assert [] + InRange(Flatten(blocks[k + 1..]), from, to) == InRange(Flatten(blocks[k + 1..]), from, to);
      }
      offset := offset + HEADER_SIZE + h.payloadSize;
      k := k + 1;
    }
    NothingLeft(blocks, from, to);
    NothingMore(emitted, stop);
    status := ReadOk;
  }

  lemma EmptySegment()
    ensures SegmentSize([]) == 0
  {}

  lemma HeaderBounds(b: Block)
    ensures HeaderOf(b).minTimestamp == MinTimestamp(b) && HeaderOf(b).maxTimestamp == MaxTimestamp(b)
    ensures HeaderOf(b).minBits == MinBits(b) && HeaderOf(b).maxBits == MaxBits(b) && HeaderOf(b).pointCount == |b|
    ensures HeaderOf(b).sumBits == SumBits(b)
  {}

  // ---------------------------------------------------------------- aggregation

  /** The running aggregate of binary64 words; minimum and maximum are meaningful once the count is positive. */
  datatype Aggregate = Aggregate(count: nat, min: u64, max: u64, sum: u64)

  const EMPTY := Aggregate(0, 0, 0, 0)

  function AddValue(a: Aggregate, v: u64): Aggregate {
    var min, max := if a.count == 0 then v else a.min, if a.count == 0 then v else a.max;
    Aggregate(a.count + 1, if Doubles.Below(v, min) then v else min,
              if Doubles.Below(max, v) then v else max, Doubles.Add(a.sum, v))
  }

  /** The statistics of a whole block, taken from its header. */
  function AddBlock(a: Aggregate, h: Header): Aggregate {
    var min, max := if a.count == 0 then h.minBits else a.min, if a.count == 0 then h.maxBits else a.max;
    Aggregate(a.count + h.pointCount, if Doubles.Below(h.minBits, min) then h.minBits else min,
              if Doubles.Below(max, h.maxBits) then h.maxBits else max, Doubles.Add(a.sum, h.sumBits))
  }

  /** Point by point, the reference for every aggregate query. */
  function Fold(a: Aggregate, ps: seq<Point>): Aggregate {
    if ps == [] then a else AddValue(Fold(a, ps[..|ps| - 1]), ps[|ps| - 1].bits)
  }

  lemma {:induction false} FoldConcat(a: Aggregate, ps: seq<Point>, qs: seq<Point>)
    ensures Fold(a, ps + qs) == Fold(Fold(a, ps), qs)
  {
    hide AddValue;
    if qs == [] {
      assert ps + qs == ps;
    } else {
      assert (ps + qs)[..|ps + qs| - 1] == ps + qs[..|qs| - 1] && (ps + qs)[|ps + qs| - 1] == qs[|qs| - 1];
      FoldConcat(a, ps, qs[..|qs| - 1]);
    }
  }

  lemma FoldOne(a: Aggregate, ps: seq<Point>, p: Point)
    ensures Fold(a, ps + [p]) == AddValue(Fold(a, ps), p.bits)
  {
    assert (ps + [p])[..|ps|] == ps;
  }

  /** The aggregates agree in everything but the sum, whose roundings depend on the order of the additions. */
  predicate Agree(a: Aggregate, b: Aggregate) {
    a.count == b.count && (a.count > 0 ==> a.min == b.min && a.max == b.max)
  }

  /** The same bounds, whatever the counts and sums are. */
  predicate SameBounds(a: Aggregate, b: Aggregate) {
    (a.count == 0 <==> b.count == 0) && (a.count > 0 ==> a.min == b.min && a.max == b.max)
  }

  lemma {:induction false} FoldCount(a: Aggregate, ps: seq<Point>)
    ensures Fold(a, ps).count == a.count + |ps|
  {
    hide Doubles.Below, Doubles.Add;
    if ps != [] {
      FoldCount(a, ps[..|ps| - 1]);
    }
  }

  /** Unless the first of them is a NaN that meets other values, points are folded in by their extremes. */
  lemma {:induction false} FoldStatistics(a: Aggregate, ps: seq<Point>)
    requires ps != [] && (a.count == 0 || !Doubles.IsNaN(ps[0].bits))
    ensures var lo, hi, r := MinBits(ps), MaxBits(ps), Fold(a, ps);
            && r.min == (if a.count == 0 || Doubles.Below(lo, a.min) then lo else a.min)
            && r.max == (if a.count == 0 || Doubles.Below(a.max, hi) then hi else a.max)
  {
    hide Doubles.Value, Doubles.Add, Doubles.IsNaN;
    var init := ps[..|ps| - 1];
    if init == [] {
      assert Fold(a, init) == a;
    } else {
      FoldStatistics(a, init);
      FoldCount(a, init);
      ValueBounds(init);
    }
  }

  /** The bounds move exactly when a value lies outside them. */
  lemma {:induction false} FoldKeeps(a: Aggregate, ps: seq<Point>)
    requires a.count > 0
    ensures var r := Fold(a, ps);
            && (if exists p :: p in ps && Doubles.Below(p.bits, a.min)
                then Doubles.Below(r.min, a.min) else r.min == a.min)
            && (if exists p :: p in ps && Doubles.Below(a.max, p.bits)
                then Doubles.Below(a.max, r.max) else r.max == a.max)
  {
    hide Doubles.Value, Doubles.Add, Doubles.IsNaN;
    if ps != [] {
      var init, last := ps[..|ps| - 1], ps[|ps| - 1];
      FoldKeeps(a, init);
      FoldCount(a, init);
      assert ps == init + [last];
      assert last in ps && forall p :: p in init ==> p in ps;
    }
  }

  lemma {:induction false} FoldSumExact(a: Aggregate, ps: seq<Point>, before: seq<Point>)
    requires ExactSums(before + ps) && Doubles.Finite(a.sum) && Doubles.Value(a.sum) == SumValues(before)
    ensures Doubles.Finite(Fold(a, ps).sum) && Doubles.Value(Fold(a, ps).sum) == SumValues(before + ps)
  {
    hide Doubles.Value, Doubles.Add, Doubles.Finite, Doubles.Representable, SumValues, Doubles.Below;
    if ps == [] {
      assert before + ps == before;
    } else {
      var init, last := ps[..|ps| - 1], ps[|ps| - 1];
      var all := before + ps;
      assert all == before + init + [last] && all[..|all| - 1] == before + init;
      ExactPrefix(all, |all| - 1);
      FoldSumExact(a, init, before);
      SumPush(before + init, last);
      assert all[..|all|] == all && all[|all| - 1] == last;
      Doubles.AddExact(Fold(a, init).sum, last.bits);
    }
  }

  /** The pattern is that of a point, and of a smallest one; a NaN at the front stays, others are left out. */
  ghost predicate IsLeast(ps: seq<Point>, v: u64)
    requires ps != []
  {
    && (exists p :: p in ps && p.bits == v)
    && if Doubles.IsNaN(ps[0].bits) then v == ps[0].bits
       else
         && !Doubles.IsNaN(v)
         && forall p :: p in ps && !Doubles.IsNaN(p.bits) ==> Doubles.Value(v) <= Doubles.Value(p.bits)
  }

  /** The same with a largest one. */
  ghost predicate IsGreatest(ps: seq<Point>, v: u64)
    requires ps != []
  {
    && (exists p :: p in ps && p.bits == v)
    && if Doubles.IsNaN(ps[0].bits) then v == ps[0].bits
       else
         && !Doubles.IsNaN(v)
         && forall p :: p in ps && !Doubles.IsNaN(p.bits) ==> Doubles.Value(p.bits) <= Doubles.Value(v)
  }

  /**
   * What the fold computes: the number of points, bounds that are attained, and the exact sum if none is rounded. The
   * bounds enclose all numbers unless the first value is a NaN, which then stays.
   */
  lemma FoldMeaning(ps: seq<Point>)
    ensures Fold(EMPTY, ps).count == |ps|
    ensures ps != [] ==> IsLeast(ps, Fold(EMPTY, ps).min) && IsGreatest(ps, Fold(EMPTY, ps).max)
    ensures ExactSums(ps) ==>
              Doubles.Finite(Fold(EMPTY, ps).sum) && Doubles.Value(Fold(EMPTY, ps).sum) == SumValues(ps)
  {
    hide Doubles.Value, Doubles.Finite, Doubles.IsNaN, Doubles.Below, MinBits, MaxBits, ExactSums, AddValue;
    Doubles.ZeroPatterns();
    FoldCount(EMPTY, ps);
    assert [] + ps == ps;
    if ps != [] {
      FoldStatistics(EMPTY, ps);
      ValueBounds(ps);
    }
    if ExactSums(ps) {
      FoldSumExact(EMPTY, ps, []);
    }
  }

  /** The points whose values a header's extremes come from: a leading NaN hides the others. */
  function Heeded(b: Block): seq<Point> {
    if Doubles.IsNaN(b[0].bits) then [b[0]] else b
  }

  /** A value outside the bounds so far that the header of its block does not show. */
  ghost predicate Hides(a: Aggregate, b: Block) {
    && a.count > 0 && Doubles.IsNaN(b[0].bits)
    && exists p :: p in b && (Doubles.Below(p.bits, a.min) || Doubles.Below(a.max, p.bits))
  }

  /**
   * Header statistics stand for the points of the block in count always, and in bounds for the points the header heeds.
   * Adding the header and adding all points agree if and only if no value is hidden behind a leading NaN.
   */
  lemma HeaderIsFold(a: Aggregate, b: Block)
    ensures AddBlock(a, HeaderOf(b)).count == Fold(a, b).count
    ensures SameBounds(AddBlock(a, HeaderOf(b)), Fold(a, Heeded(b)))
    ensures Agree(AddBlock(a, HeaderOf(b)), Fold(a, b)) <==> !Hides(a, b)
  {
    hide Doubles.Value, Doubles.Add, Doubles.IsNaN, MinBits, MaxBits, Fold, HeaderOf, SumBits;
    HeaderBounds(b);
    FoldCount(a, b);
    FoldCount(a, Heeded(b));
    ValueBounds(b);
    if a.count == 0 || !Doubles.IsNaN(b[0].bits) {
      FoldStatistics(a, b);
    }
    if Doubles.IsNaN(b[0].bits) {
      FoldOfOne(a, b[0]);
      if a.count > 0 {
        FoldKeeps(a, b);
      }
    }
  }

  lemma FoldOfOne(a: Aggregate, p: Point)
    ensures Fold(a, [p]) == AddValue(a, p.bits)
  {
    hide AddValue;
    assert [p][..0] == [];
  }

  /** Such values exist: after 1, a block of a NaN and 0 is added by its header, and the minimum stays 1. */
  lemma LeadingNaNHides()
    requires BLOCK_MAX_POINTS >= 2
    ensures var a, b := Fold(EMPTY, [Point(0, Doubles.ONE)]), [Point(1, Doubles.NAN), Point(2, 0)];
            ValidBlock(b) && AddBlock(a, HeaderOf(b)).min == Doubles.ONE && Fold(a, b).min == 0
  {
    hide Doubles.Value, Doubles.Add, MinBits, MaxBits, HeaderOf, SumBits;
    Doubles.NamedValues();
    Doubles.ZeroPatterns();
    var one, a, b := Point(0, Doubles.ONE), Fold(EMPTY, [Point(0, Doubles.ONE)]), [Point(1, Doubles.NAN), Point(2, 0)];
    FoldOfOne(EMPTY, one);
    HeaderBounds(b);
    ValueBounds(b);
    assert b[..1] == [b[0]] && b == [b[0]] + [b[1]];
    FoldOfOne(a, b[0]);
    FoldOne(a, [b[0]], b[1]);
  }

  // ---------------------------------------------------------------- whole and loose points

  /** A query takes some blocks as a whole, from their headers, and other points one by one. */
  datatype Piece = Whole(block: Block) | Loose(points: seq<Point>)
  {
    function Points(): seq<Point> {
      if Whole? then block else points
    }

    /** The points that take part in minimum and maximum. */
    function Shown(): seq<Point> {
      if Whole? then Heeded(block) else points
    }

    function AddTo(a: Aggregate): Aggregate {
      if Whole? then AddBlock(a, HeaderOf(block)) else Fold(a, points)
    }
  }

  function ShownBy(pieces: seq<Piece>): seq<Point> {
    if pieces == [] then [] else ShownBy(pieces[..|pieces| - 1]) + pieces[|pieces| - 1].Shown()
  }

  /** No block that is taken as a whole starts with a NaN. */
  predicate NoLeadingNaN(pieces: seq<Piece>) {
    forall k :: 0 <= k < |pieces| && pieces[k].Whole? ==> !Doubles.IsNaN(pieces[k].block[0].bits)
  }

  lemma {:induction false} AllShown(pieces: seq<Piece>)
    requires NoLeadingNaN(pieces)
    ensures ShownBy(pieces) == PointsOf(pieces)
  {
    hide Doubles.IsNaN;
    if pieces != [] {
      AllShown(pieces[..|pieces| - 1]);
    }
  }

  function PointsOf(pieces: seq<Piece>): seq<Point> {
    if pieces == [] then [] else PointsOf(pieces[..|pieces| - 1]) + pieces[|pieces| - 1].Points()
  }

  function Total(pieces: seq<Piece>): Aggregate {
    if pieces == [] then EMPTY else pieces[|pieces| - 1].AddTo(Total(pieces[..|pieces| - 1]))
  }

  lemma TotalPush(pieces: seq<Piece>, p: Piece)
    ensures Total(pieces + [p]) == p.AddTo(Total(pieces)) && PointsOf(pieces + [p]) == PointsOf(pieces) + p.Points()
  {
    hide Piece.AddTo;
    assert (pieces + [p])[..|pieces|] == pieces;
  }

  lemma {:induction false} FoldSameBounds(a: Aggregate, b: Aggregate, ps: seq<Point>)
    requires SameBounds(a, b)
    ensures SameBounds(Fold(a, ps), Fold(b, ps))
  {
    hide Doubles.Below, Doubles.Add;
    if ps != [] {
      FoldSameBounds(a, b, ps[..|ps| - 1]);
    }
  }

  /**
   * However the points are cut into pieces, the count is their number and the bounds are those of the points that the
   * pieces show. These are all points unless a block taken as a whole starts with a NaN.
   */
  lemma {:induction false} TotalAgrees(pieces: seq<Piece>)
    ensures Total(pieces).count == |PointsOf(pieces)|
    ensures SameBounds(Total(pieces), Fold(EMPTY, ShownBy(pieces)))
    ensures NoLeadingNaN(pieces) ==> Agree(Total(pieces), Fold(EMPTY, PointsOf(pieces)))
  {
    hide Fold, HeaderOf, AddBlock, Heeded, NoLeadingNaN;
    if pieces == [] {
      NothingAdded(EMPTY);
    } else {
      var init, last := pieces[..|pieces| - 1], pieces[|pieces| - 1];
      TotalAgrees(init);
      FoldConcat(EMPTY, ShownBy(init), last.Shown());
      FoldSameBounds(Total(init), Fold(EMPTY, ShownBy(init)), last.Shown());
      FoldCount(Total(init), last.Points());
      if last.Whole? {
        HeaderIsFold(Total(init), last.block);
      }
    }
    FoldCount(EMPTY, PointsOf(pieces));
    if NoLeadingNaN(pieces) {
      AllShown(pieces);
    }
  }

  lemma NothingAdded(a: Aggregate)
    ensures Fold(a, []) == a
  {}

  /** No sum on the way is rounded, neither inside a whole block nor over the points together. */
  ghost predicate ExactPieces(pieces: seq<Piece>) {
    && ExactSums(PointsOf(pieces))
    && (forall k :: 0 <= k < |pieces| && pieces[k].Whole? ==> ExactSums(pieces[k].block))
  }

  lemma {:induction false} SumConcat(a: seq<Point>, b: seq<Point>)
    ensures SumValues(a + b) == SumValues(a) + SumValues(b)
  {
    hide Doubles.Value;
    if b == [] {
      assert a + b == a;
    } else {
      assert (a + b)[..|a + b| - 1] == a + b[..|b| - 1] && (a + b)[|a + b| - 1] == b[|b| - 1];
      SumConcat(a, b[..|b| - 1]);
    }
  }

  /** Then the sum is exact however the points were cut into pieces. */
  lemma {:induction false} TotalSumExact(pieces: seq<Piece>)
    requires ExactPieces(pieces)
    ensures Doubles.Finite(Total(pieces).sum) && Doubles.Value(Total(pieces).sum) == SumValues(PointsOf(pieces))
  {
    hide Doubles.Value, Doubles.Finite, Doubles.Representable, Doubles.Add, SumValues, HeaderOf, Fold, ExactSums,
         Doubles.Below;
    Doubles.ZeroPatterns();
    if pieces == [] {
      NoSum();
    } else {
      var init, last := pieces[..|pieces| - 1], pieces[|pieces| - 1];
      var before, all := PointsOf(init), PointsOf(pieces);
      assert all[..|before|] == before;
      ExactPrefix(all, |before|);
      TotalSumExact(init);
      if last.Whole? {
        SumBitsExact(last.block);
        SumConcat(before, last.block);
        LastSumRepresentable(all);
        HeaderBounds(last.block);
        Doubles.AddExact(Total(init).sum, SumBits(last.block));
      } else {
        FoldSumExact(Total(init), last.points, before);
      }
    }
  }

  lemma NoSum()
    ensures SumValues([]) == 0.0
  {}

  lemma LastSumRepresentable(ps: seq<Point>)
    requires ExactSums(ps)
    ensures Doubles.Representable(SumValues(ps))
  {
    hide Doubles.Representable, SumValues;
    assert ps[..|ps|] == ps;
  }

  // ---------------------------------------------------------------- aggregate queries

  /** Blocks inside the interval are taken as a whole. */
  function QueryPiece(b: Block, from: i64, to: i64): Piece {
    if from <= MinTimestamp(b) && MaxTimestamp(b) <= to then Whole(b) else Loose(InRange(b, from, to))
  }

  /** The header is used for the blocks all of whose points are in the interval, and for no other ones. */
  lemma WholeIfCovered(b: Block, from: i64, to: i64)
    ensures QueryPiece(b, from, to) ==
            if forall p :: p in b ==> from <= p.timestamp <= to then Whole(b) else Loose(InRange(b, from, to))
  {
    hide MinTimestamp, MaxTimestamp, InRange;
    TimestampBounds(b);
  }

  function BlockPieces(blocks: seq<Block>, from: i64, to: i64): seq<Piece> {
    seq(|blocks|, k requires 0 <= k < |blocks| => QueryPiece(blocks[k], from, to))
  }

  /** The pieces of an aggregate query: the blocks in order, then the buffer. */
  function QueryPieces(blocks: seq<Block>, buffer: seq<Point>, from: i64, to: i64): seq<Piece> {
    BlockPieces(blocks, from, to) + [Loose(InRange(buffer, from, to))]
  }

  lemma QueryPiecePoints(b: Block, from: i64, to: i64)
    ensures QueryPiece(b, from, to).Points() == InRange(b, from, to)
  {
    hide MinTimestamp, MaxTimestamp;
    if from <= MinTimestamp(b) && MaxTimestamp(b) <= to {
      TimestampBounds(b);
      BetweenAll(b, from, to + 1);
    }
  }

  lemma {:induction false} BlockPiecesPoints(blocks: seq<Block>, from: i64, to: i64)
    ensures PointsOf(BlockPieces(blocks, from, to)) == InRange(Flatten(blocks), from, to)
  {
    hide QueryPiece, InRange, Piece.Points;
    if blocks == [] {
      NothingLeft([], from, to);
    } else {
      var init, last := blocks[..|blocks| - 1], blocks[|blocks| - 1];
      BlockPiecesPoints(init, from, to);
      assert BlockPieces(blocks, from, to)[..|blocks| - 1] == BlockPieces(init, from, to);
      QueryPiecePoints(last, from, to);
      InRangeConcat(Flatten(init), last, from, to);
    }
  }

  /** Together the pieces are the visible points of the interval. */
  lemma QueryPiecesPoints(blocks: seq<Block>, buffer: seq<Point>, from: i64, to: i64)
    ensures PointsOf(QueryPieces(blocks, buffer, from, to)) == InRange(Flatten(blocks) + buffer, from, to)
  {
    hide InRange, BlockPieces;
    BlockPiecesPoints(blocks, from, to);
    TotalPush(BlockPieces(blocks, from, to), Loose(InRange(buffer, from, to)));
    InRangeConcat(Flatten(blocks), buffer, from, to);
  }

  /** Adds the points of [from, to] one by one. */
  method AddPoints(a: Aggregate, ps: seq<Point>, from: i64, to: i64) returns (r: Aggregate)
    ensures r == Fold(a, InRange(ps, from, to))
  {
    hide AddValue;
    r := a;
    assert ps[0..] == ps && ps[..0] == [];
    for i := 0 to |ps|
      invariant r == Fold(a, InRange(ps[..i], from, to))
    {
      assert ps[..i + 1] == ps[..i] + [ps[i]];
      InRangeConcat(ps[..i], [ps[i]], from, to);
      OneInRange(ps[i], from, to);
      if from <= ps[i].timestamp <= to {
        FoldOne(a, InRange(ps[..i], from, to), ps[i]);
        r := AddValue(r, ps[i].bits);
      } else {
        assert InRange(ps[..i], from, to) + [] == InRange(ps[..i], from, to);
      }
    }
    assert ps[..|ps|] == ps;
  }

  lemma OneInRange(p: Point, from: i64, to: i64)
    ensures InRange([p], from, to) == if from <= p.timestamp <= to then [p] else []
  {
    assert [] + [p] == [p];
    BetweenPush([], p, from, to + 1);
  }

  /** One indexed block: skipped, taken from its header when it lies inside the interval, or decoded. */
  method AggregateBlock(a: Aggregate, files: Files, e: IndexEntry, from: i64, to: i64, ghost b: Block)
    returns (r: Aggregate)
    requires Readable(files, e, b) && from <= to
    ensures r == QueryPiece(b, from, to).AddTo(a)
  {
    hide InRange, Fold, AddBlock, HeaderOf, MinTimestamp, MaxTimestamp, DecodeBlockAt, ReadHeaderAt;
    HeaderBounds(b);
    if e.maxTimestamp < from || e.minTimestamp > to {
      BoundsOrdered(b);
      SkippedBlock(b, from, to);
      NothingAdded(a);
      return a;
    }
    var hr := ReadHeader(files[e.segmentId], e.offset);
    if hr.header.minTimestamp >= from && hr.header.maxTimestamp <= to {
      r := AddBlock(a, hr.header);
    } else {
      var block := ReadBlock(files[e.segmentId], e.offset);
      r := AddPoints(a, block.value.1, from, to);
    }
  }

  lemma BoundsOrdered(b: Block)
    ensures MinTimestamp(b) <= MaxTimestamp(b)
  {
    hide MinTimestamp, MaxTimestamp;
    TimestampBounds(b);
    assert b[0] in b;
  }

  /**
   * Skips disjoint blocks, takes covered ones from their headers, decodes the rest, and adds the buffer. The count is
   * that of the visible points in [from, to], minimum and maximum are those of folding over them, as far as leading
   * NaNs of covered blocks do not hide some, and the sum is added up piece by piece.
   */
  method AggregateState(files: Files, index: seq<IndexEntry>, buffer: seq<Point>, from: i64, to: i64,
                        ghost blocks: seq<Block>)
    returns (status: ReadStatus, state: Aggregate)
    requires Indexed(files, index, blocks)
    ensures from > to ==> status == InvalidArgument
    ensures from <= to ==>
              var pieces := QueryPieces(blocks, buffer, from, to);
              var ps := InRange(Flatten(blocks) + buffer, from, to);
              && status == ReadOk && state == Total(pieces) && state.count == |ps|
              && SameBounds(state, Fold(EMPTY, ShownBy(pieces)))
              && (NoLeadingNaN(pieces) ==> Agree(state, Fold(EMPTY, ps)))
  {
    hide Flatten, InRange, Fold, QueryPiece, Piece.AddTo, Readable, ShownBy, NoLeadingNaN;
    state := EMPTY;
    if from > to {
      return InvalidArgument, state;
    }
    assert BlockPieces(blocks[..0], from, to) == [];
    for k := 0 to |index|
      invariant state == Total(BlockPieces(blocks[..k], from, to))
    {
      state := AggregateBlock(state, files, index[k], from, to, blocks[k]);
      TotalPush(BlockPieces(blocks[..k], from, to), QueryPiece(blocks[k], from, to));
      assert BlockPieces(blocks[..k + 1], from, to)
          == BlockPieces(blocks[..k], from, to) + [QueryPiece(blocks[k], from, to)];
    }
    assert blocks[..|index|] == blocks;
    ghost var last := Loose(InRange(buffer, from, to));
    TotalPush(BlockPieces(blocks, from, to), last);
    state := AddPoints(state, buffer, from, to);
    assert state == last.AddTo(Total(BlockPieces(blocks, from, to))) by {
      LooseAdds(Total(BlockPieces(blocks, from, to)), InRange(buffer, from, to));
    }
    QueryPiecesPoints(blocks, buffer, from, to);
    TotalAgrees(QueryPieces(blocks, buffer, from, to));
    status := ReadOk;
  }

  lemma LooseAdds(a: Aggregate, ps: seq<Point>)
    ensures Loose(ps).AddTo(a) == Fold(a, ps)
  {}

  datatype AggregateType = Min | Max | Sum | Avg | Count

  datatype Answer = Invalid | NoPoints | Number(bits: u64)

  /** A rounded sum divided by a count that a binary64 word holds exactly. */
  function Quotient(sum: u64, count: nat): u64
    requires count > 0
  {
    if !Doubles.Finite(sum) || Doubles.Value(sum) == 0.0 then sum else Doubles.Round(Doubles.Value(sum) / count as real)
  }

  lemma QuotientExact(sum: u64, count: nat, exact: real)
    requires count > 0 && Doubles.Finite(sum) && Doubles.Value(sum) == exact
    ensures Doubles.Value(Quotient(sum, count)) == Doubles.Value(Doubles.Round(exact / count as real))
  {
    hide Doubles.Value, Doubles.Finite, Doubles.Round;
    Doubles.ZeroPatterns();
    Doubles.RoundExact(0);
  }

  /**
   * The reference answer of an aggregate query over a list of points whose values were added up to `sum`, and of which
   * those `shown` take part in minimum and maximum.
   */
  function AnswerOf(ps: seq<Point>, shown: seq<Point>, kind: AggregateType, sum: u64): Answer {
    var r := Fold(EMPTY, shown);
    if ps == [] then if kind.Count? then Number(Doubles.Round(0.0)) else NoPoints
    else
      match kind
      case Min => Number(r.min)
      case Max => Number(r.max)
      case Sum => Number(sum)
      case Avg => Number(Quotient(sum, |ps|))
      case Count => Number(Doubles.Round(|ps| as real))
  }

  /** Sum and average are the exact ones, the latter rounded once, when no sum on the way is rounded. */
  lemma AnswerExact(blocks: seq<Block>, buffer: seq<Point>, from: i64, to: i64)
    requires ExactPieces(QueryPieces(blocks, buffer, from, to))
    requires InRange(Flatten(blocks) + buffer, from, to) != []
    ensures var ps, pieces := InRange(Flatten(blocks) + buffer, from, to), QueryPieces(blocks, buffer, from, to);
            var total := AnswerOf(ps, ShownBy(pieces), Sum, Total(pieces).sum);
            var average := AnswerOf(ps, ShownBy(pieces), Avg, Total(pieces).sum);
            && total.Number? && Doubles.Finite(total.bits) && Doubles.Value(total.bits) == SumValues(ps)
            && average.Number?
            && Doubles.Value(average.bits) == Doubles.Value(Doubles.Round(SumValues(ps) / |ps| as real))
  {
    hide Doubles.Value, Doubles.Finite, Doubles.Round, ExactPieces, InRange, Fold, Flatten, SumValues, QueryPieces,
         Total, Quotient, ShownBy;
    var ps := InRange(Flatten(blocks) + buffer, from, to);
    QueryPiecesPoints(blocks, buffer, from, to);
    TotalSumExact(QueryPieces(blocks, buffer, from, to));
    QuotientExact(Total(QueryPieces(blocks, buffer, from, to)).sum, |ps|, SumValues(ps));
  }

  /**
   * What an answer says of the points `ps`. Nothing is said of no points, but that they are none. The count is exact up
   * to 2^53. Minimum and maximum are those of the points if no block `shown` by its header starts with a NaN. If no sum
   * on the way was rounded, the sum is exact and the average is the exact quotient, rounded once.
   */
  ghost predicate Answers(answer: Answer, ps: seq<Point>, kind: AggregateType, plain: bool, exact: bool) {
    && (answer.NoPoints? <==> ps == [] && !kind.Count?)
    && (answer.Number? <==> ps != [] || kind.Count?)
    && (answer.Number? ==>
          match kind
          case Min => plain ==> IsLeast(ps, answer.bits)
          case Max => plain ==> IsGreatest(ps, answer.bits)
          case Sum => exact ==> Doubles.Finite(answer.bits) && Doubles.Value(answer.bits) == SumValues(ps)
          case Avg =>
            exact ==> Doubles.Value(answer.bits) == Doubles.Value(Doubles.Round(SumValues(ps) / |ps| as real))
          case Count =>
            |ps| <= 2 * Doubles.FRACTION ==> Doubles.Finite(answer.bits) && Doubles.Value(answer.bits) == |ps| as real)
  }

  lemma BoundsAnswer(ps: seq<Point>, shown: seq<Point>, sum: u64)
    requires ps != [] && shown == ps
    ensures var low, high := AnswerOf(ps, shown, Min, sum), AnswerOf(ps, shown, Max, sum);
            low.Number? && high.Number? && IsLeast(ps, low.bits) && IsGreatest(ps, high.bits)
  {
    hide Fold, IsLeast, IsGreatest, Quotient, Doubles.Round;
    FoldMeaning(ps);
  }

  lemma CountAnswer(ps: seq<Point>, shown: seq<Point>, sum: u64)
    requires |ps| <= 2 * Doubles.FRACTION
    ensures var n := AnswerOf(ps, shown, Count, sum);
            n.Number? && Doubles.Finite(n.bits) && Doubles.Value(n.bits) == |ps| as real
  {
    hide Fold, Quotient, Doubles.Round, Doubles.Value, Doubles.Finite;
    Doubles.WholeNumbersExact(|ps|);
  }

  lemma AnswerKind(ps: seq<Point>, shown: seq<Point>, kind: AggregateType, sum: u64)
    ensures var answer := AnswerOf(ps, shown, kind, sum);
            && !answer.Invalid? && (answer.NoPoints? <==> ps == [] && !kind.Count?)
  {
    hide Fold, Quotient, Doubles.Round;
  }

  /** The reference answer tells what it should about the visible points of the interval. */
  lemma AnswerMeaning(blocks: seq<Block>, buffer: seq<Point>, from: i64, to: i64, kind: AggregateType)
    ensures var ps, pieces := InRange(Flatten(blocks) + buffer, from, to), QueryPieces(blocks, buffer, from, to);
            Answers(AnswerOf(ps, ShownBy(pieces), kind, Total(pieces).sum), ps, kind, NoLeadingNaN(pieces),
                    ExactPieces(pieces))
  {
    hide InRange, Flatten, QueryPieces, Total, ShownBy, NoLeadingNaN, ExactPieces, AnswerOf, IsLeast, IsGreatest,
         SumValues, Doubles.Value, Doubles.Finite, Doubles.Round;
    var ps, pieces := InRange(Flatten(blocks) + buffer, from, to), QueryPieces(blocks, buffer, from, to);
    AnswerKind(ps, ShownBy(pieces), kind, Total(pieces).sum);
    if |ps| <= 2 * Doubles.FRACTION {
      CountAnswer(ps, ShownBy(pieces), Total(pieces).sum);
    }
    if ps != [] && NoLeadingNaN(pieces) {
      AllShown(pieces);
      QueryPiecesPoints(blocks, buffer, from, to);
      BoundsAnswer(ps, ShownBy(pieces), Total(pieces).sum);
    }
    if ps != [] && ExactPieces(pieces) {
      AnswerExact(blocks, buffer, from, to);
    }
  }

  method AggregateQuery(files: Files, index: seq<IndexEntry>, buffer: seq<Point>, from: i64, to: i64,
                        kind: AggregateType, ghost blocks: seq<Block>)
    returns (answer: Answer)
    requires Indexed(files, index, blocks)
    ensures answer.Invalid? <==> from > to
    ensures from <= to ==>
              var pieces := QueryPieces(blocks, buffer, from, to);
              Answers(answer, InRange(Flatten(blocks) + buffer, from, to), kind, NoLeadingNaN(pieces),
                      ExactPieces(pieces))
    ensures answer ==
            if from > to then Invalid
            else
              var pieces := QueryPieces(blocks, buffer, from, to);
              AnswerOf(InRange(Flatten(blocks) + buffer, from, to), ShownBy(pieces), kind, Total(pieces).sum)
  {
    hide Flatten, InRange, Fold, Indexed, QueryPieces, Total, Doubles.Round, Quotient, ShownBy, NoLeadingNaN, Answers;
    if from > to {
      return Invalid;
    }
    AnswerMeaning(blocks, buffer, from, to, kind);
    AnswerKind(InRange(Flatten(blocks) + buffer, from, to), ShownBy(QueryPieces(blocks, buffer, from, to)), kind,
               Total(QueryPieces(blocks, buffer, from, to)).sum);
    var status, state := AggregateState(files, index, buffer, from, to, blocks);
    if state.count == 0 && !kind.Count? {
      return NoPoints;
    }
    match kind
    case Min => answer := Number(state.min);
    case Max => answer := Number(state.max);
    case Sum => answer := Number(state.sum);
    case Avg => answer := Number(Quotient(state.sum, state.count));
    case Count => answer := Number(Doubles.Round(state.count as real));
  }
}
