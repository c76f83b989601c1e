/** Windowed aggregation (src/core/series_query.c:18-134 and 310-447). */
module Windows {
  import opened Wire
  import opened Config
  import opened Codec
  import opened Points
  import opened Segments
  import opened State
  import opened Query
  import Doubles

  // ---------------------------------------------------------------- the request

  /** The number of windows, or nothing for a request that is refused. */
  function WindowCount(start: i64, end: i64, width: i64): Option<nat> {
    if width <= 0 || start > end then None
    else if start == end then Some(0)
    else if start < 0 && end > TWO63 - 1 + start then None
    else
      var range := end - start;
      var count := range / width + if range % width != 0 then 1 else 0;
      if count > MAX_WINDOW_AGGREGATES then None else Some(count)
  }

  /** A request the loops below can serve: the interval's length is a signed word and the windows cover it. */
  predicate Served(start: i64, end: i64, width: i64, count: nat) {
    width > 0 && start <= end && end - start < TWO63 && count * width >= end - start
    && (count > 0 ==> (count - 1) * width < end - start)
  }

  /**
   * A request is accepted exactly when it is well-formed, its length is a signed word and it needs few enough windows.
   */
  lemma WindowCountExact(start: i64, end: i64, width: i64)
    ensures WindowCount(start, end, width).Some? <==>
              width > 0 && start <= end && end - start < TWO63 && end - start <= MAX_WINDOW_AGGREGATES * width
    ensures WindowCount(start, end, width).Some? ==> Served(start, end, width, WindowCount(start, end, width).value)
  {
    if width > 0 && start == end {
      MoreWindows(0, MAX_WINDOW_AGGREGATES, width);
    }
    if width > 0 && start < end && end - start < TWO63 {
      var range, q, r := end - start, (end - start) / width, (end - start) % width;
      assert range == q * width + r;
      var count := q + if r != 0 then 1 else 0;
      CoverArithmetic(range, width, q, r);
      if count > MAX_WINDOW_AGGREGATES {
        FewerWindows(MAX_WINDOW_AGGREGATES, count, width, range);
      } else {
        MoreWindows(count, MAX_WINDOW_AGGREGATES, width);
      }
    }
  }

  lemma CoverArithmetic(range: nat, width: nat, q: nat, r: nat)
    requires width > 0 && range > 0 && range == q * width + r && r < width
    ensures var count := q + if r != 0 then 1 else 0;
            count * width >= range && count > 0 && (count - 1) * width < range
  {
    assert (q + 1) * width == q * width + width;
    if r == 0 {
      assert q > 0;
      assert (q - 1) * width == q * width - width;
    }
  }

  lemma FewerWindows(a: nat, b: nat, width: nat, range: nat)
    requires a < b && (b - 1) * width < range
    ensures a * width < range
  {
    assert (b - 1 - a) * width >= 0;
    assert (b - 1) * width == a * width + (b - 1 - a) * width;
  }

  // ---------------------------------------------------------------- windows

  function Lower(start: int, width: int, k: nat): int {
    start + k * width
  }

  /** The last window is clipped. */
  function Upper(start: int, end: int, width: int, k: nat): int {
    if end - Lower(start, width, k) < width then end else Lower(start, width, k) + width
  }

  /** The points of window `k`. */
  function InWindow(ps: seq<Point>, start: int, end: int, width: int, k: nat): seq<Point> {
    Between(ps, Lower(start, width, k), Upper(start, end, width, k))
  }

  lemma WindowIndex(t: int, start: int, end: int, width: int, count: nat, k: nat)
    requires width > 0 && start <= t < end && k < count && (count - 1) * width < end - start <= count * width
    ensures (t - start) / width < count
    ensures Lower(start, width, k) <= t < Upper(start, end, width, k) <==> k == (t - start) / width
  {
    var q, r := (t - start) / width, (t - start) % width;
    assert t - start == q * width + r;
    if q >= count {
      MoreWindows(count, q, width);
    }
    if k < q {
      MoreWindows(k + 1, q, width);
      assert (k + 1) * width == k * width + width;
    } else if q < k {
      MoreWindows(q + 1, k, width);
      assert (q + 1) * width == q * width + width;
    }
  }

  lemma MoreWindows(a: int, b: int, width: int)
    requires a <= b && width > 0
    ensures a * width <= b * width
  {
    assert (b - a) * width >= 0;
    assert b * width == a * width + (b - a) * width;
  }

  lemma WindowEnds(start: int, end: int, width: int, count: nat, k: nat)
    requires width > 0 && start <= end && k < count && (count - 1) * width < end - start <= count * width
    ensures start <= Lower(start, width, k) < Upper(start, end, width, k) <= end
    ensures Lower(start, width, k) + width <= end ==> Upper(start, end, width, k) == Lower(start, width, k) + width
    ensures k == count - 1 ==> Upper(start, end, width, k) == end
  {
    MoreWindows(0, k, width);
    MoreWindows(k, count - 1, width);
    assert count * width == (count - 1) * width + width;
  }

  // ---------------------------------------------------------------- specification of the result

  /** The blocks whose header stands for their points: those that lie in a single window of the interval. */
  predicate InOneWindow(b: Block, start: i64, end: i64, width: i64) {
    && width > 0 && start <= MinTimestamp(b) && MaxTimestamp(b) < end
    && (MinTimestamp(b) - start) / width == (MaxTimestamp(b) - start) / width
  }

  /** What a block contributes to window `k`. */
  function WindowPiece(b: Block, start: i64, end: i64, width: i64, k: nat): Piece {
    if InOneWindow(b, start, end, width) && (MinTimestamp(b) - start) / width == k then Whole(b)
    else Loose(InWindow(b, start, end, width, k))
  }

  function BlockParts(blocks: seq<Block>, start: i64, end: i64, width: i64, k: nat): seq<Piece> {
    seq(|blocks|, j requires 0 <= j < |blocks| => WindowPiece(blocks[j], start, end, width, k))
  }

  /** The pieces of window `k`: the blocks in order, then the buffer. */
  function WindowPieces(blocks: seq<Block>, buffer: seq<Point>, start: i64, end: i64, width: i64, k: nat): seq<Piece> {
    BlockParts(blocks, start, end, width, k) + [Loose(InWindow(buffer, start, end, width, k))]
  }

  lemma WindowPiecePoints(b: Block, start: i64, end: i64, width: i64, count: nat, k: nat)
    requires Served(start, end, width, count) && k < count
    ensures WindowPiece(b, start, end, width, k).Points() == InWindow(b, start, end, width, k)
  {
    hide MinTimestamp, MaxTimestamp, InWindow, Served;
    if InOneWindow(b, start, end, width) && (MinTimestamp(b) - start) / width == k {
      BlockInWindow(b, start, end, width, count, k, k);
    }
  }

  lemma {:induction false} BlockPartsPoints(blocks: seq<Block>, start: i64, end: i64, width: i64, count: nat, k: nat)
    requires Served(start, end, width, count) && k < count
    ensures PointsOf(BlockParts(blocks, start, end, width, k)) == InWindow(Flatten(blocks), start, end, width, k)
  {
    hide WindowPiece, Between, Piece.Points, Served, Lower, Upper;
    if blocks == [] {
      BetweenNone([], Lower(start, width, k), Upper(start, end, width, k));
    } else {
      var init, last := blocks[..|blocks| - 1], blocks[|blocks| - 1];
      BlockPartsPoints(init, start, end, width, count, k);
      assert BlockParts(blocks, start, end, width, k)[..|blocks| - 1] == BlockParts(init, start, end, width, k);
      WindowPiecePoints(last, start, end, width, count, k);
      BetweenConcat(Flatten(init), last, Lower(start, width, k), Upper(start, end, width, k));
    }
  }

  /** Together the pieces are the visible points of the window. */
  lemma WindowPiecesPoints(blocks: seq<Block>, buffer: seq<Point>, start: i64, end: i64, width: i64, count: nat, k: nat)
    requires Served(start, end, width, count) && k < count
    ensures PointsOf(WindowPieces(blocks, buffer, start, end, width, k))
            == InWindow(Flatten(blocks) + buffer, start, end, width, k)
  {
    hide BlockParts, Between, Served, Lower, Upper;
    BlockPartsPoints(blocks, start, end, width, count, k);
    TotalPush(BlockParts(blocks, start, end, width, k), Loose(InWindow(buffer, start, end, width, k)));
    BetweenConcat(Flatten(blocks), buffer, Lower(start, width, k), Upper(start, end, width, k));
  }

  datatype WindowAggregate = WindowAggregate(start: i64, end: i64, count: nat, min: u64, max: u64, avg: u64)

  /**
   * The entry of window `k`, present only when the window holds a point: the number of the window's visible points, the
   * bounds of those that its pieces show, and the average by a sum added up piece by piece.
   */
  function Entry(blocks: seq<Block>, buffer: seq<Point>, start: i64, end: i64, width: i64, count: nat, k: nat)
    : seq<WindowAggregate>
    requires Served(start, end, width, count) && k < count
  {
    WindowEnds(start, end, width, count, k);
    var n, pieces := |InWindow(Flatten(blocks) + buffer, start, end, width, k)|,
                     WindowPieces(blocks, buffer, start, end, width, k);
    if n == 0 then []
    else
      var r := Fold(EMPTY, ShownBy(pieces));
      [WindowAggregate(Lower(start, width, k), Upper(start, end, width, k), n, r.min, r.max,
                       Quotient(Total(pieces).sum, n))]
  }

  /** The bounds of a window are those of its visible points unless a block in it starts with a NaN. */
  lemma EntryBounds(blocks: seq<Block>, buffer: seq<Point>, start: i64, end: i64, width: i64, count: nat, k: nat)
    requires Served(start, end, width, count) && k < count
    requires NoLeadingNaN(WindowPieces(blocks, buffer, start, end, width, k))
    ensures var ps := InWindow(Flatten(blocks) + buffer, start, end, width, k);
            var e := Entry(blocks, buffer, start, end, width, count, k);
            e != [] ==> ps != [] && e[0].count == |ps| && IsLeast(ps, e[0].min) && IsGreatest(ps, e[0].max)
  {
    hide InWindow, Fold, WindowPieces, Total, Served, Quotient, Lower, Upper, Flatten, NoLeadingNaN, PointsOf, ShownBy,
         IsLeast, IsGreatest;
    WindowPiecesPoints(blocks, buffer, start, end, width, count, k);
    AllShown(WindowPieces(blocks, buffer, start, end, width, k));
    FoldMeaning(InWindow(Flatten(blocks) + buffer, start, end, width, k));
  }

  /** The entries of the first `n` windows, in order. */
  function Entries(blocks: seq<Block>, buffer: seq<Point>, start: i64, end: i64, width: i64, count: nat, n: nat)
    : seq<WindowAggregate>
    requires Served(start, end, width, count) && n <= count
  {
    if n == 0 then []
    else
      Entries(blocks, buffer, start, end, width, count, n - 1)
      + Entry(blocks, buffer, start, end, width, count, n - 1)
  }

  /** The average of a window is the exact one, rounded once, when no sum on the way is rounded. */
  lemma EntryAverageExact(blocks: seq<Block>, buffer: seq<Point>, start: i64, end: i64, width: i64, count: nat, k: nat)
    requires Served(start, end, width, count) && k < count
    requires ExactPieces(WindowPieces(blocks, buffer, start, end, width, k))
    ensures var ps := InWindow(Flatten(blocks) + buffer, start, end, width, k);
            var e := Entry(blocks, buffer, start, end, width, count, k);
            && (e == [] <==> ps == [])
            && (ps != [] ==>
                  Doubles.Value(e[0].avg) == Doubles.Value(Doubles.Round(SumValues(ps) / |ps| as real)))
  {
    hide Doubles.Value, Doubles.Finite, Doubles.Round, ExactPieces, InWindow, Fold, SumValues, WindowPieces, Total,
         Served, Quotient, Lower, Upper, Flatten, ShownBy;
    var ps, sum := InWindow(Flatten(blocks) + buffer, start, end, width, k),
                   Total(WindowPieces(blocks, buffer, start, end, width, k)).sum;
    WindowPiecesPoints(blocks, buffer, start, end, width, count, k);
    TotalSumExact(WindowPieces(blocks, buffer, start, end, width, k));
    if ps != [] {
      QuotientExact(sum, |ps|, SumValues(ps));
    }
  }

  // ---------------------------------------------------------------- what the result tells

  /** The bounds of window `k`: it is `width` long, and the last one ends where the interval does. */
  predicate IsWindow(w: WindowAggregate, start: i64, end: i64, width: i64, k: nat) {
    w.start == start + k * width && w.end == if w.start + width < end then w.start + width else end as int
  }

  /**
   * A listed window: its count is that of the visible points between its bounds. Its minimum and maximum are theirs if
   * no block taken as a whole starts with a NaN, and its average is the exact one, rounded once, if no sum on the way
   * was rounded.
   */
  ghost predicate TellsWindow(w: WindowAggregate, blocks: seq<Block>, buffer: seq<Point>, start: i64, end: i64,
                              width: i64, k: nat) {
    var ps, pieces := Between(Flatten(blocks) + buffer, w.start, w.end),
                      WindowPieces(blocks, buffer, start, end, width, k);
    && IsWindow(w, start, end, width, k) && w.count == |ps| > 0
    && (NoLeadingNaN(pieces) ==> IsLeast(ps, w.min) && IsGreatest(ps, w.max))
    && (ExactPieces(pieces) ==>
          Doubles.Value(w.avg) == Doubles.Value(Doubles.Round(SumValues(ps) / |ps| as real)))
  }

  /** It is one of the first `n` windows. */
  ghost predicate TellsOne(w: WindowAggregate, blocks: seq<Block>, buffer: seq<Point>, start: i64, end: i64,
                           width: i64, n: nat) {
    exists k: nat :: k < n && TellsWindow(w, blocks, buffer, start, end, width, k)
  }

  ghost predicate AllTell(ws: seq<WindowAggregate>, blocks: seq<Block>, buffer: seq<Point>, start: i64, end: i64,
                          width: i64, n: nat) {
    && (forall i :: 0 <= i < |ws| ==> TellsOne(ws[i], blocks, buffer, start, end, width, n))
    && (forall i, j :: 0 <= i < j < |ws| ==> ws[i].start < ws[j].start)
  }

  /** The answer lists windows of the request in their order, and every visible point of the interval is in one. */
  ghost predicate TellsAll(ws: seq<WindowAggregate>, blocks: seq<Block>, buffer: seq<Point>, start: i64, end: i64,
                           width: i64, count: nat) {
    && AllTell(ws, blocks, buffer, start, end, width, count)
    && forall p :: p in Flatten(blocks) + buffer && start <= p.timestamp < end ==>
         exists i :: 0 <= i < |ws| && ws[i].start <= p.timestamp < ws[i].end
  }

  lemma BoundsOfWindow(w: WindowAggregate, start: i64, end: i64, width: i64, count: nat, k: nat)
    requires Served(start, end, width, count) && k < count
    requires w.start == Lower(start, width, k) && w.end == Upper(start, end, width, k)
    ensures IsWindow(w, start, end, width, k)
  {
    WindowEnds(start, end, width, count, k);
  }

  lemma WindowOfBounds(w: WindowAggregate, start: i64, end: i64, width: i64, count: nat, k: nat)
    requires Served(start, end, width, count) && k < count && IsWindow(w, start, end, width, k)
    ensures w.start == Lower(start, width, k) && w.end == Upper(start, end, width, k)
  {
    WindowEnds(start, end, width, count, k);
  }

  lemma EntryTells(blocks: seq<Block>, buffer: seq<Point>, start: i64, end: i64, width: i64, count: nat, k: nat)
    requires Served(start, end, width, count) && k < count
    ensures var e := Entry(blocks, buffer, start, end, width, count, k);
            && (e == [] <==> InWindow(Flatten(blocks) + buffer, start, end, width, k) == [])
            && (e != [] ==> |e| == 1 && TellsWindow(e[0], blocks, buffer, start, end, width, k))
  {
    hide Between, WindowPieces, Total, Served, Quotient, Lower, Upper, Flatten, NoLeadingNaN, ExactPieces, ShownBy,
         IsLeast, IsGreatest, Doubles.Value, Doubles.Round, SumValues, Fold, IsWindow;
    var e := Entry(blocks, buffer, start, end, width, count, k);
    if e != [] {
      BoundsOfWindow(e[0], start, end, width, count, k);
      if NoLeadingNaN(WindowPieces(blocks, buffer, start, end, width, k)) {
        EntryBounds(blocks, buffer, start, end, width, count, k);
      }
      if ExactPieces(WindowPieces(blocks, buffer, start, end, width, k)) {
        EntryAverageExact(blocks, buffer, start, end, width, count, k);
      }
    }
  }

  lemma OneMoreTells(ws: seq<WindowAggregate>, w: WindowAggregate, blocks: seq<Block>, buffer: seq<Point>,
                     start: i64, end: i64, width: i64, n: nat)
    requires width > 0 && AllTell(ws, blocks, buffer, start, end, width, n)
    requires TellsWindow(w, blocks, buffer, start, end, width, n)
    ensures AllTell(ws + [w], blocks, buffer, start, end, width, n + 1)
  {
    hide TellsWindow, TellsOne;
    forall i | 0 <= i < |ws|
      ensures ws[i].start < w.start && TellsOne(ws[i], blocks, buffer, start, end, width, n + 1)
    {
      StartsBefore(ws[i], w, blocks, buffer, start, end, width, n);
    }
    assert TellsOne(w, blocks, buffer, start, end, width, n + 1) by {
      LastTells(w, blocks, buffer, start, end, width, n);
    }
  }

  lemma LastTells(w: WindowAggregate, blocks: seq<Block>, buffer: seq<Point>, start: i64, end: i64, width: i64, n: nat)
    requires TellsWindow(w, blocks, buffer, start, end, width, n)
    ensures TellsOne(w, blocks, buffer, start, end, width, n + 1)
  {
    hide TellsWindow;
  }

  lemma StillTells(w: WindowAggregate, blocks: seq<Block>, buffer: seq<Point>, start: i64, end: i64, width: i64, n: nat)
    requires TellsOne(w, blocks, buffer, start, end, width, n)
    ensures TellsOne(w, blocks, buffer, start, end, width, n + 1)
  {
    hide TellsWindow;
    var k: nat :| k < n && TellsWindow(w, blocks, buffer, start, end, width, k);
    assert k < n + 1;
  }

  lemma StartsBefore(v: WindowAggregate, w: WindowAggregate, blocks: seq<Block>, buffer: seq<Point>,
                     start: i64, end: i64, width: i64, n: nat)
    requires width > 0 && TellsOne(v, blocks, buffer, start, end, width, n)
    requires TellsWindow(w, blocks, buffer, start, end, width, n)
    ensures v.start < w.start && TellsOne(v, blocks, buffer, start, end, width, n + 1)
  {
    hide Between, WindowPieces, Flatten, NoLeadingNaN, ExactPieces, IsLeast, IsGreatest, Doubles.Value, Doubles.Round,
         SumValues;
    StillTells(v, blocks, buffer, start, end, width, n);
    var k: nat :| k < n && TellsWindow(v, blocks, buffer, start, end, width, k);
    MoreWindows(k + 1, n, width);
    assert (k + 1) * width == k * width + width;
  }

  lemma NoMoreTells(ws: seq<WindowAggregate>, blocks: seq<Block>, buffer: seq<Point>,
                    start: i64, end: i64, width: i64, n: nat)
    requires AllTell(ws, blocks, buffer, start, end, width, n)
    ensures AllTell(ws, blocks, buffer, start, end, width, n + 1)
  {
    hide TellsOne;
    forall i | 0 <= i < |ws|
      ensures TellsOne(ws[i], blocks, buffer, start, end, width, n + 1)
    {
      StillTells(ws[i], blocks, buffer, start, end, width, n);
    }
  }

  lemma {:induction false} EntriesTell(blocks: seq<Block>, buffer: seq<Point>, start: i64, end: i64, width: i64,
                                       count: nat, n: nat)
    requires Served(start, end, width, count) && n <= count
    ensures AllTell(Entries(blocks, buffer, start, end, width, count, n), blocks, buffer, start, end, width, n)
  {
    hide Entry, AllTell, TellsWindow, InWindow;
    if n == 0 {
      NothingTold(blocks, buffer, start, end, width);
    } else {
      var before, e := Entries(blocks, buffer, start, end, width, count, n - 1),
                       Entry(blocks, buffer, start, end, width, count, n - 1);
      EntriesTell(blocks, buffer, start, end, width, count, n - 1);
      EntryTells(blocks, buffer, start, end, width, count, n - 1);
      if e == [] {
        assert before + e == before;
        NoMoreTells(before, blocks, buffer, start, end, width, n - 1);
      } else {
        assert before + e == before + [e[0]];
        OneMoreTells(before, e[0], blocks, buffer, start, end, width, n - 1);
      }
    }
  }

  lemma NothingTold(blocks: seq<Block>, buffer: seq<Point>, start: i64, end: i64, width: i64)
    ensures AllTell([], blocks, buffer, start, end, width, 0)
  {}

  lemma {:induction false} EntryListed(blocks: seq<Block>, buffer: seq<Point>, start: i64, end: i64, width: i64,
                                       count: nat, n: nat, k: nat)
    requires Served(start, end, width, count) && k < n <= count
    ensures var ws := Entries(blocks, buffer, start, end, width, count, n);
            forall w :: w in Entry(blocks, buffer, start, end, width, count, k) ==> w in ws
  {
    hide Entry, Served;
    if k < n - 1 {
      EntryListed(blocks, buffer, start, end, width, count, n - 1, k);
    }
  }

  /** The list of entries tells what it should. */
  lemma EntriesMeaning(blocks: seq<Block>, buffer: seq<Point>, start: i64, end: i64, width: i64, count: nat)
    requires Served(start, end, width, count)
    ensures TellsAll(Entries(blocks, buffer, start, end, width, count, count), blocks, buffer, start, end, width, count)
  {
    hide Entry, Entries, AllTell, Served, Flatten;
    var ws := Entries(blocks, buffer, start, end, width, count, count);
    EntriesTell(blocks, buffer, start, end, width, count, count);
    forall p | p in Flatten(blocks) + buffer && start <= p.timestamp < end
      ensures exists i :: 0 <= i < |ws| && ws[i].start <= p.timestamp < ws[i].end
    {
      var w := PointListed(blocks, buffer, start, end, width, count, p);
      var i :| 0 <= i < |ws| && ws[i] == w;
    }
  }

  lemma PointListed(blocks: seq<Block>, buffer: seq<Point>, start: i64, end: i64, width: i64, count: nat, p: Point)
    returns (w: WindowAggregate)
    requires Served(start, end, width, count) && p in Flatten(blocks) + buffer && start <= p.timestamp < end
    ensures w in Entries(blocks, buffer, start, end, width, count, count) && w.start <= p.timestamp < w.end
  {
    ServedCount(start, end, width, count, p.timestamp);
    var k := (p.timestamp - start) / width;
    PointIndex(p.timestamp, start, end, width, count, k, k);
    hide Entry, Entries, Between, Served, Lower, Upper, Flatten, IsLeast, IsGreatest, NoLeadingNaN, ExactPieces,
         SumValues, WindowPieces, IsWindow;
    BetweenSelects(Flatten(blocks) + buffer, Lower(start, width, k), Upper(start, end, width, k));
    EntryTells(blocks, buffer, start, end, width, count, k);
    w := Entry(blocks, buffer, start, end, width, count, k)[0];
    WindowOfBounds(w, start, end, width, count, k);
    EntryListed(blocks, buffer, start, end, width, count, count, k);
  }

  lemma ServedCount(start: i64, end: i64, width: i64, count: nat, t: i64)
    requires Served(start, end, width, count) && start <= t < end
    ensures width > 0 && 0 <= (t - start) / width < count
  {
    WindowIndex(t, start, end, width, count, 0);
  }

  function CountSum(ws: seq<WindowAggregate>): nat {
    if ws == [] then 0 else CountSum(ws[..|ws| - 1]) + ws[|ws| - 1].count
  }

  lemma CountSumPush(ws: seq<WindowAggregate>, w: WindowAggregate)
    ensures CountSum(ws + [w]) == CountSum(ws) + w.count
  {
    assert (ws + [w])[..|ws|] == ws;
  }

  lemma CountSumEntry(blocks: seq<Block>, buffer: seq<Point>, start: i64, end: i64, width: i64, count: nat, n: nat)
    requires Served(start, end, width, count) && n < count
    ensures CountSum(Entries(blocks, buffer, start, end, width, count, n + 1))
            == CountSum(Entries(blocks, buffer, start, end, width, count, n))
               + |InWindow(Flatten(blocks) + buffer, start, end, width, n)|
  {
    hide InWindow, Fold, Served, Upper, Lower, CountSum, Total, Quotient, WindowPieces, ShownBy;
    var before := Entries(blocks, buffer, start, end, width, count, n);
    var e := Entry(blocks, buffer, start, end, width, count, n);
    if e != [] {
      CountSumPush(before, e[0]);
      assert before + e == before + [e[0]];
    } else {
      assert before + e == before;
    }
  }

  /** The windows partition the interval: their counts add up to the points of [start, end). */
  lemma {:induction false} CountsAddUp(blocks: seq<Block>, buffer: seq<Point>, start: i64, end: i64, width: i64,
                                       count: nat, n: nat)
    requires Served(start, end, width, count) && n <= count
    ensures CountSum(Entries(blocks, buffer, start, end, width, count, n))
            == |Between(Flatten(blocks) + buffer, start, if n == 0 then start else Upper(start, end, width, n - 1))|
  {
    hide Between, Served, Upper, Lower, Entries, Flatten;
    var ps := Flatten(blocks) + buffer;
    if n == 0 {
      EmptyInterval(ps, start);
      NoEntries(blocks, buffer, start, end, width, count);
    } else {
      CountsAddUp(blocks, buffer, start, end, width, count, n - 1);
      CountSumEntry(blocks, buffer, start, end, width, count, n - 1);
      WindowsMeet(start, end, width, count, n - 1);
      BetweenSplit(ps, start, Lower(start, width, n - 1), Upper(start, end, width, n - 1));
    }
  }

  lemma NoEntries(blocks: seq<Block>, buffer: seq<Point>, start: i64, end: i64, width: i64, count: nat)
    requires Served(start, end, width, count)
    ensures CountSum(Entries(blocks, buffer, start, end, width, count, 0)) == 0
  {}

  lemma EmptyInterval(ps: seq<Point>, at: int)
    ensures Between(ps, at, at) == []
  {
    BetweenNone(ps, at, at);
  }

  lemma WindowsMeet(start: i64, end: i64, width: i64, count: nat, k: nat)
    requires Served(start, end, width, count) && k < count
    ensures start <= Lower(start, width, k) <= Upper(start, end, width, k)
    ensures Lower(start, width, k) == if k == 0 then start as int else Upper(start, end, width, k - 1)
  {
    WindowEnds(start, end, width, count, k);
    if k > 0 {
      WindowEnds(start, end, width, count, k - 1);
      assert k * width == (k - 1) * width + width;
    }
  }

  // ---------------------------------------------------------------- accumulation

  /** Every accumulator has been given its window's share of `ps`, point by point. */
  ghost predicate Spread(base: seq<Aggregate>, acc: seq<Aggregate>, ps: seq<Point>, start: i64, end: i64, width: i64) {
    |acc| == |base| && forall k :: 0 <= k < |acc| ==> acc[k] == Fold(base[k], InWindow(ps, start, end, width, k))
  }

  lemma PointOutside(ps: seq<Point>, p: Point, start: i64, end: i64, width: i64, count: nat, k: nat)
    requires Served(start, end, width, count) && k < count && !(start <= p.timestamp < end)
    ensures InWindow(ps + [p], start, end, width, k) == InWindow(ps, start, end, width, k)
  {
    hide Between, Lower, Upper;
    BetweenPush(ps, p, Lower(start, width, k), Upper(start, end, width, k));
    WindowEnds(start, end, width, count, k);
    assert Between(ps, Lower(start, width, k), Upper(start, end, width, k)) + []
        == Between(ps, Lower(start, width, k), Upper(start, end, width, k));
  }

  lemma PointIndex(t: i64, start: i64, end: i64, width: i64, count: nat, i: nat, k: nat)
    requires Served(start, end, width, count) && k < count && start <= t < end && i == (t - start) / width
    ensures i < count
    ensures Lower(start, width, k) <= t < Upper(start, end, width, k) <==> k == i
  {
    hide Lower, Upper;
    WindowIndex(t, start, end, width, count, k);
  }

  lemma PointInside(ps: seq<Point>, p: Point, start: i64, end: i64, width: i64, count: nat, i: nat, k: nat)
    requires Served(start, end, width, count) && k < count && start <= p.timestamp < end
    requires i == (p.timestamp - start) / width
    ensures InWindow(ps + [p], start, end, width, k) == InWindow(ps, start, end, width, k) + if k == i then [p] else []
  {
    PointIndex(p.timestamp, start, end, width, count, i, k);
    hide Between, Lower, Upper, Served;
    BetweenPush(ps, p, Lower(start, width, k), Upper(start, end, width, k));
  }

  lemma SpreadInside(base: seq<Aggregate>, acc: seq<Aggregate>, ps: seq<Point>, p: Point,
                     start: i64, end: i64, width: i64, i: nat)
    requires Served(start, end, width, |acc|) && Spread(base, acc, ps, start, end, width)
    requires start <= p.timestamp < end && i < |acc| && i == (p.timestamp - start) / width
    ensures Spread(base, acc[i := AddValue(acc[i], p.bits)], ps + [p], start, end, width)
  {
    hide Fold, InWindow, AddValue, Served;
    var acc' := acc[i := AddValue(acc[i], p.bits)];
    forall k | 0 <= k < |acc'|
      ensures acc'[k] == Fold(base[k], InWindow(ps + [p], start, end, width, k))
    {
      var seen := InWindow(ps, start, end, width, k);
      PointInside(ps, p, start, end, width, |acc|, i, k);
      FoldOne(base[k], seen, p);
      assert seen + [] == seen;
    }
  }

  lemma SpreadOutside(base: seq<Aggregate>, acc: seq<Aggregate>, ps: seq<Point>, p: Point,
                      start: i64, end: i64, width: i64)
    requires Served(start, end, width, |acc|) && Spread(base, acc, ps, start, end, width)
    requires !(start <= p.timestamp < end)
    ensures Spread(base, acc, ps + [p], start, end, width)
  {
    hide Fold, InWindow, Served;
    forall k | 0 <= k < |acc|
      ensures acc[k] == Fold(base[k], InWindow(ps + [p], start, end, width, k))
    {
      PointOutside(ps, p, start, end, width, |acc|, k);
    }
  }

  lemma NothingSpread(base: seq<Aggregate>, start: i64, end: i64, width: i64)
    ensures Spread(base, base, [], start, end, width)
  {}

  /** Distributes decoded or buffered points over the windows. */
  method AddToWindows(windows: array<Aggregate>, ps: seq<Point>, start: i64, end: i64, width: i64)
    requires Served(start, end, width, windows.Length) && windows.Length > 0
    modifies windows
    ensures Spread(old(windows[..]), windows[..], ps, start, end, width)
  {
    hide Spread, Served, AddValue;
    NothingSpread(windows[..], start, end, width);
    assert ps[..0] == [];
    for i := 0 to |ps|
      invariant Spread(old(windows[..]), windows[..], ps[..i], start, end, width)
    {
      ghost var before := windows[..];
      var p := ps[i];
      assert ps[..i + 1] == ps[..i] + [p];
      if start <= p.timestamp < end {
        ServedWidth(start, end, width, windows.Length);
        var distance: i64 := p.timestamp - start;
        var index := distance / width;
        WindowIndexInRange(p.timestamp, start, end, width, windows.Length);
        windows[index] := AddValue(windows[index], p.bits);
        assert windows[..] == before[index := AddValue(before[index], p.bits)];
        SpreadInside(old(windows[..]), before, ps[..i], p, start, end, width, index);
      } else {
        SpreadOutside(old(windows[..]), before, ps[..i], p, start, end, width);
      }
    }
    assert ps[..|ps|] == ps;
  }

  lemma ServedWidth(start: i64, end: i64, width: i64, count: nat)
    requires Served(start, end, width, count)
    ensures width > 0 && end - start < TWO63
  {}

  lemma WindowIndexInRange(t: i64, start: i64, end: i64, width: i64, count: nat)
    requires Served(start, end, width, count) && count > 0 && start <= t < end
    ensures 0 <= (t - start) / width < count
  {
    WindowIndex(t, start, end, width, count, 0);
  }

  lemma DivideMonotone(a: int, b: int, w: int)
    requires w > 0 && a <= b
    ensures a / w <= b / w
  {
    var qa, qb := a / w, b / w;
    assert a == qa * w + a % w && b == qb * w + b % w;
    assert (qb + 1) * w == qb * w + w;
    if qb < qa {
      MoreWindows(qb + 1, qa, w);
    }
  }

  /** All points of a block between two timestamps of one window are in that window. */
  lemma BlockInWindow(b: Block, start: i64, end: i64, width: i64, count: nat, i: nat, k: nat)
    requires Served(start, end, width, count) && k < count && i < count
    requires start <= MinTimestamp(b) && MaxTimestamp(b) < end
    requires i == (MinTimestamp(b) - start) / width == (MaxTimestamp(b) - start) / width
    ensures InWindow(b, start, end, width, k) == if k == i then b else []
  {
    hide MinTimestamp, MaxTimestamp, Between, Lower, Upper;
    TimestampBounds(b);
    forall p | p in b
      ensures Lower(start, width, k) <= p.timestamp < Upper(start, end, width, k) <==> k == i
    {
      DivideMonotone(MinTimestamp(b) - start, p.timestamp - start, width);
      DivideMonotone(p.timestamp - start, MaxTimestamp(b) - start, width);
      WindowIndex(p.timestamp, start, end, width, count, k);
    }
    if k == i {
      BetweenAll(b, Lower(start, width, k), Upper(start, end, width, k));
    } else {
      BetweenNone(b, Lower(start, width, k), Upper(start, end, width, k));
    }
  }

  lemma PointOfBlock(b: Block, p: Point, start: i64, end: i64, width: i64, count: nat, k: nat)
    requires Served(start, end, width, count) && k < count && p in b
    requires InOneWindow(b, start, end, width) && (MinTimestamp(b) - start) / width == k
    ensures Lower(start, width, k) <= p.timestamp < Upper(start, end, width, k)
  {
    hide MinTimestamp, MaxTimestamp, Lower, Upper;
    TimestampBounds(b);
    DivideMonotone(MinTimestamp(b) - start, p.timestamp - start, width);
    DivideMonotone(p.timestamp - start, MaxTimestamp(b) - start, width);
    WindowIndex(p.timestamp, start, end, width, count, k);
  }

  lemma AllInWindow(b: Block, start: i64, end: i64, width: i64, count: nat, k: nat)
    requires Served(start, end, width, count) && k < count
    requires forall p :: p in b ==> Lower(start, width, k) <= p.timestamp < Upper(start, end, width, k)
    ensures InOneWindow(b, start, end, width) && (MinTimestamp(b) - start) / width == k
  {
    hide MinTimestamp, MaxTimestamp, Lower, Upper;
    TimestampBounds(b);
    WindowEnds(start, end, width, count, k);
    WindowIndex(MinTimestamp(b), start, end, width, count, k);
    WindowIndex(MaxTimestamp(b), start, end, width, count, k);
  }

  /** A window takes the header of the blocks all of whose points are in it, and of no other ones. */
  lemma WholeIfInWindow(b: Block, start: i64, end: i64, width: i64, count: nat, k: nat)
    requires Served(start, end, width, count) && k < count
    ensures var lo := start + k * width;
            var hi := if lo + width < end then lo + width else end;
            WindowPiece(b, start, end, width, k)
            == if forall p :: p in b ==> lo <= p.timestamp < hi then Whole(b) else Loose(Between(b, lo, hi))
  {
    WindowEnds(start, end, width, count, k);
    var lo := start + k * width;
    var hi := if lo + width < end then lo + width else end;
    assert lo == Lower(start, width, k) && hi == Upper(start, end, width, k);
    hide MinTimestamp, MaxTimestamp, Lower, Upper, Between, Served, InOneWindow;
    if InOneWindow(b, start, end, width) && (MinTimestamp(b) - start) / width == k {
      forall p | p in b
        ensures lo <= p.timestamp < hi
      {
        PointOfBlock(b, p, start, end, width, count, k);
      }
    } else if forall p :: p in b ==> lo <= p.timestamp < hi {
      AllInWindow(b, start, end, width, count, k);
    }
  }

  /** Every accumulator has been given the block's piece of its window. */
  ghost predicate Given(base: seq<Aggregate>, acc: seq<Aggregate>, b: Block, start: i64, end: i64, width: i64) {
    |acc| == |base| && forall k :: 0 <= k < |acc| ==> acc[k] == WindowPiece(b, start, end, width, k).AddTo(base[k])
  }

  /** A block in a single window reaches that window by its header and no other window at all. */
  lemma GivenHeader(base: seq<Aggregate>, b: Block, start: i64, end: i64, width: i64, i: nat)
    requires Served(start, end, width, |base|) && i < |base| && InOneWindow(b, start, end, width)
    requires i == (MinTimestamp(b) - start) / width
    ensures Given(base, base[i := AddBlock(base[i], HeaderOf(b))], b, start, end, width)
  {
    hide Fold, InWindow, AddBlock, HeaderOf, MinTimestamp, MaxTimestamp, Served;
    var acc := base[i := AddBlock(base[i], HeaderOf(b))];
    forall k | 0 <= k < |acc|
      ensures acc[k] == WindowPiece(b, start, end, width, k).AddTo(base[k])
    {
      if k != i {
        BlockInWindow(b, start, end, width, |base|, i, k);
        NothingAdded(base[k]);
      }
    }
  }

  lemma GivenNothing(base: seq<Aggregate>, b: Block, start: i64, end: i64, width: i64)
    requires Served(start, end, width, |base|) && (MaxTimestamp(b) < start || MinTimestamp(b) >= end)
    ensures Given(base, base, b, start, end, width)
  {
    hide Fold, Between, MinTimestamp, MaxTimestamp, Lower, Upper, AddBlock, HeaderOf;
    TimestampBounds(b);
    BoundsOrdered(b);
    forall k | 0 <= k < |base|
      ensures base[k] == WindowPiece(b, start, end, width, k).AddTo(base[k])
    {
      WindowEnds(start, end, width, |base|, k);
      BetweenNone(b, Lower(start, width, k), Upper(start, end, width, k));
      NothingAdded(base[k]);
    }
  }

  lemma GivenPoints(base: seq<Aggregate>, acc: seq<Aggregate>, b: Block, start: i64, end: i64, width: i64)
    requires Spread(base, acc, b, start, end, width) && !InOneWindow(b, start, end, width)
    ensures Given(base, acc, b, start, end, width)
  {
    hide Fold, InWindow, AddBlock, HeaderOf, InOneWindow;
  }

  /** One block: skipped, taken from its header when it lies in a single window, or decoded. */
  method AddBlockToWindows(windows: array<Aggregate>, files: Files, e: IndexEntry, start: i64, end: i64, width: i64,
                           ghost b: Block)
    requires Served(start, end, width, windows.Length) && windows.Length > 0 && Readable(files, e, b)
    modifies windows
    ensures Given(old(windows[..]), windows[..], b, start, end, width)
  {
    hide Given, Spread, Served, AddBlock, HeaderOf, MinTimestamp, MaxTimestamp, DecodeBlockAt, ReadHeaderAt;
    if e.maxTimestamp < start || e.minTimestamp >= end {
      GivenNothing(windows[..], b, start, end, width);
      return;
    }
    var useHeader := e.minTimestamp >= start && e.maxTimestamp < end;
    var index := 0;
    ServedWidth(start, end, width, windows.Length);
    if useHeader {
      BoundsOrdered(b);
      var first: i64, last: i64 := e.minTimestamp - start, e.maxTimestamp - start;
      index := first / width;
      WindowIndexInRange(e.minTimestamp, start, end, width, windows.Length);
      useHeader := index == last / width && index < windows.Length;
    }
    if useHeader {
      ghost var before := windows[..];
      var hr := ReadHeader(files[e.segmentId], e.offset);
      windows[index] := AddBlock(windows[index], hr.header);
      assert windows[..] == before[index := AddBlock(before[index], HeaderOf(b))];
      GivenHeader(before, b, start, end, width, index);
    } else {
      var r := ReadBlock(files[e.segmentId], e.offset);
      AddToWindows(windows, r.value.1, start, end, width);
      GivenPoints(old(windows[..]), windows[..], b, start, end, width);
    }
  }

  // ---------------------------------------------------------------- the query

  /** Every accumulator holds the total of its window's pieces. */
  ghost predicate Totalled(acc: seq<Aggregate>, blocks: seq<Block>, start: i64, end: i64, width: i64) {
    forall k :: 0 <= k < |acc| ==> acc[k] == Total(BlockParts(blocks, start, end, width, k))
  }

  lemma NothingTotalled(acc: seq<Aggregate>, start: i64, end: i64, width: i64)
    requires forall k :: 0 <= k < |acc| ==> acc[k] == EMPTY
    ensures Totalled(acc, [], start, end, width)
  {}

  lemma OneMoreBlock(base: seq<Aggregate>, acc: seq<Aggregate>, blocks: seq<Block>, j: nat,
                     start: i64, end: i64, width: i64)
    requires j < |blocks| && Totalled(base, blocks[..j], start, end, width)
    requires Given(base, acc, blocks[j], start, end, width)
    ensures Totalled(acc, blocks[..j + 1], start, end, width)
  {
    hide WindowPiece, Total, Piece.AddTo;
    forall k | 0 <= k < |acc|
      ensures acc[k] == Total(BlockParts(blocks[..j + 1], start, end, width, k))
    {
      var parts, last := BlockParts(blocks[..j], start, end, width, k), WindowPiece(blocks[j], start, end, width, k);
      TotalPush(parts, last);
      assert BlockParts(blocks[..j + 1], start, end, width, k) == parts + [last];
    }
  }

  /** With the buffer, every accumulator holds the total of its window and agrees with the fold over its points. */
  ghost predicate Complete(acc: seq<Aggregate>, blocks: seq<Block>, buffer: seq<Point>,
                           start: i64, end: i64, width: i64) {
    forall k :: 0 <= k < |acc| ==>
      && acc[k] == Total(WindowPieces(blocks, buffer, start, end, width, k))
      && acc[k].count == |InWindow(Flatten(blocks) + buffer, start, end, width, k)|
      && SameBounds(acc[k], Fold(EMPTY, ShownBy(WindowPieces(blocks, buffer, start, end, width, k))))
  }

  lemma CompleteWith(base: seq<Aggregate>, acc: seq<Aggregate>, blocks: seq<Block>, buffer: seq<Point>,
                     start: i64, end: i64, width: i64)
    requires Served(start, end, width, |base|) && Totalled(base, blocks, start, end, width)
    requires Spread(base, acc, buffer, start, end, width)
    ensures Complete(acc, blocks, buffer, start, end, width)
  {
    hide InWindow, BlockParts, Total, Fold, Served, Flatten, SameBounds, ShownBy, NoLeadingNaN;
    forall k | 0 <= k < |acc|
      ensures acc[k] == Total(WindowPieces(blocks, buffer, start, end, width, k))
      ensures acc[k].count == |InWindow(Flatten(blocks) + buffer, start, end, width, k)|
      ensures SameBounds(acc[k], Fold(EMPTY, ShownBy(WindowPieces(blocks, buffer, start, end, width, k))))
    {
      var share := InWindow(buffer, start, end, width, k);
      TotalPush(BlockParts(blocks, start, end, width, k), Loose(share));
      LooseAdds(base[k], share);
      WindowPiecesPoints(blocks, buffer, start, end, width, |base|, k);
      TotalAgrees(WindowPieces(blocks, buffer, start, end, width, k));
    }
  }

  lemma CompleteAt(acc: seq<Aggregate>, blocks: seq<Block>, buffer: seq<Point>,
                   start: i64, end: i64, width: i64, k: nat)
    requires Complete(acc, blocks, buffer, start, end, width) && k < |acc|
    ensures acc[k] == Total(WindowPieces(blocks, buffer, start, end, width, k))
    ensures acc[k].count == |InWindow(Flatten(blocks) + buffer, start, end, width, k)|
    ensures SameBounds(acc[k], Fold(EMPTY, ShownBy(WindowPieces(blocks, buffer, start, end, width, k))))
  {
    hide Total, Fold, InWindow, WindowPieces, SameBounds, ShownBy;
  }

  /** Compacts the accumulators: counts the non-empty ones, then fills an array of that size. */
  method Compact(windows: array<Aggregate>, start: i64, end: i64, width: i64,
                 ghost blocks: seq<Block>, ghost buffer: seq<Point>)
    returns (result: array<WindowAggregate>)
    requires Served(start, end, width, windows.Length)
    requires Complete(windows[..], blocks, buffer, start, end, width)
    ensures fresh(result)
    ensures result[..] == Entries(blocks, buffer, start, end, width, windows.Length, windows.Length)
  {
    hide Fold, InWindow, Served, Lower, Upper, Complete, Total, Quotient, WindowPieces, Flatten, ShownBy;
    var nonEmpty := 0;
    var count := windows.Length;
    for k := 0 to count
      invariant nonEmpty == |Entries(blocks, buffer, start, end, width, count, k)|
    {
      CompleteAt(windows[..], blocks, buffer, start, end, width, k);
      if windows[k].count > 0 {
        nonEmpty := nonEmpty + 1;
      }
    }
    result := new WindowAggregate[nonEmpty](_ => WindowAggregate(0, 0, 0, 0, 0, 0));
    var out := 0;
    for k := 0 to count
      invariant out == |Entries(blocks, buffer, start, end, width, count, k)| <= result.Length
      invariant result[..out] == Entries(blocks, buffer, start, end, width, count, k)
    {
      EntriesGrow(blocks, buffer, start, end, width, count, k + 1);
      CompleteAt(windows[..], blocks, buffer, start, end, width, k);
      if windows[k].count != 0 {
        ghost var done := result[..out];
        var w := WindowEntry(windows[k], start, end, width, count, k);
        result[out] := w;
        out := out + 1;
        assert result[..out] == done + [w];
      }
    }
    assert result[..] == result[..out];
  }

  lemma {:induction false} EntriesGrow(blocks: seq<Block>, buffer: seq<Point>, start: i64, end: i64, width: i64,
                                       count: nat, n: nat)
    requires Served(start, end, width, count) && n <= count
    ensures |Entries(blocks, buffer, start, end, width, count, n)|
            <= |Entries(blocks, buffer, start, end, width, count, count)|
    decreases count - n
  {
    hide Entry, Served;
    if n < count {
      EntriesGrow(blocks, buffer, start, end, width, count, n + 1);
    }
  }

  /** The bounds of window `k`; every intermediate result is a signed 64-bit number. */
  method WindowEntry(a: Aggregate, start: i64, end: i64, width: i64, count: nat, k: nat) returns (w: WindowAggregate)
    requires Served(start, end, width, count) && k < count && a.count > 0
    ensures w.start == Lower(start, width, k) && w.end == Upper(start, end, width, k)
    ensures w == w.(count := a.count, min := a.min, max := a.max, avg := Quotient(a.sum, a.count))
  {
    hide Quotient;
    WindowEnds(start, end, width, count, k);
    MoreWindows(0, k, width);
    var offset: i64 := k * width;
    var windowStart: i64 := start + offset;
    var remaining: i64 := end - windowStart;
    var windowEnd: i64 := if remaining < width then end else windowStart + width;
    w := WindowAggregate(windowStart, windowEnd, a.count, a.min, a.max, Quotient(a.sum, a.count));
  }

  /**
   * The windowed query: refused requests as `WindowCount` says, otherwise exactly the non-empty windows of the
   * visible points, in order, whichever blocks were decoded and of whichever only the header was read. What is told of
   * each window does not depend on how it was added up, but for roundings and for NaNs that hide values.
   */
  method AggregateWindowed(files: Files, index: seq<IndexEntry>, buffer: seq<Point>, start: i64, end: i64, width: i64,
                           ghost blocks: seq<Block>)
    returns (status: ReadStatus, result: array<WindowAggregate>)
    requires Indexed(files, index, blocks)
    ensures fresh(result)
    ensures match WindowCount(start, end, width)
            case None => status == InvalidArgument && result[..] == []
            case Some(count) =>
              && status == ReadOk && Served(start, end, width, count)
              && result[..] == Entries(blocks, buffer, start, end, width, count, count)
              && TellsAll(result[..], blocks, buffer, start, end, width, count)
  {
    hide Flatten, Totalled, Complete, Given, Spread, Served, Readable, Entry, TellsAll;
    WindowCountExact(start, end, width);
    var requested := WindowCount(start, end, width);
    if requested.Some? {
      EntriesMeaning(blocks, buffer, start, end, width, requested.value);
    }
    result := new WindowAggregate[0];
    if requested.None? {
      return InvalidArgument, result;
    }
    var count := requested.value;
    if count == 0 {
      return ReadOk, result;
    }
    var windows := new Aggregate[count](_ => EMPTY);
    NothingTotalled(windows[..], start, end, width);
    assert blocks[..0] == [];
    for k := 0 to |index|
      invariant Totalled(windows[..], blocks[..k], start, end, width)
    {
      assert Readable(files, index[k], blocks[k]);
      ghost var before := windows[..];
      AddBlockToWindows(windows, files, index[k], start, end, width, blocks[k]);
      OneMoreBlock(before, windows[..], blocks, k, start, end, width);
    }
    assert blocks[..|index|] == blocks;
    ghost var before := windows[..];
    AddToWindows(windows, buffer, start, end, width);
    CompleteWith(before, windows[..], blocks, buffer, start, end, width);
    result := Compact(windows, start, end, width, blocks, buffer);
    status := ReadOk;
  }
}
