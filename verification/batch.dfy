/** A batch append is a faster way of appending its points one by one (src/core/series.c:206-247). */
module Batch {
  import opened Wire
  import opened Config
  import opened Codec
  import opened Segments
  import opened WalFormat
  import opened State
  import opened Quota
  import opened Engine
  import opened Invariants

  /** The points appended by separate calls, up to the first call that is refused. */
  ghost function AppendEach(m: Model, i: nat, ps: seq<Point>): (r: (Model, Status))
    requires i < |m.series|
    ensures |r.0.series| == |m.series|
    decreases |ps|
  {
    if ps == [] then (m, Ok)
    else
      var (m1, st) := AppendPoint(m, i, ps[0]);
      if st != Ok then (m1, st) else AppendEach(m1, i, ps[1..])
  }

  /** Everything but where in the log and in which kind of record the points are kept. */
  function Core(m: Model): Model {
    m.(log := [], pending := [], torn := [], kept := 0)
  }

  lemma CoreWrites(a: Model, b: Model, i: nat)
    requires Core(a) == Core(b) && i < |a.series|
    ensures Core(TruncateLog(WriteBlock(a, i))) == Core(TruncateLog(WriteBlock(b, i)))
    ensures TruncateLog(WriteBlock(a, i)).quota == a.quota
  {
    hide FlushedSeries, FlushedDirectory, BufferEntries;
    assert a.series == b.series && a.dirs == b.dirs;
  }

  lemma CoreFlush(a: Model, b: Model, i: nat)
    requires Core(a) == Core(b) && a.quota == 0 && i < |a.series|
    ensures Core(MakeRoom(a, i).0) == Core(MakeRoom(b, i).0) && MakeRoom(a, i).0.quota == 0
    ensures MakeRoom(a, i).1 == Ok && MakeRoom(b, i).1 == Ok
  {
    hide WriteBlock, TruncateLog;
    assert a.series == b.series && b.quota == 0;
    CoreWrites(a, b, i);
    CoreWrites(b, a, i);
  }

  lemma CoreLogged(m: Model, m': Model, es: seq<Entry>)
    requires Logged(m, m', es)
    ensures Core(m') == Core(m)
  {}

  /** What an append does to blocks and buffers does not depend on the log. */
  lemma CoreAppend(a: Model, b: Model, i: nat, p: Point)
    requires Core(a) == Core(b) && a.quota == 0 && i < |a.series|
    ensures Core(AppendPoint(a, i, p).0) == Core(AppendPoint(b, i, p).0)
    ensures AppendPoint(a, i, p).1 == Ok && AppendPoint(b, i, p).1 == Ok && AppendPoint(a, i, p).0.quota == 0
  {
    hide MakeRoom, WalAppendPoint, Logged;
    CoreFlush(a, b, i);
    var a1, b1 := MakeRoom(a, i).0, MakeRoom(b, i).0;
    assert a1.series == b1.series;
    var name := a1.series[i].name;
    CoreLogged(a1, WalAppendPoint(a1, name, p), [PointV3(name, p)]);
    CoreLogged(b1, WalAppendPoint(b1, name, p), [PointV3(name, p)]);
  }

  lemma {:induction false} CoreAppendEach(a: Model, b: Model, i: nat, ps: seq<Point>)
    requires Core(a) == Core(b) && a.quota == 0 && i < |a.series|
    ensures Core(AppendEach(a, i, ps).0) == Core(AppendEach(b, i, ps).0)
    ensures AppendEach(a, i, ps).1 == Ok && AppendEach(b, i, ps).1 == Ok
    decreases |ps|
  {
    hide AppendPoint;
    if ps != [] {
      CoreAppend(a, b, i, ps[0]);
      CoreAppendEach(AppendPoint(a, i, ps[0]).0, AppendPoint(b, i, ps[0]).0, i, ps[1..]);
    }
  }

  lemma {:induction false} AppendEachConcat(m: Model, i: nat, a: seq<Point>, b: seq<Point>)
    requires i < |m.series| && m.quota == 0
    ensures AppendEach(m, i, a).1 == Ok
    ensures AppendEach(m, i, a + b) == AppendEach(AppendEach(m, i, a).0, i, b)
    decreases |a|
  {
    hide AppendPoint;
    if a == [] {
      assert a + b == b;
    } else {
      CoreAppend(m, m, i, a[0]);
      assert (a + b)[0] == a[0] && (a + b)[1..] == a[1..] + b;
      AppendEachConcat(AppendPoint(m, i, a[0]).0, i, a[1..], b);
    }
  }

  /** Points that fit into the free part of the buffer go there one by one as they would together. */
  lemma {:induction false} AppendEachWithin(m: Model, i: nat, ps: seq<Point>)
    requires i < |m.series| && m.quota == 0 && |m.series[i].buffer| + |ps| <= BLOCK_MAX_POINTS
    ensures Core(AppendEach(m, i, ps).0) == Core(Push(m, i, ps))
    decreases |ps|
  {
    hide WalAppendPoint, Flush, Logged;
    var s := m.series[i];
    if ps == [] {
      assert s.buffer + [] == s.buffer && m.series[i := s] == m.series;
    } else {
      var m1 := AppendPoint(m, i, ps[0]).0;
      CoreLogged(m, WalAppendPoint(m, s.name, ps[0]), [PointV3(s.name, ps[0])]);
      assert Core(m1) == Core(Push(m, i, [ps[0]]));
      AppendEachWithin(m1, i, ps[1..]);
      assert m1.series[i].buffer == s.buffer + [ps[0]];
      assert s.buffer + [ps[0]] + ps[1..] == s.buffer + ps;
      assert Core(Push(m1, i, ps[1..])) == Core(Push(m, i, ps));
    }
  }

  /** Making room first changes nothing for appends that would have made it themselves. */
  lemma RoomMade(m: Model, i: nat, ps: seq<Point>)
    requires i < |m.series| && m.quota == 0 && ps != []
    requires |MakeRoom(m, i).0.series[i].buffer| < BLOCK_MAX_POINTS && MakeRoom(m, i).1 == Ok
    ensures AppendEach(MakeRoom(m, i).0, i, ps) == AppendEach(m, i, ps)
  {
    hide Flush, WalAppendPoint;
  }

  /**
   * Without a quota, a batch of any length leaves the same blocks with the same boundaries, the same buffer and the
   * same index as its points appended one by one.
   */
  lemma {:induction false} BatchCore(m: Model, i: nat, ps: seq<Point>)
    requires Inv(m) && i < |m.series| && m.quota == 0 && Budget(m, i, |ps|)
    ensures Core(AppendBatch(m, i, ps).0) == Core(AppendEach(m, i, ps).0)
    decreases |ps|
  {
    hide Inv, MakeRoom, WalAppendBatch, Budget, SameVisible, Extended, AppendEach, BatchEntries;
    if ps == [] {
      NothingAppended(m, i);
    } else {
      BatchRound(m, i, ps);
      BatchChunk(m, i, ps);
      var (m1, st) := MakeRoom(m, i);
      var n := Chunk(m1, i, |ps|);
      var name, now, later := m1.series[i].name, ps[..n], ps[n..];
      var m2 := Push(WalAppendBatch(m1, name, now), i, now);
      assert m2.quota == 0;
      BatchCore(m2, i, later);
      RoomMade(m, i, ps);
      assert now + later == ps;
      AppendEachConcat(m1, i, now, later);
      AppendEachWithin(m1, i, now);
      CoreLogged(m1, WalAppendBatch(m1, name, now), BatchEntries(name, now));
      CoreAppendEach(m2, AppendEach(m1, i, now).0, i, later);
    }
  }

  lemma NothingAppended(m: Model, i: nat)
    requires i < |m.series|
    ensures AppendEach(m, i, []) == (m, Ok)
  {}

  lemma BatchChunk(m: Model, i: nat, ps: seq<Point>)
    requires Inv(m) && i < |m.series| && ps != [] && Budget(m, i, |ps|)
    ensures var m1 := MakeRoom(m, i).0;
            |m1.series[i].buffer| < BLOCK_MAX_POINTS
            && |m1.series[i].buffer| + Chunk(m1, i, |ps|) <= BLOCK_MAX_POINTS
            && m1.quota == m.quota
  {
    hide Inv, MakeRoom, SameVisible;
    BufferAtMost(m, i) by {
      InvRegistry(m);
    }
    BudgetArithmetic(m.series[i].activeId, m.series[i].activeId, |m.series[i].buffer|, |ps|);
    MakeRoomOk(m, i);
  }

  lemma AppendBudget(m: Model, i: nat, p: Point, n: nat)
    requires Inv(m) && i < |m.series| && m.quota == 0 && n > 0 && Budget(m, i, n)
    ensures var m' := AppendPoint(m, i, p).0;
            Inv(m') && m'.quota == 0 && AppendPoint(m, i, p).1 == Ok && Budget(m', i, n - 1)
  {
    hide Inv, MakeRoom, SameVisible, Extended, WalAppendPoint;
    BufferAtMost(m, i) by {
      InvRegistry(m);
    }
    var m1 := MakeRoom(m, i).0;
    BudgetArithmetic(m.series[i].activeId, m1.series[i].activeId, |m.series[i].buffer|, n);
    MakeRoomOk(m, i);
    AppendPointOk(m, i, p);
    var m' := AppendPoint(m, i, p).0;
    assert m'.series[i].activeId == m1.series[i].activeId && |m'.series[i].buffer| == |m1.series[i].buffer| + 1;
    assert |m'.series[i].buffer| + (n - 1) == |m1.series[i].buffer| + n;
  }

  lemma {:induction false} AppendEachOk(m: Model, i: nat, ps: seq<Point>)
    requires Inv(m) && i < |m.series| && m.quota == 0 && Budget(m, i, |ps|)
    ensures Inv(AppendEach(m, i, ps).0)
    decreases |ps|
  {
    hide Inv, AppendPoint, Budget;
    if ps != [] {
      AppendBudget(m, i, ps[0], |ps|);
      AppendEachOk(AppendPoint(m, i, ps[0]).0, i, ps[1..]);
    }
  }

  /** And the log holds the same points for every series, whatever records they are in. */
  lemma BatchRefinesAppends(m: Model, i: nat, ps: seq<Point>)
    requires Inv(m) && i < |m.series| && m.quota == 0 && Budget(m, i, |ps|)
    ensures var batch, each := AppendBatch(m, i, ps).0, AppendEach(m, i, ps).0;
            && batch.dirs == each.dirs && batch.series == each.series
            && forall n: Name :: PointsFor(Journal(batch), n) == PointsFor(Journal(each), n)
  {
    hide RegistryOk, AppendBatch, AppendEach, PointsFor, BufferOf, Extended;
    BatchCore(m, i, ps);
    AppendBatchOk(m, i, ps);
    AppendEachOk(m, i, ps);
    hide Budget;
  }
}
