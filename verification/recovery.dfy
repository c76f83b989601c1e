/** Opening a database: what survives a crash wherever the engine makes a promise (src/core/db.c:196-317). */
module Recovery {
  import opened Wire
  import opened Config
  import opened Codec
  import opened Segments
  import opened WalFormat
  import opened State
  import opened Quota
  import opened Engine
  import opened Invariants

  // ---------------------------------------------------------------- loading

  ghost predicate Listed(listing: seq<Name>, dirs: map<Name, Directory>) {
    && (forall k :: 0 <= k < |listing| ==> listing[k] in dirs)
    && (forall i, j :: 0 <= i < j < |listing| ==> listing[i] != listing[j])
  }

  ghost function LoadedSeries(dirs: map<Name, Directory>, listing: seq<Name>): seq<Series>
    requires Listed(listing, dirs)
  {
    seq(|listing|, k requires 0 <= k < |listing| =>
      Rebuild(Series(listing[k], k + 1, 1, [], [], []), dirs[listing[k]]))
  }

  lemma LoadedPush(dirs: map<Name, Directory>, listing: seq<Name>)
    requires Listed(listing, dirs) && listing != []
    ensures Listed(listing[..|listing| - 1], dirs)
    ensures var last := listing[|listing| - 1];
            && LoadedSeries(dirs, listing) == LoadedSeries(dirs, listing[..|listing| - 1])
                                              + [Rebuild(Series(last, |listing|, 1, [], [], []), dirs[last])]
            && Find(LoadedSeries(dirs, listing[..|listing| - 1]), last) == |listing| - 1
  {
    hide Rebuild;
    var init, last := listing[..|listing| - 1], listing[|listing| - 1];
    var before := LoadedSeries(dirs, init);
    LoadedNames(dirs, init);
    assert forall k :: 0 <= k < |init| ==> before[k].name == listing[k] != last;
  }

  lemma LoadedNames(dirs: map<Name, Directory>, listing: seq<Name>)
    requires Listed(listing, dirs)
    ensures |LoadedSeries(dirs, listing)| == |listing|
    ensures forall k :: 0 <= k < |listing| ==>
              LoadedSeries(dirs, listing)[k].name == listing[k] && LoadedSeries(dirs, listing)[k].buffer == []
  {}

  lemma {:induction false} LoadIs(dirs: map<Name, Directory>, log: seq<Entry>, rest: seq<byte>, listing: seq<Name>)
    requires Listed(listing, dirs)
    ensures Load(Fresh(dirs, log, rest), listing)
            == Fresh(dirs, log, rest).(series := LoadedSeries(dirs, listing), nextGeneration := |listing|)
  {
    hide Rebuild, Find;
    if listing == [] {
      assert LoadedSeries(dirs, listing) == [];
    } else {
      LoadedPush(dirs, listing);
      LoadIs(dirs, log, rest, listing[..|listing| - 1]);
      hide LoadedSeries;
    }
  }

  lemma LoadedSeriesOk(dirs: map<Name, Directory>, listing: seq<Name>, k: nat)
    requires Listed(listing, dirs) && k < |listing| && FilesOk(dirs[listing[k]])
    ensures SeriesOk(LoadedSeries(dirs, listing)[k], dirs[listing[k]])
  {
    hide FilesOk, SeriesOk, Rebuild;
    RebuildOk(Series(listing[k], k + 1, 1, [], [], []), dirs[listing[k]]);
  }

  /** A loaded database is consistent: its index is the scan of the files, its buffers are empty. */
  lemma LoadedOk(dirs: map<Name, Directory>, log: seq<Entry>, rest: seq<byte>, listing: seq<Name>)
    requires Lists(listing, dirs) && forall n :: n in dirs ==> FilesOk(dirs[n])
    ensures Listed(listing, dirs)
    ensures var m := Load(Fresh(dirs, log, rest), listing);
            && RegistryOk(m) && m == Fresh(dirs, log, rest).(series := m.series, nextGeneration := m.nextGeneration)
            && m.dirs == dirs && m.log == log && m.pending == [] && m.durability == Strict
            && m.quota == 0 && |m.series| == |listing|
            && (forall i :: 0 <= i < |m.series| ==> m.series[i].name == listing[i] && m.series[i].buffer == [])
  {
    hide SeriesOk, FilesOk, Find, DistinctNames, Lists, Load, LoadedSeries, Rebuild;
    ListingIsListed(listing, dirs);
    LoadIs(dirs, log, rest, listing);
    LoadedNames(dirs, listing);
    var series := LoadedSeries(dirs, listing);
    forall k | 0 <= k < |listing|
      ensures SeriesOk(series[k], dirs[listing[k]])
    {
      LoadedSeriesOk(dirs, listing, k);
    }
    ListingFinds(series, dirs, listing);
  }

  lemma ListingIsListed(listing: seq<Name>, dirs: map<Name, Directory>)
    requires Lists(listing, dirs)
    ensures Listed(listing, dirs)
  {
    assert forall k :: 0 <= k < |listing| ==> listing[k] in listing;
  }

  lemma ListingFinds(series: seq<Series>, dirs: map<Name, Directory>, listing: seq<Name>)
    requires Lists(listing, dirs) && |series| == |listing|
    requires forall i :: 0 <= i < |series| ==> series[i].name == listing[i]
    ensures DistinctNames(series) && forall n :: n in dirs ==> Find(series, n) < |series|
  {
    hide Find;
    forall n | n in dirs
      ensures Find(series, n) < |series|
    {
      var k :| 0 <= k < |listing| && listing[k] == n;
      assert series[k].name == n;
      FindAtLeast(series, n, k);
    }
  }

  lemma FindAtLeast(series: seq<Series>, name: Name, k: nat)
    requires k < |series| && series[k].name == name
    ensures Find(series, name) <= k
  {}

  // ---------------------------------------------------------------- replay

  /** The series with the points of a log appended to their buffers. */
  function Buffered(series: seq<Series>, es: seq<Entry>): (r: seq<Series>)
    ensures |r| == |series|
    ensures forall i :: 0 <= i < |series| ==>
              r[i] == series[i].(buffer := series[i].buffer + PointsFor(es, series[i].name))
  {
    seq(|series|, i requires 0 <= i < |series| =>
      series[i].(buffer := series[i].buffer + PointsFor(es, series[i].name)))
  }

  lemma {:induction false} RecoverPointsFit(m: Model, i: nat, ps: seq<Point>)
    requires i < |m.series| && |m.series[i].buffer| + |ps| <= BLOCK_MAX_POINTS
    ensures RecoverPoints(m, i, ps) == Push(m, i, ps)
  {
    hide WriteBlock;
    var s := m.series[i];
    if ps == [] {
      assert s.buffer + [] == s.buffer && m.series == m.series[i := s];
    } else {
      var init, last := ps[..|ps| - 1], ps[|ps| - 1];
      RecoverPointsFit(m, i, init);
      Associative(s.buffer, init, [last]);
      assert ps == init + [last];
    }
  }

  /** `es` names only known series and fits into their buffers. */
  ghost predicate Fits(series: seq<Series>, es: seq<Entry>) {
    && (forall k :: 0 <= k < |es| ==> Find(series, es[k].name) < |series|)
    && (forall i :: 0 <= i < |series| ==>
          |series[i].buffer| + |PointsFor(es, series[i].name)| <= BLOCK_MAX_POINTS)
  }

  lemma FitsInit(series: seq<Series>, es: seq<Entry>)
    requires Fits(series, es) && es != []
    ensures Fits(series, es[..|es| - 1])
  {
    hide Entry.Points, Find;
    var init := es[..|es| - 1];
    forall k | 0 <= k < |init|
      ensures Find(series, init[k].name) < |series|
    {
      assert init[k] == es[k];
    }
  }

  lemma BufferedStep(series: seq<Series>, es: seq<Entry>, i: nat)
    requires es != [] && DistinctNames(series) && i < |series| && series[i].name == es[|es| - 1].name
    ensures var before := Buffered(series, es[..|es| - 1]);
            Buffered(series, es) ==
            before[i := before[i].(buffer := before[i].buffer + es[|es| - 1].Points())]
  {
    hide Entry.Points;
    var init, last := es[..|es| - 1], es[|es| - 1];
    var before := Buffered(series, init);
    forall j | 0 <= j < |series|
      ensures series[j].buffer + PointsFor(es, series[j].name)
              == before[j].buffer + if j == i then last.Points() else []
    {
      if j == i {
        Associative(series[j].buffer, PointsFor(init, series[j].name), last.Points());
      } else {
        OtherName(series, i, j);
        assert PointsFor(init, series[j].name) + [] == PointsFor(init, series[j].name);
      }
    }
    hide PointsFor, DistinctNames;
    var after := before[i := before[i].(buffer := before[i].buffer + last.Points())];
    forall j | 0 <= j < |series|
      ensures Buffered(series, es)[j] == after[j]
    {
      assert j != i ==> before[j].buffer + [] == before[j].buffer;
    }
  }

  /** A log that fits into the buffers is replayed without flushing anything. */
  lemma {:induction false} ReplayIs(m: Model, es: seq<Entry>)
    requires DistinctNames(m.series) && Fits(m.series, es)
    ensures ReplayAll(m, es) == m.(series := Buffered(m.series, es))
  {
    hide Entry.Points, RecoverPoints;
    if es == [] {
      assert Buffered(m.series, es) == m.series by {
        forall i | 0 <= i < |m.series|
          ensures m.series[i].(buffer := m.series[i].buffer + PointsFor(es, m.series[i].name)) == m.series[i]
        {}
      }
    } else {
      var init, last := es[..|es| - 1], es[|es| - 1];
      FitsInit(m.series, es);
      ReplayIs(m, init);
      var m1, i := m.(series := Buffered(m.series, init)), Find(m.series, last.name);
      assert i < |m.series| by {
        assert es[|es| - 1] == last;
      }
      FindSameNames(m.series, m1.series, last.name);
      BufferRoom(m.series, es, i);
      RecoverPointsFit(m1, i, last.Points());
      BufferedStep(m.series, es, i);
      hide Find, PointsFor, Buffered, Fits, DistinctNames;
    }
  }

  lemma BufferRoom(series: seq<Series>, es: seq<Entry>, i: nat)
    requires es != [] && Fits(series, es) && i < |series| && series[i].name == es[|es| - 1].name
    ensures |Buffered(series, es[..|es| - 1])[i].buffer| + |es[|es| - 1].Points()| <= BLOCK_MAX_POINTS
  {
    hide Entry.Points, Find;
  }

  // ---------------------------------------------------------------- a replay of any log

  /** Six-digit ids are left for `n` more points in every series, in those that are not known yet too. */
  predicate IdsLeft(m: Model, n: nat) {
    && IdsLeftFor(1, 0, n)
    && forall i :: 0 <= i < |m.series| ==> IdsLeftFor(m.series[i].activeId, |m.series[i].buffer|, n)
  }

  predicate IdsLeftFor(activeId: nat, buffered: nat, n: nat) {
    activeId * BLOCK_MAX_POINTS + buffered + n <= MAX_SEGMENT_ID * BLOCK_MAX_POINTS + BLOCK_MAX_POINTS
  }

  lemma LeftAfterBlock(activeId: nat, activeId': nat, n: nat)
    requires IdsLeftFor(activeId, BLOCK_MAX_POINTS, n + 1) && activeId' <= activeId + 1
    ensures activeId < MAX_SEGMENT_ID && IdsLeftFor(activeId', 0, n + 1)
  {
    if activeId >= MAX_SEGMENT_ID {
      TimesMonotone(MAX_SEGMENT_ID, activeId, BLOCK_MAX_POINTS);
    }
    TimesMonotone(activeId', activeId + 1, BLOCK_MAX_POINTS);
    assert (activeId + 1) * BLOCK_MAX_POINTS == activeId * BLOCK_MAX_POINTS + BLOCK_MAX_POINTS;
  }

  lemma TimesMonotone(a: nat, b: nat, c: nat)
    requires a <= b
    ensures a * c <= b * c
  {
    assert (b - a) * c >= 0;
    assert b * c == a * c + (b - a) * c;
  }

  /** A replayed point is the new last one, whether or not there was room for it in the buffer. */
  lemma RecoverOneExtends(m: Model, i: nat, p: Point, n: nat)
    requires RegistryOk(m) && i < |m.series| && IdsLeft(m, n + 1)
    ensures var m' := RecoverPoint(m, i, p);
            RegistryOk(m') && SameShape(m, m') && Extended(m, m', i, [p]) && IdsLeft(m', n)
  {
    hide RegistryOk, WriteBlock, SameVisible, Extended, SameShape, IdsLeftFor, Replaced, Placed;
    BufferAtMost(m, i);
    var m1, m' := m, RecoverPoint(m, i, p);
    if |m.series[i].buffer| == BLOCK_MAX_POINTS {
      m1 := WriteBlock(m, i);
      LeftAfterBlock(m.series[i].activeId, m.series[i].activeId, n);
      WriteBlockOk(m, i);
      ReplacedOthers(m, m1, i);
      LeftAfterBlock(m.series[i].activeId, m1.series[i].activeId, n);
    } else {
      SelfVisible(m);
    }
    ShapeAt(m, m1, i);
    PushRegistry(m1, m1, i, [p]);
    ShapeTransitive(m, m1, m');
    ExtendedAfter(m, m1, m', i, [p]);
    LeftAfterPush(m1, i, p, n);
  }

  lemma ShapeAt(m: Model, m1: Model, i: nat)
    requires SameShape(m, m1) && i < |m.series|
    ensures i < |m1.series| && m1.series[i].name == m.series[i].name
  {}

  lemma LeftAfterPush(m: Model, i: nat, p: Point, n: nat)
    requires i < |m.series| && IdsLeft(m, n + 1)
    ensures IdsLeft(Push(m, i, [p]), n)
  {}

  lemma {:induction false} RecoverExtends(m: Model, i: nat, ps: seq<Point>, n: nat)
    requires RegistryOk(m) && i < |m.series| && IdsLeft(m, n + |ps|)
    ensures var m' := RecoverPoints(m, i, ps);
            RegistryOk(m') && SameShape(m, m') && Extended(m, m', i, ps) && IdsLeft(m', n)
  {
    hide RegistryOk, RecoverPoint, Extended, SameShape, IdsLeft;
    if ps == [] {
      SelfVisible(m);
      NothingExtended(m, i);
    } else {
      var init, last := ps[..|ps| - 1], ps[|ps| - 1];
      RecoverExtends(m, i, init, n + 1);
      var m1 := RecoverPoints(m, i, init);
      RecoverOneExtends(m1, i, last, n);
      ShapeAt(m, m1, i);
      ShapeTransitive(m, m1, RecoverPoints(m, i, ps));
      ExtendedTwice(m, m1, RecoverPoints(m, i, ps), i, init, [last]);
      assert init + [last] == ps;
    }
  }

  lemma NothingExtended(m: Model, i: nat)
    requires i < |m.series|
    ensures Extended(m, m, i, [])
  {
    hide Visible;
    assert forall n: Name :: Visible(m, n) + [] == Visible(m, n);
  }

  lemma RegisterOk(m: Model, name: Name)
    requires RegistryOk(m)
    ensures var m' := AddSeries(m, name);
            && RegistryOk(m') && m'.dirs.Keys == m.dirs.Keys + {name} && Find(m'.series, name) < |m'.series|
            && (forall n: Name :: Visible(m', n) == Visible(m, n))
            && (forall n: nat :: IdsLeft(m, n) ==> IdsLeft(m', n))
  {
    hide RegistryOk, StoredPoints, AddSeries, Find, BufferOf, IdsLeftFor, SeriesOk;
    RegisteredName(m, name);
    if name in m.dirs {
      KnownSeries(m, name);
    } else {
      var m', s := AddSeries(m, name), NewSeries(m, name);
      AddedSeries(m, name);
      AddedBuffers(m, m', s);
      AppendedRegistry(m, m', s);
      EmptyDirectory();
      EmptyActive(s);
      hide NewSeries;
    }
  }

  lemma KnownSeries(m: Model, name: Name)
    requires Find(m.series, name) < |m.series|
    ensures AddSeries(m, name) == m
  {}

  lemma EmptyActive(s: Series)
    requires SeriesOk(s, map[])
    ensures s.activeId == 1
  {
    var empty: Directory := map[];
    assert empty.Keys == {};
  }

  /** How many points a log holds. */
  function PointCount(es: seq<Entry>): nat {
    if es == [] then 0 else PointCount(es[..|es| - 1]) + |es[|es| - 1].Points()|
  }

  lemma ReplayEntryDelivers(m: Model, e: Entry, n: nat)
    requires RegistryOk(m) && IdsLeft(m, n + |e.Points()|)
    ensures var m' := ReplayEntry(m, e);
            && RegistryOk(m') && IdsLeft(m', n) && m'.dirs.Keys == m.dirs.Keys + {e.name}
            && forall x: Name :: Visible(m', x) == Visible(m, x) + if x == e.name then e.Points() else []
  {
    hide RegistryOk, RecoverPoints, AddSeries, Visible, IdsLeft, Entry.Points, Find;
    RegisterOk(m, e.name);
    var m1 := AddSeries(m, e.name);
    RecoverExtends(m1, Find(m1.series, e.name), e.Points(), n);
  }

  /** Every series has been given the points of the records, and their series are registered. */
  ghost predicate Delivers(m: Model, m': Model, es: seq<Entry>) {
    && (forall x: Name :: x in m'.dirs <==> x in m.dirs || exists k :: 0 <= k < |es| && es[k].name == x)
    && forall x: Name :: Visible(m', x) == Visible(m, x) + PointsFor(es, x)
  }

  lemma OneMoreDelivered(m: Model, m1: Model, m': Model, init: seq<Entry>, last: Entry)
    requires Delivers(m, m1, init) && m'.dirs.Keys == m1.dirs.Keys + {last.name}
    requires forall x: Name :: Visible(m', x) == Visible(m1, x) + if x == last.name then last.Points() else []
    ensures Delivers(m, m', init + [last])
  {
    hide Visible, Entry.Points, PointsFor;
    var es := init + [last];
    forall x: Name
      ensures Visible(m', x) == Visible(m, x) + PointsFor(es, x)
    {
      PointsForConcat(init, [last], x);
      PointsForOne(last, x);
      Associative(Visible(m, x), PointsFor(init, x), PointsFor([last], x));
    }
    RegisteredMore(m.dirs.Keys, m1.dirs.Keys, m'.dirs.Keys, init, last);
  }

  lemma RegisteredMore(before: set<Name>, between: set<Name>, after: set<Name>, init: seq<Entry>, last: Entry)
    requires forall x: Name :: x in between <==> x in before || exists k :: 0 <= k < |init| && init[k].name == x
    requires after == between + {last.name}
    ensures var es := init + [last];
            forall x: Name :: x in after <==> x in before || exists k :: 0 <= k < |es| && es[k].name == x
  {
    var es := init + [last];
    forall x: Name
      ensures x in after <==> x in before || exists k :: 0 <= k < |es| && es[k].name == x
    {
      if x == last.name {
        assert es[|init|].name == x;
      } else if x in between && x !in before {
        var k :| 0 <= k < |init| && init[k].name == x;
        assert es[k].name == x;
      }
    }
  }

  lemma NothingDelivered(m: Model)
    ensures Delivers(m, m, [])
  {
    hide Visible;
    assert forall x: Name :: Visible(m, x) + [] == Visible(m, x);
  }

  /**
   * Replaying any log, not only one that mirrors the buffers, gives every series the points of its records in their
   * order, and registers the series that were not known; full buffers become blocks on the way.
   */
  lemma {:induction false} ReplayDelivers(m: Model, es: seq<Entry>, n: nat)
    requires RegistryOk(m) && IdsLeft(m, n + PointCount(es))
    ensures var m' := ReplayAll(m, es);
            RegistryOk(m') && IdsLeft(m', n) && Delivers(m, m', es)
  {
    hide RegistryOk, ReplayEntry, Visible, IdsLeft, Entry.Points, Delivers;
    if es == [] {
      NothingDelivered(m);
    } else {
      var init, last := es[..|es| - 1], es[|es| - 1];
      ReplayDelivers(m, init, n + |last.Points()|);
      var m1, m' := ReplayAll(m, init), ReplayAll(m, es);
      ReplayEntryDelivers(m1, last, n);
      assert m' == ReplayEntry(m1, last);
      hide ReplayAll;
      OneMoreDelivered(m, m1, m', init, last);
      assert es == init + [last];
    }
  }

  // ---------------------------------------------------------------- open

  /** What an open needs: readable segments, and a log that mirrors at most one buffer per known series. */
  ghost predicate Openable(dirs: map<Name, Directory>, log: seq<Entry>) {
    && (forall n :: n in dirs ==> FilesOk(dirs[n]))
    && AllWellFormed(log)
    && (forall k :: 0 <= k < |log| ==> log[k].name in dirs)
    && (forall n: Name :: |PointsFor(log, n)| <= BLOCK_MAX_POINTS)
  }

  /** The state after an open: nothing on disk has changed, and every reader sees the blocks and then the log. */
  ghost predicate Opened(m: Model, dirs: map<Name, Directory>, log: seq<Entry>, rest: seq<byte>) {
    && Inv(m) && m == Fresh(dirs, log, rest).(series := m.series, nextGeneration := m.nextGeneration)
    && forall n: Name :: Visible(m, n) == StoredPoints(DirOf(dirs, n)) + PointsFor(log, n)
  }

  lemma ReplayedRegistry(m: Model, es: seq<Entry>)
    requires RegistryOk(m) && Fits(m.series, es) && forall i :: 0 <= i < |m.series| ==> m.series[i].buffer == []
    ensures var m' := m.(series := Buffered(m.series, es));
            RegistryOk(m') && forall n: Name :: n in m.dirs ==> BufferOf(m'.series, n) == PointsFor(es, n)
  {
    hide SeriesOk, PointsFor;
    var m' := m.(series := Buffered(m.series, es));
    forall i | 0 <= i < |m.series|
      ensures SeriesOk(m'.series[i], m.dirs[m.series[i].name]) && m'.series[i].buffer == PointsFor(es, m.series[i].name)
    {
      PushedSeries(m.series[i], m.dirs[m.series[i].name], PointsFor(es, m.series[i].name));
      assert [] + PointsFor(es, m.series[i].name) == PointsFor(es, m.series[i].name);
    }
    DistinctSameNames(m.series, m'.series);
    forall n: Name
      ensures Find(m'.series, n) == Find(m.series, n)
    {
      FindSameNames(m.series, m'.series, n);
    }
    hide Find;
  }

  lemma LoadedFits(m: Model, log: seq<Entry>)
    requires RegistryOk(m) && Openable(m.dirs, log) && forall i :: 0 <= i < |m.series| ==> m.series[i].buffer == []
    ensures Fits(m.series, log)
  {
    hide PointsFor, Find, FilesOk;
    RegistryFinds(m);
    hide RegistryOk;
  }

  /** An open is a load whose buffers are then filled from the log. */
  lemma OpenIs(dirs: map<Name, Directory>, log: seq<Entry>, rest: seq<byte>, listing: seq<Name>)
    requires Openable(dirs, log) && Lists(listing, dirs)
    ensures var m := Load(Fresh(dirs, log, rest), listing);
            && RegistryOk(m) && m == Fresh(dirs, log, rest).(series := m.series, nextGeneration := m.nextGeneration)
            && m.dirs == dirs && m.log == log && m.pending == [] && m.durability == Strict
            && m.quota == 0 && (forall i :: 0 <= i < |m.series| ==> m.series[i].buffer == [])
            && Fits(m.series, log)
            && Open(dirs, log, rest, listing) == m.(series := Buffered(m.series, log))
  {
    hide RegistryOk, FilesOk, Load, Lists, Buffered, PointsFor;
    var m := Load(Fresh(dirs, log, rest), listing);
    LoadedOk(dirs, log, rest, listing);
    LoadedFits(m, log);
    RegistryNames(m);
    ReplayIs(m, log);
    hide ReplayAll, Fits, Openable;
  }

  lemma OpenOk(dirs: map<Name, Directory>, log: seq<Entry>, rest: seq<byte>, listing: seq<Name>)
    requires Openable(dirs, log) && Lists(listing, dirs)
    ensures Opened(Open(dirs, log, rest, listing), dirs, log, rest)
  {
    hide RegistryOk, FilesOk, StoredPoints, Load, Lists, Buffered, Fits, Open, BufferOf, PointsFor;
    OpenIs(dirs, log, rest, listing);
    var m' := Open(dirs, log, rest, listing);
    ReplayedRegistry(Load(Fresh(dirs, log, rest), listing), log);
    UnknownNames(m', log);
    assert Journal(m') == log + [] == log;
    forall n: Name
      ensures PointsFor(log, n) == BufferOf(m'.series, n)
    {
      assert n in dirs || n !in dirs;
    }
  }

  lemma RegistryFinds(m: Model)
    requires RegistryOk(m)
    ensures forall n :: n in m.dirs ==> Find(m.series, n) < |m.series|
  {
    hide SeriesOk;
  }

  lemma UnknownNames(m: Model, log: seq<Entry>)
    requires RegistryOk(m) && forall k :: 0 <= k < |log| ==> log[k].name in m.dirs
    ensures forall n: Name :: n !in m.dirs ==> PointsFor(log, n) == [] && BufferOf(m.series, n) == []
  {
    hide SeriesOk;
    forall n: Name | n !in m.dirs
      ensures PointsFor(log, n) == [] && BufferOf(m.series, n) == []
    {
      PointsForAbsent(log, n);
      var k := Find(m.series, n);
    }
  }

  // ---------------------------------------------------------------- crashes

  lemma {:induction false} EntryHasPoints(es: seq<Entry>, k: nat)
    requires k < |es| && es[k].WellFormed()
    ensures PointsFor(es, es[k].name) != []
  {
    hide Entry.Points;
    var init, last := es[..|es| - 1], es[|es| - 1];
    if k < |init| {
      assert init[k] == es[k];
      EntryHasPoints(init, k);
    } else {
      assert last.Points() != [] by {
        NonEmptyRecord(last);
      }
    }
  }

  lemma NonEmptyRecord(e: Entry)
    requires e.WellFormed()
    ensures e.Points() != []
  {}

  lemma RegistryFiles(m: Model)
    requires RegistryOk(m)
    ensures forall n :: n in m.dirs ==> FilesOk(m.dirs[n])
    ensures forall n: Name :: |BufferOf(m.series, n)| <= BLOCK_MAX_POINTS
    ensures forall n: Name :: BufferOf(m.series, n) != [] ==> n in m.dirs
  {
    hide FilesOk, SortedIds, IndexOfIds, Find;
    forall n | n in m.dirs
      ensures FilesOk(m.dirs[n])
    {
      var k := Find(m.series, n);
      assert m.series[k].name == n;
    }
    forall n: Name
      ensures |BufferOf(m.series, n)| <= BLOCK_MAX_POINTS && (BufferOf(m.series, n) != [] ==> n in m.dirs)
    {
      var k := Find(m.series, n);
      if k < |m.series| {
        assert m.series[k].name == n;
      }
    }
  }

  /** Any prefix of the journal is a log that opens, and it holds a prefix of every buffer. */
  lemma JournalPrefixOpens(m: Model, es: seq<Entry>)
    requires Inv(m) && es <= Journal(m)
    ensures Openable(m.dirs, es)
    ensures forall n: Name :: PointsFor(es, n) <= BufferOf(m.series, n)
  {
    hide RegistryOk, BufferOf, Entry.WellFormed, FilesOk;
    RegistryFiles(m);
    var rest := Journal(m)[|es|..];
    assert Journal(m) == es + rest;
    forall n: Name
      ensures PointsFor(es, n) <= BufferOf(m.series, n)
    {
      PointsForConcat(es, rest, n);
    }
    hide PointsFor;
    forall k | 0 <= k < |es|
      ensures es[k].name in m.dirs && es[k].WellFormed()
    {
      assert es[k] == Journal(m)[k];
      EntryHasPoints(es, k);
      assert PointsFor(es, es[k].name) <= BufferOf(m.series, es[k].name);
    }
  }

  lemma RecoverablePrefix(m: Model)
    ensures Recoverable(m) <= m.log && Recoverable(m) <= Journal(m)
  {}

  /** No record is in memory only. */
  predicate Saved(m: Model) {
    m.durability.Strict? || m.pending == []
  }

  /**
   * Exact recovery. A crash between two calls loses nothing on disk and, of each buffer, at most the points whose
   * records had not reached the log file in front of a torn one. With a log that is not torn, nothing at all is lost
   * when no record is pending, as in STRICT mode.
   */
  lemma CrashRecovers(m: Model, listing: seq<Name>)
    requires Inv(m) && Lists(listing, m.dirs)
    ensures var m' := Crash(m, listing);
            && Opened(m', m.dirs, Recoverable(m), Unreachable(m))
            && (forall n: Name :: BufferOf(m'.series, n) == PointsFor(Recoverable(m), n) <= BufferOf(m.series, n))
            && (Saved(m) && Recoverable(m) == m.log ==> SameVisible(m, m'))
  {
    hide RegistryOk, BufferOf, AllWellFormed, StoredPoints, PointsFor, Open, Recoverable, Unreachable;
    RecoverablePrefix(m);
    JournalPrefixOpens(m, Recoverable(m));
    OpenOk(m.dirs, Recoverable(m), Unreachable(m), listing);
    var m' := Crash(m, listing);
    assert Journal(m') == Recoverable(m) + [] == Recoverable(m);
    if Saved(m) && Recoverable(m) == m.log {
      assert Journal(m) == m.log + [] == m.log;
    }
    hide Openable, Lists;
  }

  /** Crashing again right after an open changes nothing, so repeated recovery equals one recovery. */
  lemma RecoveryIsIdempotent(m: Model, first: seq<Name>, second: seq<Name>)
    requires Inv(m) && Lists(first, m.dirs) && Lists(second, m.dirs) && Legible(m)
    ensures var once := Crash(m, first);
            && Legible(once)
            && var twice := Crash(once, second);
               && SameVisible(once, twice) && Opened(twice, m.dirs, Recoverable(m), Unreachable(m))
               && (first == second ==> twice == once)
  {
    hide Inv, Visible, Open, Lists, PointsFor, StoredPoints, ParseLog, LogBytes;
    CrashRecovers(m, first);
    var once := Crash(m, first);
    FreshLegible(m, once);
    CrashRecovers(once, second);
  }

  /** An opened database has nothing behind a torn end yet, so the next open reaches the same records. */
  lemma FreshLegible(m: Model, once: Model)
    requires once == Fresh(m.dirs, Recoverable(m), Unreachable(m))
                     .(series := once.series, nextGeneration := once.nextGeneration)
    ensures TearOk(once) && Recoverable(once) == Recoverable(m) && Unreachable(once) == Unreachable(m)
    ensures Legible(m) ==> Legible(once)
  {
    hide ParseLog;
    NoBytes();
    if once.torn != [] {
      assert once.log[once.kept..] == [] && once.log[..once.kept] == once.log;
      assert once.torn + [] == once.torn;
    }
  }

  // ---------------------------------------------------------------- crashes inside an append

  /** Records of `m2` that are not yet in the log file of `m`. */
  ghost predicate Ahead(m: Model, m2: Model, es: seq<Entry>) {
    m2.dirs == m.dirs && Journal(m2) == m.log + es
  }

  /**
   * A crash while records are on their way to an intact log file, at any byte: the open succeeds, keeps everything the
   * file held before and recovers a prefix of what the call would have made visible. `m2` is the state the call would
   * have reached, so this covers tears inside an append, in STRICT mode too, and inside every flush of the log.
   */
  lemma TornCrashRecovers(m: Model, m2: Model, es: seq<Entry>, cut: nat, listing: seq<Name>)
    requires Inv(m2) && Ahead(m, m2, es) && Lists(listing, m.dirs) && m.torn == [] && m.kept == 0
    requires cut <= |LogBytes(es)|
    ensures var w := Written(m, es, cut);
            && Legible(w) && m.log <= Recoverable(w) <= Journal(m2)
            && Opened(Crash(w, listing), m.dirs, Recoverable(w), Unreachable(w))
            && forall n: Name :: PointsFor(m.log, n) <= PointsFor(Recoverable(w), n) <= BufferOf(m2.series, n)
  {
    hide RegistryOk, BufferOf, Open, Lists, ParseLog, LogBytes, LogSize, WholeEntries, PointsFor, AllWellFormed;
    var w, k := Written(m, es, cut), WholeEntries(es, cut);
    AheadWellFormed(m, m2, es);
    WrittenLegible(m, es, cut);
    assert Recoverable(w) == m.log + es[..k];
    assert Journal(m2) == m.log + es && es == es[..k] + es[k..];
    JournalPrefixOpens(m2, Recoverable(w));
    OpenOk(m.dirs, Recoverable(w), Unreachable(w), listing);
    forall n: Name
      ensures PointsFor(m.log, n) <= PointsFor(Recoverable(w), n)
    {
      PointsForConcat(m.log, es[..k], n);
    }
    hide Openable, Inv;
  }

  /** The state an append of `ps` by the records `es` is about to reach. */
  function Appended(m: Model, i: nat, es: seq<Entry>, ps: seq<Point>): Model
    requires i < |m.series|
  {
    Push(m.(log := m.log + (m.pending + es), pending := []), i, ps)
  }

  lemma AppendedOk(m: Model, i: nat, es: seq<Entry>, ps: seq<Point>)
    requires Inv(m) && i < |m.series| && Records(m, i, es, ps) && |m.series[i].buffer| + |ps| <= BLOCK_MAX_POINTS
    ensures var m2 := Appended(m, i, es, ps);
            Inv(m2) && Ahead(m, m2, m.pending + es) && Extended(m, m2, i, ps) && SameShape(m, m2)
  {
    hide Inv, Records, Extended, SameShape;
    var m1 := m.(log := m.log + (m.pending + es), pending := []);
    assert m.log + (m.pending + es) + [] == m.log + m.pending + es;
    PushLogged(m, m1, i, es, ps);
  }

  /** Between the points `m` would recover and those `m2` shows. */
  ghost predicate Within(m: Model, m2: Model, m': Model) {
    && m'.dirs.Keys == m.dirs.Keys
    && (forall n: Name :: Visible(m', n) <= Visible(m2, n))
    && (Saved(m) && m.torn == [] ==> forall n: Name :: Visible(m, n) <= Visible(m', n))
  }

  lemma WithinOf(m: Model, m2: Model, m': Model, log: seq<Entry>, rest: seq<byte>)
    requires Inv(m) && m2.dirs == m.dirs && Opened(m', m.dirs, log, rest)
    requires forall n: Name :: PointsFor(log, n) <= BufferOf(m2.series, n)
    requires m.torn == [] ==> forall n: Name :: PointsFor(m.log, n) <= PointsFor(log, n)
    ensures Within(m, m2, m')
  {
    hide RegistryOk, BufferOf, PointsFor, StoredPoints, AllWellFormed;
    forall n: Name
      ensures Visible(m', n) <= Visible(m2, n)
    {
      PrefixBehind(StoredPoints(DirOf(m.dirs, n)), PointsFor(log, n), BufferOf(m2.series, n));
    }
    if Saved(m) && m.torn == [] {
      assert Journal(m) == m.log + [] == m.log;
      forall n: Name
        ensures Visible(m, n) <= Visible(m', n)
      {
        PrefixBehind(StoredPoints(DirOf(m.dirs, n)), PointsFor(m.log, n), PointsFor(log, n));
      }
    }
  }

  lemma PrefixBehind<T>(a: seq<T>, b: seq<T>, c: seq<T>)
    requires b <= c
    ensures a + b <= a + c
  {}

  /** A crash while pending records and those of a call are on their way to the log file, whole or torn. */
  lemma CrashWhileLogging(m: Model, m2: Model, es: seq<Entry>, cut: nat, listing: seq<Name>)
    requires Inv(m) && Inv(m2) && TearOk(m) && Lists(listing, m.dirs) && Ahead(m, m2, m.pending + es)
    requires cut <= |LogBytes(m.pending + es)|
    ensures var w := Written(m, m.pending + es, cut);
            && TearOk(w) && WalBytes(w) == WalBytes(m) + LogBytes(m.pending + es)[..cut]
            && (m.torn == [] ==> Legible(w))
            && Opened(Crash(w, listing), m.dirs, Recoverable(w), Unreachable(w))
            && Within(m, m2, Crash(w, listing))
  {
    hide Inv, Written, LogBytes, WalBytes, Recoverable, Unreachable, Opened, Legible, Lists, Within, Push, Crash;
    var w := Written(m, m.pending + es, cut);
    AheadWellFormed(m, m2, m.pending + es);
    CrashUnfolds(w, listing);
    if m.torn == [] {
      TornCrashRecovers(m, m2, m.pending + es, cut, listing);
      WrittenLegible(m, m.pending + es, cut);
      WithinOf(m, m2, Crash(w, listing), Recoverable(w), Unreachable(w));
    } else {
      WrittenBehind(m, m.pending + es, cut);
      Associative(m.log, m.pending, es);
      TornPrefix(m, m2, listing, w);
    }
  }

  /**
   * A crash inside an append, point or batch chunk, with any number of bytes of its records written: no reader sees
   * more than the append would have shown, and if nothing was pending on an intact log nobody sees less than before.
   */
  lemma CrashInAppend(m: Model, i: nat, es: seq<Entry>, ps: seq<Point>, cut: nat, listing: seq<Name>)
    requires Inv(m) && TearOk(m) && Lists(listing, m.dirs) && i < |m.series|
    requires Records(m, i, es, ps) && |m.series[i].buffer| + |ps| <= BLOCK_MAX_POINTS
    requires cut <= |LogBytes(m.pending + es)|
    ensures var w := Written(m, m.pending + es, cut);
            && TearOk(w) && (m.torn == [] ==> Legible(w))
            && Opened(Crash(w, listing), m.dirs, Recoverable(w), Unreachable(w))
            && Within(m, Appended(m, i, es, ps), Crash(w, listing))
  {
    hide Inv, Records, Written, LogBytes, Recoverable, Unreachable, Opened, Legible, Lists, Within, Push, Crash;
    AppendedOk(m, i, es, ps);
    CrashWhileLogging(m, Appended(m, i, es, ps), es, cut, listing);
  }

  lemma CrashUnfolds(w: Model, listing: seq<Name>)
    ensures Crash(w, listing) == Open(w.dirs, Recoverable(w), Unreachable(w), listing)
  {}

  lemma TornPrefix(m: Model, m2: Model, listing: seq<Name>, w: Model)
    requires Inv(m) && Inv(m2) && Lists(listing, m.dirs) && m.torn != [] && m2.dirs == m.dirs && w.dirs == m.dirs
    requires Journal(m) <= Journal(m2) && Recoverable(w) == Recoverable(m)
    ensures Opened(Crash(w, listing), m.dirs, Recoverable(w), Unreachable(w))
    ensures Within(m, m2, Crash(w, listing))
  {
    hide RegistryOk, BufferOf, AllWellFormed, StoredPoints, PointsFor, Open, Recoverable, Unreachable;
    RecoverablePrefix(m);
    JournalPrefixOpens(m2, Recoverable(m));
    OpenOk(m.dirs, Recoverable(w), Unreachable(w), listing);
    WithinOf(m, m2, Crash(w, listing), Recoverable(w), Unreachable(w));
  }

  /** The two kinds of appends as their records go to the log, once there is room in the buffer. */
  lemma CrashInAppendPoint(m: Model, i: nat, p: Point, cut: nat, listing: seq<Name>)
    requires Inv(m) && TearOk(m) && Lists(listing, m.dirs) && i < |m.series| && |m.series[i].buffer| < BLOCK_MAX_POINTS
    requires cut <= |LogBytes(m.pending + [PointV3(m.series[i].name, p)])|
    ensures AppendPoint(m, i, p).1 == Ok
    ensures var w := Written(m, m.pending + [PointV3(m.series[i].name, p)], cut);
            && (m.torn == [] ==> Legible(w)) && Within(m, AppendPoint(m, i, p).0, Crash(w, listing))
  {
    hide Inv, Records, Written, LogBytes, Crash, Legible, WalAppendPoint, Logged;
    var name := m.series[i].name;
    PointRecorded(m, i, p);
    CrashInAppend(m, i, [PointV3(name, p)], [p], cut, listing);
    SameSight(m, Appended(m, i, [PointV3(name, p)], [p]), AppendPoint(m, i, p).0,
              Crash(Written(m, m.pending + [PointV3(name, p)], cut), listing)) by {
      LoggedKeeps(m, WalAppendPoint(m, name, p), [PointV3(name, p)]);
    }
  }

  lemma LoggedKeeps(m: Model, m': Model, es: seq<Entry>)
    requires Logged(m, m', es)
    ensures m'.dirs == m.dirs && m'.series == m.series
  {}

  lemma SameSight(m: Model, m2: Model, m3: Model, m': Model)
    requires m2.dirs == m3.dirs && m2.series == m3.series && Within(m, m2, m')
    ensures Within(m, m3, m')
  {
    hide StoredPoints, BufferOf;
    assert forall n: Name :: Visible(m3, n) == Visible(m2, n);
  }

  lemma CrashInAppendChunk(m: Model, i: nat, ps: seq<Point>, cut: nat, listing: seq<Name>)
    requires Inv(m) && TearOk(m) && Lists(listing, m.dirs) && i < |m.series|
    requires |m.series[i].buffer| + |ps| <= BLOCK_MAX_POINTS
    requires cut <= |LogBytes(m.pending + BatchEntries(m.series[i].name, ps))|
    ensures var w := Written(m, m.pending + BatchEntries(m.series[i].name, ps), cut);
            && (m.torn == [] ==> Legible(w))
            && Within(m, Push(WalAppendBatch(m, m.series[i].name, ps), i, ps), Crash(w, listing))
  {
    hide Inv, Records, Written, LogBytes, Crash, Legible, WalAppendBatch, Logged, BatchEntries;
    var name := m.series[i].name;
    BatchRecorded(m, i, ps);
    CrashInAppend(m, i, BatchEntries(name, ps), ps, cut, listing);
    SameSight(m, Appended(m, i, BatchEntries(name, ps), ps), Push(WalAppendBatch(m, name, ps), i, ps),
              Crash(Written(m, m.pending + BatchEntries(name, ps), cut), listing)) by {
      LoggedKeeps(m, WalAppendBatch(m, name, ps), BatchEntries(name, ps));
    }
  }

  /** A single record is logged as a whole: a crash on the way shows all of its points or none. */
  lemma RecordIsWhole(m: Model, i: nat, e: Entry, ps: seq<Point>, cut: nat, listing: seq<Name>)
    requires Inv(m) && TearOk(m) && Lists(listing, m.dirs) && i < |m.series|
    requires Records(m, i, [e], ps) && |m.series[i].buffer| + |ps| <= BLOCK_MAX_POINTS
    requires cut <= |LogBytes(m.pending + [e])|
    ensures var m' := Crash(Written(m, m.pending + [e], cut), listing);
            || (forall n: Name :: Visible(m', n) <= Visible(m, n))
            || (forall n: Name :: Visible(m', n) == Visible(m, n) + if n == m.series[i].name then ps else [])
  {
    hide Inv, Records, Written, LogBytes, Recoverable, Unreachable, Opened, Legible, Lists, Push, Crash, Appended,
         SameShape, Visible;
    var m2, w := Appended(m, i, [e], ps), Written(m, m.pending + [e], cut);
    AppendedOk(m, i, [e], ps);
    CrashUnfolds(w, listing);
    CrashInAppend(m, i, [e], ps, cut, listing);
    RecordReached(m, m2, e, cut, listing);
    if Recoverable(w) <= Journal(m) {
      NothingNew(m, w, Crash(w, listing));
    } else {
      AllNew(m2, w, Crash(w, listing));
    }
  }

  lemma RecordReached(m: Model, m2: Model, e: Entry, cut: nat, listing: seq<Name>)
    requires Inv(m) && Inv(m2) && TearOk(m) && Lists(listing, m.dirs) && Ahead(m, m2, m.pending + [e])
    requires cut <= |LogBytes(m.pending + [e])|
    ensures var w := Written(m, m.pending + [e], cut);
            w.dirs == m.dirs == m2.dirs && (Recoverable(w) <= Journal(m) || Recoverable(w) == Journal(m2))
  {
    hide Inv, Written, LogBytes, Recoverable, Unreachable, Opened, Legible, Lists, Crash;
    var w := Written(m, m.pending + [e], cut);
    WrittenDirs(m, m.pending + [e], cut);
    assert Journal(m2) == Journal(m) + [e];
    if m.torn == [] {
      TornCrashRecovers(m, m2, m.pending + [e], cut, listing);
      if |Recoverable(w)| == |Journal(m2)| {
        assert Recoverable(w) == Journal(m2);
      } else {
        assert Journal(m2)[..|Recoverable(w)|] == Journal(m)[..|Recoverable(w)|];
      }
    } else {
      WrittenBehind(m, m.pending + [e], cut);
      RecoverablePrefix(m);
    }
  }

  lemma WrittenDirs(m: Model, es: seq<Entry>, cut: nat)
    ensures Written(m, es, cut).dirs == m.dirs
  {
    hide LogBytes, WholeEntries, Unreachable;
  }

  lemma NothingNew(m: Model, w: Model, m': Model)
    requires Inv(m) && w.dirs == m.dirs && Recoverable(w) <= Journal(m)
    requires Opened(m', m.dirs, Recoverable(w), Unreachable(w))
    ensures forall n: Name :: Visible(m', n) <= Visible(m, n)
  {
    hide RegistryOk, BufferOf, PointsFor, StoredPoints, AllWellFormed, Recoverable, Unreachable;
    JournalPrefixOpens(m, Recoverable(w));
    forall n: Name
      ensures Visible(m', n) <= Visible(m, n)
    {
      PrefixBehind(StoredPoints(DirOf(m.dirs, n)), PointsFor(Recoverable(w), n), BufferOf(m.series, n));
    }
  }

  lemma AllNew(m2: Model, w: Model, m': Model)
    requires Inv(m2) && w.dirs == m2.dirs && Recoverable(w) == Journal(m2)
    requires Opened(m', m2.dirs, Recoverable(w), Unreachable(w))
    ensures forall n: Name :: Visible(m', n) == Visible(m2, n)
  {
    hide RegistryOk, BufferOf, PointsFor, StoredPoints, AllWellFormed, Recoverable, Unreachable;
    forall n: Name
      ensures Visible(m', n) == Visible(m2, n)
    {
      MirrorAt(m2, n);
    }
  }

  /** A round of a batch that fits in one record is logged all or nothing. */
  lemma RoundIsWhole(m: Model, i: nat, ps: seq<Point>, cut: nat, listing: seq<Name>)
    requires Inv(m) && TearOk(m) && Lists(listing, m.dirs) && i < |m.series|
    requires 1 <= |ps| <= WAL_MAX_BATCH_POINTS && |m.series[i].buffer| + |ps| <= BLOCK_MAX_POINTS
    requires cut <= |LogBytes(m.pending + BatchEntries(m.series[i].name, ps))|
    ensures var m' := Crash(Written(m, m.pending + BatchEntries(m.series[i].name, ps), cut), listing);
            || (forall n: Name :: Visible(m', n) <= Visible(m, n))
            || (forall n: Name :: Visible(m', n) == Visible(m, n) + if n == m.series[i].name then ps else [])
  {
    hide Inv, Records, Written, LogBytes, Lists, Crash, BatchEntries, Visible;
    BatchRecorded(m, i, ps);
    BatchEntriesFull(m.series[i].name, ps);
    RecordIsWhole(m, i, BatchV3(m.series[i].name, ps), ps, cut, listing);
  }

  lemma AheadWellFormed(m: Model, m2: Model, es: seq<Entry>)
    requires Inv(m2) && Ahead(m, m2, es)
    ensures AllWellFormed(es)
  {
    hide RegistryOk, PointsFor, BufferOf, Entry.WellFormed;
    assert forall k :: 0 <= k < |es| ==> es[k] == Journal(m2)[|m.log| + k];
  }

  /** What a cut leaves behind the whole records is part of a record. */
  lemma CutSplits(es: seq<Entry>, cut: nat)
    requires AllWellFormed(es) && cut <= |LogBytes(es)|
    ensures var k := WholeEntries(es, cut);
            && |LogBytes(es[..k])| <= cut
            && var rest := LogBytes(es)[..cut][|LogBytes(es[..k])|..];
               && LogBytes(es)[..cut] == LogBytes(es[..k]) + rest
               && (rest != [] ==> ParseLog(rest) == Replay([], Torn))
  {
    hide LogBytes, ParseLog, WholeEntries, Entry.WellFormed;
    var k := WholeEntries(es, cut);
    WholeBytes(es, cut);
    LogBytesSize(es);
    LogBytesSize(es[..k]);
    TornTail(es, cut);
    assert es == es[..k] + es[k..];
    LogBytesConcat(es[..k], es[k..]);
    var head, rest := LogBytes(es[..k]), LogBytes(es)[..cut][|LogBytes(es[..k])|..];
    assert LogBytes(es)[..cut] == head + rest;
    ParseAfter(es[..k], rest);
    NothingParsed(es[..k], ParseLog(rest).entries);
  }

  lemma NothingParsed(a: seq<Entry>, b: seq<Entry>)
    ensures a + b == a ==> b == []
  {
    assert |a + b| == |a| + |b|;
  }

  /** The bytes of the log file after such a crash, and that an intact log always opens. */
  lemma WrittenLegible(m: Model, es: seq<Entry>, cut: nat)
    requires AllWellFormed(es) && cut <= |LogBytes(es)| && TearOk(m) && m.torn == []
    ensures var w := Written(m, es, cut);
            && TearOk(w) && Legible(w) && Recoverable(w) == m.log + es[..WholeEntries(es, cut)]
            && w.dirs == m.dirs && WalBytes(w) == WalBytes(m) + LogBytes(es)[..cut]
  {
    hide LogBytes, ParseLog, WholeEntries, Entry.WellFormed, WalBytes, Recoverable, Unreachable;
    var w, k := Written(m, es, cut), WholeEntries(es, cut);
    CutSplits(es, cut);
    WholeFile(m);
    LogBytesConcat(m.log, es[..k]);
    Associative(LogBytes(m.log), LogBytes(es[..k]), w.torn);
    if w.torn == [] {
      WholeFile(w);
      assert LogBytes(w.log) + [] == LogBytes(w.log);
    } else {
      TornFile(w);
    }
  }

  /** Behind a torn end nothing can be reached, but the bytes are written all the same. */
  lemma WrittenBehind(m: Model, es: seq<Entry>, cut: nat)
    requires cut <= |LogBytes(es)| && TearOk(m) && m.torn != []
    ensures var w := Written(m, es, cut);
            && TearOk(w) && w.torn != [] && Recoverable(w) == Recoverable(m) && w.dirs == m.dirs
            && Unreachable(w) == Unreachable(m) + LogBytes(es)[..cut]
            && WalBytes(w) == WalBytes(m) + LogBytes(es)[..cut]
  {
    hide LogBytes;
    var w := Written(m, es, cut);
    TornFile(w);
    assert w.log[..w.kept] == w.log;
    Associative(LogBytes(m.log[..m.kept]), m.torn, LogBytes(m.log[m.kept..]));
    Associative(LogBytes(m.log[..m.kept]), Unreachable(m), LogBytes(es)[..cut]);
  }

  /** Blocks have been written for some series but the log has not been truncated yet. */
  ghost predicate BeforeTruncate(m: Model, w: Model) {
    && RegistryOk(w) && SameShape(m, w) && SameVisible(m, w)
    && w.pending == [] && Journal(w) == Journal(m) && w.torn == m.torn && w.kept == m.kept
    && forall n: Name :: BufferOf(w.series, n) == BufferOf(m.series, n) || BufferOf(w.series, n) == []
  }

  lemma CrashBeforeTruncate(m: Model, w: Model, listing: seq<Name>)
    requires Inv(m) && BeforeTruncate(m, w) && Lists(listing, m.dirs) && TearOk(m)
    ensures TearOk(w)
    ensures var m' := Crash(w, listing);
            && Opened(m', w.dirs, Recoverable(w), Unreachable(w))
            && (forall n: Name :: Visible(m', n) == StoredPoints(DirOf(w.dirs, n)) + PointsFor(Recoverable(w), n))
            && (m.torn == [] ==>
                  forall n: Name :: Visible(m', n) ==
                    Visible(m, n) + if BufferOf(w.series, n) == [] then BufferOf(m.series, n) else [])
  {
    hide RegistryOk, BufferOf, Open, PointsFor, StoredPoints, FilesOk, Recoverable, Unreachable;
    RegistryFiles(w);
    RegistryFiles(m);
    assert w.log == w.log + [] == Journal(m);
    RecoverablePrefix(w);
    JournalPrefixOpens(m, Recoverable(w));
    assert Openable(w.dirs, Recoverable(w));
    assert Lists(listing, w.dirs);
    OpenOk(w.dirs, Recoverable(w), Unreachable(w), listing);
    hide Openable, Lists, Inv;
    var m' := Crash(w, listing);
    if m.torn == [] {
      WholeFile(w);
      forall n: Name
        ensures Visible(m', n) == Visible(m, n) + if BufferOf(w.series, n) == [] then BufferOf(m.series, n) else []
      {
        Repeated(m, w, n);
      }
    }
  }

  /** The log still holds the points of the blocks that have been written. */
  lemma Repeated(m: Model, w: Model, n: Name)
    requires Inv(m) && BeforeTruncate(m, w)
    ensures StoredPoints(DirOf(w.dirs, n)) + PointsFor(w.log, n)
            == Visible(m, n) + if BufferOf(w.series, n) == [] then BufferOf(m.series, n) else []
  {
    hide RegistryOk, BufferOf, PointsFor, StoredPoints, Inv;
    var stored := StoredPoints(DirOf(w.dirs, n));
    assert w.log == w.log + [] == Journal(m);
    assert PointsFor(w.log, n) == BufferOf(m.series, n) by {
      MirrorAt(m, n);
    }
    assert Visible(m, n) == Visible(w, n) == stored + BufferOf(w.series, n);
    assert stored + [] == stored && Visible(m, n) + [] == Visible(m, n);
  }

  lemma MirrorAt(m: Model, n: Name)
    requires Inv(m)
    ensures PointsFor(Journal(m), n) == BufferOf(m.series, n)
  {
    hide RegistryOk;
  }

  /**
   * At-least-once. A crash inside a flush, after the block was appended and before the log is truncated, loses no
   * accepted point in any durability mode; the flushed series sees one extra copy of the block just written. With a
   * torn log the flushed series still loses nothing, and sees of the extra copy what the log holds in front of the
   * tear.
   */
  lemma CrashInFlush(m: Model, i: nat, listing: seq<Name>)
    requires Inv(m) && TearOk(m) && i < |m.series| && Room(m, i) && m.series[i].buffer != [] && Lists(listing, m.dirs)
    ensures var w, name := WriteBlock(m, i), m.series[i].name;
            var m' := Crash(w, listing);
            && Inv(m')
            && Visible(m', name) == Visible(m, name) + PointsFor(Recoverable(w), name)
            && (m.torn == [] ==>
                  forall n: Name :: Visible(m', n) == Visible(m, n) + if n == name then m.series[i].buffer else [])
  {
    hide RegistryOk, Open, WriteBlock, SameVisible, SeriesOk, Lists, Recoverable, StoredPoints, PointsFor;
    WriteBlockOk(m, i);
    ReplaceSeries(m, WriteBlock(m, i), i);
    RegistryAt(m, i);
    hide Replaced, BufferOf, Mirror;
    CrashBeforeTruncate(m, WriteBlock(m, i), listing);
    FlushedPart(m, WriteBlock(m, i), m.series[i].name);
    hide Inv;
  }

  lemma FlushedPart(m: Model, w: Model, name: Name)
    requires SameVisible(m, w) && BufferOf(w.series, name) == []
    ensures StoredPoints(DirOf(w.dirs, name)) == Visible(m, name)
  {
    hide StoredPoints, BufferOf;
    assert StoredPoints(DirOf(w.dirs, name)) + [] == StoredPoints(DirOf(w.dirs, name));
    assert Visible(w, name) == Visible(m, name);
  }

  /** The same inside flush-all, for the series that have been written already. */
  lemma CrashInFlushAll(m: Model, k: nat, listing: seq<Name>)
    requires Inv(m) && TearOk(m) && AllRoom(m) && k <= |m.series| && Lists(listing, m.dirs)
    requires m.pending == [] || exists j :: 0 <= j < k && m.series[j].buffer != []
    ensures var w := WriteBlocks(m, k);
            var m' := Crash(w, listing);
            && Inv(m')
            && (forall n: Name :: Find(m.series, n) < k ==>
                  Visible(m', n) == Visible(m, n) + PointsFor(Recoverable(w), n))
            && (m.torn == [] ==>
                  forall n: Name :: Visible(m', n) ==
                    Visible(m, n) + if Find(m.series, n) < k then BufferOf(m.series, n) else [])
  {
    hide RegistryOk, Open, WriteBlocks, SameVisible, Lists, Find, Recoverable, StoredPoints, PointsFor;
    WriteBlocksOk(m, k);
    var w := WriteBlocks(m, k);
    forall n: Name
      ensures BufferOf(w.series, n) == if Find(m.series, n) < k then [] else BufferOf(m.series, n)
    {
      FindSameNames(m.series, w.series, n);
    }
    hide BufferOf, Mirror;
    CrashBeforeTruncate(m, w, listing);
    hide Inv;
    forall n: Name | Find(m.series, n) < k
      ensures Visible(Crash(w, listing), n) == Visible(m, n) + PointsFor(Recoverable(w), n)
    {
      FlushedPart(m, w, n);
    }
  }

  /** Closing and opening again keeps the invariant, and without a quota changes no one's view. */
  lemma ReopenOk(m: Model, listing: seq<Name>)
    requires Inv(m) && AllRoom(m) && Lists(listing, m.dirs)
    ensures Inv(Reopen(m, listing)) && Reopen(m, listing).dirs.Keys == m.dirs.Keys
    ensures m.quota == 0 ==> SameVisible(m, Reopen(m, listing))
  {
    hide Inv, Visible, FlushAll, Open, PointsFor, BufferOf;
    FlushAllOk(m);
    var closed := FlushAll(m).0;
    CrashAfterClose(closed, listing);
    if m.quota == 0 {
      VisibleTransitive(m, closed, Reopen(m, listing));
    }
  }

  lemma CrashAfterClose(m: Model, listing: seq<Name>)
    requires Inv(m) && Lists(listing, m.dirs) && m.log == [] && m.pending == [] && m.torn == [] && m.kept == 0
    ensures Inv(Crash(m, listing)) && SameVisible(m, Crash(m, listing))
    ensures Crash(m, listing) == Open(m.dirs, m.log, [], listing)
  {
    hide RegistryOk, Open, StoredPoints;
    CrashRecovers(m, listing);
    forall n: Name
      ensures Visible(Crash(m, listing), n) == Visible(m, n)
    {
      MirrorAt(m, n);
      assert Journal(m) == m.log;
    }
    hide Crash, BufferOf, PointsFor;
  }

  /** Retention is final: after it, no crash brings a deleted point of the series back, in any durability mode. */
  lemma FlushedSurvivesCrash(m: Model, name: Name, listing: seq<Name>)
    requires Inv(m) && TearOk(m) && Lists(listing, m.dirs) && BufferOf(m.series, name) == []
    ensures Visible(Crash(m, listing), name) == Visible(m, name)
  {
    hide RegistryOk, Open, StoredPoints, BufferOf;
    CrashRecovers(m, listing);
    hide Crash, PointsFor;
  }

  /**
   * The index kept by a flush equals the one rebuilt from the directory exactly when the block's segment id still
   * has at most six digits; a later file name is written but never recognised again.
   */
  lemma RebuildAgreesUpToSixDigits(s: Series, dir: Directory)
    requires SeriesOk(s, dir) && ValidBlock(s.buffer)
    ensures var s', dir' := FlushedSeries(s, dir), FlushedDirectory(s, dir);
            Rebuild(s', dir') == s' <==> RotatedId(dir, s.activeId, BlockSize(s.buffer)) <= MAX_SEGMENT_ID
  {
    hide BlockSize, EntryFor, SegmentSize, FilesOk;
    var s', dir' := FlushedSeries(s, dir), FlushedDirectory(s, dir);
    var id := RotatedId(dir, s.activeId, BlockSize(s.buffer));
    if id <= MAX_SEGMENT_ID {
      FlushedOk(s, dir);
      FilesOfSeries(s', dir');
      RebuildOk(s', dir');
    } else {
      UnrecognisedFile(s, dir, id);
      assert |s'.index| == |s.index| + 1;
    }
    hide FlushedSeries, FlushedDirectory;
  }

  lemma FilesOfSeries(s: Series, dir: Directory)
    requires SeriesOk(s, dir)
    ensures FilesOk(dir) && |s.buffer| <= BLOCK_MAX_POINTS
  {}

  lemma UnrecognisedFile(s: Series, dir: Directory, id: nat)
    requires SeriesOk(s, dir) && id > MAX_SEGMENT_ID && ValidBlock(s.buffer)
    ensures var dir' := dir[id := Blocks(dir, id) + [s.buffer]];
            DiscoverIds(dir') == s.segmentIds && IndexOfIds(dir', DiscoverIds(dir')) == s.index
  {
    hide SegmentSize, IndexOfIds;
    var dir' := dir[id := Blocks(dir, id) + [s.buffer]];
    assert id !in dir;
    assert (set x | x in dir' && 1 <= x <= MAX_SEGMENT_ID) == dir.Keys;
    assert forall x :: x in s.segmentIds ==> x in dir;
    hide SortedIds;
    SameFiles(dir, dir', s.segmentIds);
  }
}
