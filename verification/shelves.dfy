/**
 * Whole runs under any quota, file by file (src/core/db_quota.c:162-313). What a user may know of a database is here,
 * for every series, the blocks in each of its segment files and the points in its buffer, and the size of all files.
 */
module Shelves {
  import opened Wire
  import opened Config
  import opened Codec
  import opened Points
  import opened Segments
  import opened WalFormat
  import opened State
  import opened Quota
  import opened Engine
  import opened Invariants
  import opened Retention
  import opened Recovery
  import opened Runs
  import opened Trimming

  // ---------------------------------------------------------------- what is specified

  /** One series: its files, of which the active one may still grow and the others are sealed, and its buffer. */
  datatype Shelf = Shelf(files: Directory, active: nat, buffer: seq<Point>)

  datatype Holdings = Holdings(
    shelves: map<Name, Shelf>, durability: Durability, quota: nat, exceeded: bool, size: nat)

  /** What a reader of the series sees: the files in the order of their ids, then the buffer. */
  ghost function Shown(s: Shelf): seq<Point> {
    StoredPoints(s.files) + s.buffer
  }

  ghost function Display(h: Holdings): View {
    View(map n | n in h.shelves :: Shown(h.shelves[n]), h.durability)
  }

  predicate SameSettings(h: Holdings, h': Holdings) {
    h'.durability == h.durability && h'.quota == h.quota && h'.exceeded == h.exceeded
  }

  /** Equal but for the size of the directory. */
  predicate Alike(h: Holdings, h': Holdings) {
    SameSettings(h, h') && h'.shelves == h.shelves
  }

  // ---------------------------------------------------------------- flushes and cleanups

  /** The buffer has become a block, of the active file while that stays within the size limit, else of a new file. */
  ghost predicate Moved(s: Shelf, s': Shelf) {
    if s.buffer == [] then s' == s else Placed(s.files, s.active, s.buffer, s'.files, s'.active) && s'.buffer == []
  }

  /** The flush of some series as it is without a quota. */
  ghost predicate Settled(h: Holdings, names: set<Name>, h': Holdings) {
    && SameSettings(h, h') && h'.shelves.Keys == h.shelves.Keys
    && forall n :: n in h.shelves ==>
         if n in names then Moved(h.shelves[n], h'.shelves[n]) else h'.shelves[n] == h.shelves[n]
  }

  /** Whole sealed files are missing, and nothing else. */
  ghost predicate Thin(s: Shelf, s': Shelf) {
    && s'.active == s.active && s'.buffer == s.buffer && (s.active in s.files ==> s.active in s'.files)
    && forall id :: id in s'.files ==> id in s.files && s'.files[id] == s.files[id]
  }

  /**
   * A cleanup. A directory within its quota loses nothing. Otherwise sealed files go until it is within its quota, or
   * until no sealed file is left and the quota is reported as exceeded.
   */
  ghost predicate CleanedUp(h: Holdings, st: Status, h': Holdings) {
    && h'.durability == h.durability && h'.quota == h.quota && h'.exceeded == (st == QuotaExceeded)
    && h'.shelves.Keys == h.shelves.Keys
    && if h.quota == 0 || h.size <= h.quota then st == Ok && h'.shelves == h.shelves && h'.size == h.size
       else
         && (st == Ok || st == QuotaExceeded) && (st == Ok <==> h'.size <= h.quota)
         && (forall n :: n in h.shelves ==> Thin(h.shelves[n], h'.shelves[n]))
         && (st == QuotaExceeded ==>
               forall n :: n in h.shelves ==> h'.shelves[n].files.Keys <= {h'.shelves[n].active})
  }

  ghost predicate FlushEffect(h: Holdings, names: set<Name>, st: Status, h': Holdings) {
    exists h1 :: Settled(h, names, h1) && CleanedUp(h1, st, h')
  }

  // ---------------------------------------------------------------- calls

  /** Points go behind the buffer of a series. */
  ghost predicate Pushed(h: Holdings, name: Name, ps: seq<Point>, h': Holdings) {
    && name in h.shelves && SameSettings(h, h') && name in h'.shelves
    && h'.shelves == h.shelves[name := h.shelves[name].(buffer := h.shelves[name].buffer + ps)]
  }

  /** A full buffer is flushed first. */
  ghost predicate RoomMade(h: Holdings, name: Name, st: Status, h': Holdings)
    requires name in h.shelves
  {
    if |h.shelves[name].buffer| >= BLOCK_MAX_POINTS then FlushEffect(h, {name}, st, h') else st == Ok && h' == h
  }

  /** An empty buffer needs no flush. */
  ghost predicate SeriesFlushed(h: Holdings, name: Name, st: Status, h': Holdings)
    requires name in h.shelves
  {
    if h.shelves[name].buffer == [] then st == Ok && h' == h else FlushEffect(h, {name}, st, h')
  }

  /** A batch goes in round by round; a cleanup that fails stops it, and the points of the rounds before stay. */
  ghost predicate Rounds(h: Holdings, name: Name, ps: seq<Point>, st: Status, h': Holdings)
    requires name in h.shelves
    decreases |ps|
  {
    if ps == [] then st == Ok && h' == h
    else
      exists st1, h1 ::
        && RoomMade(h, name, st1, h1)
        && if st1 != Ok then st == st1 && h' == h1
           else exists n: nat, h2 ::
             && 0 < n <= |ps| && Chunked(h1, name, |ps|, n) && Pushed(h1, name, ps[..n], h2)
             && Rounds(h2, name, ps[n..], st, h')
  }

  /** A round takes as many of `len` points as there is room for. */
  ghost predicate Chunked(h: Holdings, name: Name, len: nat, n: nat) {
    name in h.shelves && (n == len || (n < len && |h.shelves[name].buffer| + n == BLOCK_MAX_POINTS))
    && |h.shelves[name].buffer| + n <= BLOCK_MAX_POINTS
  }

  /** The newest remaining file is the active one. */
  predicate Newest(files: Directory, active: nat) {
    if files.Keys == {} then active == 1 else active in files && forall id :: id in files ==> id <= active
  }

  /** Exactly the files with points below the threshold only are gone. */
  ghost predicate ShelfRetired(s: Shelf, t: i64, s': Shelf) {
    && s'.buffer == s.buffer && Newest(s'.files, s'.active)
    && (forall id :: id in s'.files <==> id in s.files && exists p :: p in Flatten(s.files[id]) && p.timestamp >= t)
    && (forall id :: id in s'.files ==> s'.files[id] == s.files[id])
  }

  ghost predicate Retired(h: Holdings, name: Name, t: i64, h': Holdings) {
    && name in h.shelves && name in h'.shelves && SameSettings(h, h')
    && h'.shelves == h.shelves[name := h'.shelves[name]] && ShelfRetired(h.shelves[name], t, h'.shelves[name])
  }

  ghost predicate AppendEffect(h: Holdings, name: Name, p: Point, st: Status, h': Holdings)
    requires name in h.shelves
  {
    exists h1 :: RoomMade(h, name, st, h1) && if st == Ok then Pushed(h1, name, [p], h') else h' == h1
  }

  ghost predicate DeleteEffect(h: Holdings, name: Name, st: Status, h': Holdings) {
    exists h1 ::
      && FlushEffect(h, h.shelves.Keys, st, h1)
      && if st == Ok then Alike(h1.(shelves := h1.shelves - {name}), h') else h' == h1
  }

  ghost predicate RetentionEffect(h: Holdings, name: Name, t: i64, st: Status, h': Holdings)
    requires name in h.shelves
  {
    exists h1 :: SeriesFlushed(h, name, st, h1) && if st == Ok then Retired(h1, name, t, h') else h' == h1
  }

  ghost predicate CloseEffect(h: Holdings, st: Status, h': Holdings) {
    exists h1 ::
      && FlushEffect(h, h.shelves.Keys, st, h1)
      && h'.shelves == h1.shelves && h'.durability == Strict && h'.quota == 0 && !h'.exceeded
  }

  /** A crash leaves the files alone. */
  ghost predicate SameFilesHeld(h: Holdings, h': Holdings) {
    && h'.shelves.Keys == h.shelves.Keys
    && forall n :: n in h.shelves ==>
         h'.shelves[n].files == h.shelves[n].files && h'.shelves[n].active == h.shelves[n].active
  }

  /**
   * The effect and the result of a call, whatever the quota is. While the quota is exceeded every append is refused;
   * otherwise the result is NotFound for a name that is not registered, and QuotaExceeded exactly when a cleanup of
   * this call could not bring the directory within its quota.
   */
  ghost predicate QuotaStep(h: Holdings, log: LogState, op: Op, st: Status, h': Holdings) {
    match op
    case Create(name) =>
      st == Ok && Alike(if name in h.shelves then h else h.(shelves := h.shelves[name := Shelf(map[], 1, [])]), h')
    case Append(name, p) =>
      if h.exceeded then st == QuotaExceeded && h' == h
      else if name !in h.shelves then st == NotFound && h' == h
      else AppendEffect(h, name, p, st, h')
    case AppendMany(name, ps) =>
      if ps == [] then st == Ok && h' == h
      else if h.exceeded then st == QuotaExceeded && h' == h
      else if name !in h.shelves then st == NotFound && h' == h
      else Rounds(h, name, ps, st, h')
    case FlushSeries(name) =>
      if name !in h.shelves then st == NotFound && h' == h
      else SeriesFlushed(h, name, st, h')
    case FlushEverything => FlushEffect(h, h.shelves.Keys, st, h')
    case Configure(d) => st == Ok && Alike(h.(durability := d), h')
    case SetQuota(limit) => st == Ok && h' == h.(quota := limit, exceeded := false)
    case EnforceQuota => FlushEffect(h, {}, st, h')
    case Delete(name) =>
      if name !in h.shelves then st == NotFound && h' == h else DeleteEffect(h, name, st, h')
    case DeleteOld(name, t) =>
      if name !in h.shelves then st == NotFound && h' == h else RetentionEffect(h, name, t, st, h')
    case CloseOpen(_) => CloseEffect(h, st, h')
    case Kill(_) =>
      && st == Ok && h'.quota == 0 && !h'.exceeded
      && SameFilesHeld(h, h') && SpecStep(Display(h), log, op, Display(h'))
    case Tear(_, _, _, _) =>
      && st == Ok && h'.quota == 0 && !h'.exceeded
      && SameFilesHeld(h, h') && SpecStep(Display(h), log, op, Display(h'))
    case Halt(_, _) =>
      st == Ok && h'.quota == 0 && !h'.exceeded && SpecStep(Display(h), log, op, Display(h'))
  }

  ghost predicate QuotaRun(h: Holdings, log: LogState, ops: seq<Op>, results: seq<Status>, h': Holdings)
    requires |results| == |ops|
    decreases |ops|
  {
    if ops == [] then h' == h
    else
      exists h1, log1 ::
        && QuotaStep(h, log, ops[0], results[0], h1) && LogStep(log, ops[0], h1.durability, log1)
        && QuotaRun(h1, log1, ops[1..], results[1..], h')
  }

  /** What the calls of a run return. */
  ghost function Outcomes(m: Model, ops: seq<Op>): (results: seq<Status>)
    ensures |results| == |ops|
    decreases |ops|
  {
    if ops == [] then [] else [Outcome(m, ops[0])] + Outcomes(Step(m, ops[0]), ops[1..])
  }

  // ---------------------------------------------------------------- the holdings of a state

  function ActiveOf(series: seq<Series>, name: Name): nat {
    var i := Find(series, name);
    if i < |series| then series[i].activeId else 1
  }

  ghost function ShelfOf(m: Model, name: Name): Shelf {
    Shelf(DirOf(m.dirs, name), ActiveOf(m.series, name), BufferOf(m.series, name))
  }

  ghost function HoldingsOf(m: Model): Holdings {
    Holdings(map n | n in m.dirs :: ShelfOf(m, n), m.durability, m.quota, m.exceeded, TotalSize(m))
  }

  lemma HoldingsSettings(m: Model)
    ensures var h := HoldingsOf(m);
            h.exceeded == m.exceeded && h.quota == m.quota && h.durability == m.durability && h.size == TotalSize(m)
  {
    hide TotalSize, ShelfOf;
  }

  /** The holdings show readers exactly what the engine shows them. */
  lemma HoldingsShow(m: Model)
    ensures Display(HoldingsOf(m)) == ViewOf(m)
  {
    hide HoldingsOf, ShelfOf, Shown, Visible;
    ShelvesAt(m);
    HoldingsSettings(m);
    forall n | n in m.dirs
      ensures Shown(ShelfOf(m, n)) == Visible(m, n)
    {
      ShelfShows(m, n);
    }
  }

  lemma ShelvesAt(m: Model)
    ensures HoldingsOf(m).shelves == map n | n in m.dirs :: ShelfOf(m, n)
  {
    hide ShelfOf, TotalSize;
  }

  lemma ShelfShows(m: Model, n: Name)
    requires n in m.dirs
    ensures Shown(ShelfOf(m, n)) == Visible(m, n)
  {
    hide StoredPoints, BufferOf, ActiveOf;
  }

  // ---------------------------------------------------------------- cleanups

  lemma EnforceCleans(m: Model)
    requires RegistryOk(m)
    ensures CleanedUp(HoldingsOf(m), Enforce(m).1, HoldingsOf(Enforce(m).0))
  {
    hide Enforce, RegistryOk, TotalSize, Thin, ShelfOf;
    var m', st := Enforce(m).0, Enforce(m).1;
    QuotaIsSafe(m);
    EnforceResult(m);
    if m.quota == 0 || TotalSize(m) <= m.quota {
      SameShelves(m, m');
    } else {
      forall n | n in m.dirs
        ensures Thin(ShelfOf(m, n), ShelfOf(m', n))
        ensures st == QuotaExceeded ==> ShelfOf(m', n).files.Keys <= {ShelfOf(m', n).active}
      {
        ShelfThins(m, n);
      }
    }
  }

  lemma SameShelves(m: Model, m': Model)
    requires m'.dirs == m.dirs && m'.series == m.series
    ensures forall n :: n in m.dirs ==> ShelfOf(m', n) == ShelfOf(m, n)
  {
    hide BufferOf;
  }

  /** The status and the sizes of a cleanup. */
  lemma EnforceResult(m: Model)
    requires RegistryOk(m)
    ensures var (m', st) := Enforce(m);
            && m'.exceeded == (st == QuotaExceeded) && m'.durability == m.durability && m'.quota == m.quota
            && (st == Ok || st == QuotaExceeded)
            && (if m.quota == 0 || TotalSize(m) <= m.quota
                then st == Ok && m'.dirs == m.dirs && m'.series == m.series && TotalSize(m') == TotalSize(m)
                else st == Ok <==> TotalSize(m') <= m.quota)
  {
    hide RegistryOk, SortedCandidates, Doomed, Tracked, TextSize, TreeSize, LogSize, RemoveFiles, RebuildTouched;
    if m.quota != 0 && TotalSize(m) > m.quota {
      QuotaIsGreedy(m);
      hide TotalSize;
    }
  }

  lemma ShelfThins(m: Model, n: Name)
    requires RegistryOk(m) && n in m.dirs && m.quota != 0 && TotalSize(m) > m.quota
    ensures Thin(ShelfOf(m, n), ShelfOf(Enforce(m).0, n))
    ensures Enforce(m).1 == QuotaExceeded ==>
              ShelfOf(Enforce(m).0, n).files.Keys <= {ShelfOf(Enforce(m).0, n).active}
  {
    hide Enforce, RegistryOk, TotalSize, Flatten, Gone;
    var m' := Enforce(m).0;
    var i := Find(m.series, n);
    RegisteredName(m, n);
    QuotaIsSafe(m);
    SameBuffers(m, m');
    FindSameNames(m.series, m'.series, n);
    GoneFiles(m, i);
    if Enforce(m).1 == QuotaExceeded {
      OnlyActiveLeft(m, i);
    }
    hide Find;
  }

  /** When the quota stays exceeded every sealed file is gone. */
  lemma OnlyActiveLeft(m: Model, i: nat)
    requires RegistryOk(m) && i < |m.series| && Enforce(m).1 == QuotaExceeded
    ensures forall id :: id in DirOf(Enforce(m).0.dirs, m.series[i].name) ==> id == m.series[i].activeId
  {
    hide TotalSize, Doomed, SortedCandidates, Tracked, Without, Removed, SegmentMax, SegmentSize;
    var cs := SortedCandidates(m);
    SortedCandidatesExact(m);
    QuotaIsGreedy(m);
    GoneFiles(m, i);
    assert cs[..|cs|] == cs;
    AllGone(m, i, cs);
  }

  lemma AllGone(m: Model, i: nat, cs: seq<Candidate>)
    requires RegistryOk(m) && i < |m.series| && forall c :: IsCandidate(m, c) ==> c in cs
    ensures forall id :: id in DirOf(m.dirs, m.series[i].name) && id != m.series[i].activeId ==> id in Removed(cs, i)
  {
    hide RegistryOk, IsCandidate;
    RegistryAt(m, i);
    forall id | id in DirOf(m.dirs, m.series[i].name) && id != m.series[i].activeId
      ensures id in Removed(cs, i)
    {
      var c := SealedCandidate(m, i, id);
      assert c in cs;
    }
  }

  lemma SealedCandidate(m: Model, i: nat, id: nat) returns (c: Candidate)
    requires RegistryOk(m) && i < |m.series| && id in DirOf(m.dirs, m.series[i].name) && id != m.series[i].activeId
    ensures IsCandidate(m, c) && c.seriesIndex == i && c.segmentId == id
  {
    hide RegistryOk, SegmentMax, SegmentSize, SeriesOk;
    RegistryAt(m, i);
    var dir := m.dirs[m.series[i].name];
    TwoFiles(m.series[i], dir, id);
    NonEmptySegment(dir[id]);
    c := Candidate(i, id, SegmentMax(dir[id]), SegmentSize(dir[id]));
  }

  lemma TwoFiles(s: Series, dir: Directory, id: nat)
    requires SeriesOk(s, dir) && id in dir && id != s.activeId
    ensures |s.segmentIds| > 1 && dir[id] != []
  {
    hide SegmentSize, IndexOfIds;
    assert id in s.segmentIds;
  }

  /** Losing sealed files, a reader loses their points and nothing else; the order of the rest is kept. */
  lemma ThinShows(s: Shelf, s': Shelf)
    requires Thin(s, s')
    ensures Thinned(Shown(s), Shown(s'), TWO63)
  {
    hide Thinned, PointsOfIds, Keep, SortedIds;
    var gone := s.files.Keys - s'.files.Keys;
    assert s'.files == s.files - gone;
    StoredWithout(s.files, gone);
    KeptPoints(s.files, SortedIds(s.files.Keys), gone, TWO63);
    ThinnedSame(s.buffer, TWO63);
    ThinnedConcat(StoredPoints(s.files), StoredPoints(s'.files), s.buffer, s.buffer, TWO63);
  }

  // ---------------------------------------------------------------- flushes

  /** Everything outside one series is held as before. */
  lemma OthersHeld(m: Model, m': Model, i: nat)
    requires RegistryOk(m) && i < |m.series| && Replaced(m, m', i)
    ensures ActiveOf(m'.series, m.series[i].name) == m'.series[i].activeId
    ensures BufferOf(m'.series, m.series[i].name) == m'.series[i].buffer
    ensures forall n :: n in m.dirs && n != m.series[i].name ==> ShelfOf(m', n) == ShelfOf(m, n)
  {
    hide SeriesOk, Find, RegistryOk;
    ReplacedNames(m, m', i);
    RegistryAt(m, i);
    forall n | n in m.dirs && n != m.series[i].name
      ensures ShelfOf(m', n) == ShelfOf(m, n)
    {
      OtherRecord(m, m', i, n);
    }
  }

  lemma OtherRecord(m: Model, m': Model, i: nat, n: Name)
    requires i < |m.series| == |m'.series| && m'.series == m.series[i := m'.series[i]]
    requires Find(m'.series, n) == Find(m.series, n) && n != m.series[i].name
    ensures ActiveOf(m'.series, n) == ActiveOf(m.series, n) && BufferOf(m'.series, n) == BufferOf(m.series, n)
  {
    var k := Find(m.series, n);
    assert k < |m.series| ==> k != i;
  }

  lemma WriteSettles(m: Model, i: nat)
    requires RegistryOk(m) && i < |m.series| && Room(m, i)
    ensures Settled(HoldingsOf(m), {m.series[i].name}, HoldingsOf(WriteBlock(m, i)))
  {
    hide RegistryOk, WriteBlock, TotalSize, BufferOf, ActiveOf, Replaced, SeriesOk, Placed, SameVisible;
    var m', name := WriteBlock(m, i), m.series[i].name;
    RegistryAt(m, i);
    BufferBound(m.series[i], m.dirs[name]);
    WriteBlockOk(m, i);
    if m.series[i].buffer != [] {
      OthersHeld(m, m', i);
      SelfHeld(m, i);
      assert Moved(ShelfOf(m, name), ShelfOf(m', name));
    } else {
      SelfHeld(m, i);
    }
  }

  lemma SelfHeld(m: Model, i: nat)
    requires RegistryOk(m) && i < |m.series|
    ensures ActiveOf(m.series, m.series[i].name) == m.series[i].activeId
    ensures BufferOf(m.series, m.series[i].name) == m.series[i].buffer
  {
    hide SeriesOk;
    FindAt(m.series, i);
  }

  lemma TruncateAlike(w: Model)
    ensures Alike(HoldingsOf(w), HoldingsOf(TruncateLog(w)))
  {
    hide TotalSize, BufferEntries;
    SameShelves(w, TruncateLog(w));
    hide ShelfOf;
  }

  lemma SettledAlike(h: Holdings, names: set<Name>, h1: Holdings, h2: Holdings)
    requires Settled(h, names, h1) && Alike(h1, h2)
    ensures Settled(h, names, h2)
  {
    hide Moved;
  }

  lemma FlushHolds(m: Model, i: nat)
    requires Inv(m) && i < |m.series| && Room(m, i) && m.series[i].buffer != []
    ensures FlushEffect(HoldingsOf(m), {m.series[i].name}, Flush(m, i).1, HoldingsOf(Flush(m, i).0))
  {
    hide RegistryOk, Mirror, WriteBlock, Enforce, TruncateLog, Settled, CleanedUp, HoldingsOf, Replaced, Alike;
    var w := WriteBlock(m, i);
    var t := TruncateLog(w);
    WriteBlockOk(m, i);
    WriteSettles(m, i);
    TruncateAlike(w);
    SettledAlike(HoldingsOf(m), {m.series[i].name}, HoldingsOf(w), HoldingsOf(t));
    TruncateRegistry(w);
    EnforceCleans(t);
  }

  lemma TruncateRegistry(w: Model)
    requires RegistryOk(w)
    ensures RegistryOk(TruncateLog(w))
  {
    RegistryIgnoresLog(w, TruncateLog(w));
  }

  /** The names of the first `n` series. */
  ghost function FirstNames(m: Model, n: nat): set<Name> {
    set x | x in m.dirs && Find(m.series, x) < n
  }

  lemma {:induction false} WritesSettle(m: Model, n: nat)
    requires RegistryOk(m) && AllRoom(m) && n <= |m.series|
    ensures Settled(HoldingsOf(m), FirstNames(m, n), HoldingsOf(WriteBlocks(m, n)))
  {
    hide RegistryOk, WriteBlock, HoldingsOf, Settled, Find, FirstNames, SameVisible, SameShape;
    if n > 0 {
      WritesSettle(m, n - 1);
      WriteBlocksOk(m, n - 1);
      var w := WriteBlocks(m, n - 1);
      assert Room(m, n - 1) && w.series[n - 1] == m.series[n - 1];
      WriteSettles(w, n - 1);
      OneMoreName(m, n - 1);
      SettledMore(HoldingsOf(m), FirstNames(m, n - 1), HoldingsOf(w), m.series[n - 1].name,
                  HoldingsOf(WriteBlock(w, n - 1)));
    } else {
      NothingSettled(m);
    }
  }

  lemma NothingSettled(m: Model)
    ensures Settled(HoldingsOf(m), FirstNames(m, 0), HoldingsOf(m))
  {
    hide HoldingsOf;
    assert FirstNames(m, 0) == {};
  }

  lemma SettledMore(h: Holdings, names: set<Name>, h1: Holdings, name: Name, h2: Holdings)
    requires Settled(h, names, h1) && name !in names && Settled(h1, {name}, h2)
    ensures Settled(h, names + {name}, h2)
  {
    hide Moved;
  }

  lemma HoldingsKeys(m: Model)
    ensures HoldingsOf(m).shelves.Keys == m.dirs.Keys
  {
    hide TotalSize, ShelfOf;
  }

  lemma OneMoreName(m: Model, n: nat)
    requires RegistryOk(m) && n < |m.series|
    ensures FirstNames(m, n + 1) == FirstNames(m, n) + {m.series[n].name}
    ensures m.series[n].name !in FirstNames(m, n)
  {
    hide SeriesOk;
    FindAt(m.series, n);
  }

  lemma AllNames(m: Model)
    requires RegistryOk(m)
    ensures FirstNames(m, |m.series|) == m.dirs.Keys
  {
    hide SeriesOk;
  }

  lemma FlushAllHolds(m: Model)
    requires Inv(m) && AllRoom(m)
    ensures FlushEffect(HoldingsOf(m), HoldingsOf(m).shelves.Keys, FlushAll(m).1, HoldingsOf(FlushAll(m).0))
  {
    hide RegistryOk, Mirror, WriteBlocks, Enforce, TruncateLog, Settled, CleanedUp, HoldingsOf, Alike, FirstNames;
    var w := WriteBlocks(m, |m.series|);
    var t := TruncateLog(w);
    WriteBlocksOk(m, |m.series|);
    WritesSettle(m, |m.series|);
    AllNames(m);
    HoldingsKeys(m);
    TruncateAlike(w);
    SettledAlike(HoldingsOf(m), m.dirs.Keys, HoldingsOf(w), HoldingsOf(t));
    TruncateRegistry(w);
    EnforceCleans(t);
  }

  lemma EnforceHolds(m: Model)
    requires Inv(m)
    ensures FlushEffect(HoldingsOf(m), {}, Enforce(WalFlush(m)).1, HoldingsOf(Enforce(WalFlush(m)).0))
  {
    hide RegistryOk, Mirror, Enforce, CleanedUp, ShelfOf, TotalSize;
    WalFlushOk(m);
    SameShelves(m, WalFlush(m));
    assert Settled(HoldingsOf(m), {}, HoldingsOf(WalFlush(m)));
    EnforceCleans(WalFlush(m));
    hide HoldingsOf, Settled, WalFlush;
  }

  lemma RoomHolds(m: Model, i: nat)
    requires Inv(m) && i < |m.series| && (|m.series[i].buffer| == BLOCK_MAX_POINTS ==> Room(m, i))
    ensures m.series[i].name in HoldingsOf(m).shelves
    ensures RoomMade(HoldingsOf(m), m.series[i].name, MakeRoom(m, i).1, HoldingsOf(MakeRoom(m, i).0))
  {
    hide RegistryOk, Mirror, Flush, FlushEffect, HoldingsOf;
    BufferAtMost(m, i);
    ShelfBuffer(m, i);
    if |m.series[i].buffer| == BLOCK_MAX_POINTS {
      FlushHolds(m, i);
    }
  }

  // ---------------------------------------------------------------- appends

  lemma PushHolds(m: Model, m1: Model, es: seq<Entry>, i: nat, ps: seq<Point>)
    requires RegistryOk(m) && i < |m.series| && Logged(m, m1, es) && |m.series[i].buffer| + |ps| <= BLOCK_MAX_POINTS
    ensures Pushed(HoldingsOf(m), m.series[i].name, ps, HoldingsOf(Push(m1, i, ps)))
  {
    hide RegistryOk, TotalSize, BufferOf, ActiveOf, SeriesOk;
    RegistryAt(m, i);
    PushReplaces(m, m1, i, ps);
    OthersHeld(m, Push(m1, i, ps), i);
    SelfHeld(m, i);
    hide Replaced;
  }

  lemma AppendHolds(m: Model, i: nat, p: Point)
    requires Inv(m) && i < |m.series| && (|m.series[i].buffer| == BLOCK_MAX_POINTS ==> Room(m, i))
    ensures m.series[i].name in HoldingsOf(m).shelves
    ensures AppendEffect(HoldingsOf(m), m.series[i].name, p, AppendPoint(m, i, p).1, HoldingsOf(AppendPoint(m, i, p).0))
  {
    hide Inv, MakeRoom, WalAppendPoint, Push, RoomMade, HoldingsOf, Pushed, SameShape;
    RoomHolds(m, i);
    MakeRoomOk(m, i);
    var (m1, st) := MakeRoom(m, i);
    ShapeNames(m, m1, i);
    if st == Ok {
      InvRegistry(m1);
      PushHolds(m1, WalAppendPoint(m1, m1.series[i].name, p), [PointV3(m1.series[i].name, p)], i, [p]);
    }
  }

  lemma ShapeBetween(m: Model, m1: Model, m2: Model)
    requires SameShape(m, m1) && SameShape(m, m2)
    ensures SameShape(m1, m2)
  {}

  lemma ShapeNames(m: Model, m1: Model, i: nat)
    requires SameShape(m, m1) && i < |m.series|
    ensures i < |m1.series| && m1.series[i].name == m.series[i].name
  {}

  lemma RoundOnce(h: Holdings, name: Name, ps: seq<Point>, h1: Holdings, n: nat, h2: Holdings, st: Status, h': Holdings)
    requires name in h.shelves && 0 < n <= |ps| && RoomMade(h, name, Ok, h1) && Pushed(h1, name, ps[..n], h2)
    requires Chunked(h1, name, |ps|, n) && Rounds(h2, name, ps[n..], st, h')
    ensures Rounds(h, name, ps, st, h')
  {
    hide RoomMade, Chunked;
  }

  lemma RoundRefused(h: Holdings, name: Name, ps: seq<Point>, st: Status, h': Holdings)
    requires name in h.shelves && ps != [] && st != Ok && RoomMade(h, name, st, h')
    ensures Rounds(h, name, ps, st, h')
  {
    hide RoomMade, Chunked;
  }

  lemma {:induction false} BatchHolds(m: Model, i: nat, ps: seq<Point>)
    requires Inv(m) && i < |m.series| && Budget(m, i, |ps|)
    ensures m.series[i].name in HoldingsOf(m).shelves
    ensures var (m', st) := AppendBatch(m, i, ps); Rounds(HoldingsOf(m), m.series[i].name, ps, st, HoldingsOf(m'))
    decreases |ps|
  {
    hide Inv, MakeRoom, WalAppendBatch, Budget, Push, Chunk, RoomMade, Pushed, HoldingsOf, SameShape, Rounds, Extended,
         SameVisible, BatchEntries, Chunked;
    ShelfBuffer(m, i);
    if ps == [] {
      NoRounds(HoldingsOf(m), m.series[i].name);
    } else {
      BatchRound(m, i, ps);
      BatchRoom(m, i, ps);
      RoomHolds(m, i);
      var (m1, st) := MakeRoom(m, i);
      var name := m.series[i].name;
      ShapeNames(m, m1, i);
      if st == Ok {
        var n := Chunk(m1, i, |ps|);
        var logged := WalAppendBatch(m1, name, ps[..n]);
        var m2 := Push(logged, i, ps[..n]);
        ShapeNames(m, m2, i);
        InvRegistry(m1);
        ChunkFits(m1, i, |ps|);
        ChunkTaken(m1, i, |ps|);
        PushHolds(m1, logged, BatchEntries(name, ps[..n]), i, ps[..n]);
        BatchHolds(m2, i, ps[n..]);
        var (m', st') := AppendBatch(m2, i, ps[n..]);
        RoundOnce(HoldingsOf(m), name, ps, HoldingsOf(m1), n, HoldingsOf(m2), st', HoldingsOf(m'));
      } else {
        RoundRefused(HoldingsOf(m), name, ps, st, HoldingsOf(m1));
      }
    }
  }

  lemma ChunkTaken(m: Model, i: nat, len: nat)
    requires Inv(m) && i < |m.series|
    ensures Chunked(HoldingsOf(m), m.series[i].name, len, Chunk(m, i, len))
  {
    hide Inv, HoldingsOf;
    ShelfBuffer(m, i);
    InvRegistry(m);
    BufferAtMost(m, i);
  }

  lemma NoRounds(h: Holdings, name: Name)
    requires name in h.shelves
    ensures Rounds(h, name, [], Ok, h)
  {}

  lemma ChunkFits(m: Model, i: nat, n: nat)
    requires i < |m.series| && Chunk(m, i, n) > 0
    ensures |m.series[i].buffer| + Chunk(m, i, n) <= BLOCK_MAX_POINTS
  {}

  lemma BatchRoom(m: Model, i: nat, ps: seq<Point>)
    requires Inv(m) && i < |m.series| && ps != [] && Budget(m, i, |ps|)
    ensures |m.series[i].buffer| == BLOCK_MAX_POINTS ==> Room(m, i)
  {
    hide RegistryOk, Mirror;
    BufferAtMost(m, i);
    BudgetArithmetic(m.series[i].activeId, m.series[i].activeId, |m.series[i].buffer|, |ps|);
  }

  // ---------------------------------------------------------------- create, delete, retention

  lemma CreateHolds(m: Model, name: Name)
    requires Inv(m)
    ensures var h, h' := HoldingsOf(m), HoldingsOf(AddSeries(m, name));
            Alike(if name in h.shelves then h else h.(shelves := h.shelves[name := Shelf(map[], 1, [])]), h')
  {
    hide RegistryOk, Mirror, HoldingsOf, AddSeries, Find, Alike, Visible;
    RegisteredName(m, name);
    HoldingsKeys(m);
    AddSeriesOk(m, name);
    if name !in m.dirs {
      var m' := AddSeries(m, name);
      forall n | n in m'.dirs
        ensures ShelfOf(m', n) == if n == name then Shelf(map[], 1, []) else ShelfOf(m, n)
      {
        AddedShelf(m, name, n);
      }
      OneMoreShelf(m, m', name);
    } else {
      SelfAlike(HoldingsOf(m));
    }
  }

  lemma SelfAlike(h: Holdings)
    ensures Alike(h, h)
  {}

  lemma OneMoreShelf(m: Model, m': Model, name: Name)
    requires name !in m.dirs && m'.dirs.Keys == m.dirs.Keys + {name}
    requires m'.durability == m.durability && m'.quota == m.quota && m'.exceeded == m.exceeded
    requires forall n :: n in m'.dirs ==> ShelfOf(m', n) == if n == name then Shelf(map[], 1, []) else ShelfOf(m, n)
    ensures var h := HoldingsOf(m); Alike(h.(shelves := h.shelves[name := Shelf(map[], 1, [])]), HoldingsOf(m'))
  {
    hide ShelfOf, TotalSize;
  }

  lemma AddedShelf(m: Model, name: Name, n: Name)
    requires RegistryOk(m) && Find(m.series, name) == |m.series| && name !in m.dirs && n in AddSeries(m, name).dirs
    ensures ShelfOf(AddSeries(m, name), n) == if n == name then Shelf(map[], 1, []) else ShelfOf(m, n)
  {
    hide RegistryOk, AddSeries, SortedIds, FilesOk, IndexOfIds, NewSeries, Find;
    var s, m' := NewSeries(m, name), AddSeries(m, name);
    AddedSeries(m, name);
    FindAppended(m.series, s, n);
    RegisteredName(m, n);
    EmptyActive(s);
  }

  /** The record of a series that is not dropped. */
  lemma DroppedRecord(m: Model, i: nat, n: Name)
    requires RegistryOk(m) && i < |m.series| && n != m.series[i].name
    ensures ActiveOf(DropSeries(m, i).series, n) == ActiveOf(m.series, n)
    ensures BufferOf(DropSeries(m, i).series, n) == BufferOf(m.series, n)
  {
    hide SeriesOk, Find;
    DroppedPlace(m.series, i, n);
  }

  lemma DroppedPlace(series: seq<Series>, i: nat, n: Name)
    requires DistinctNames(series) && i < |series| && n != series[i].name
    ensures var rest := series[..i] + series[i + 1..];
            var k, k' := Find(series, n), Find(rest, n);
            if k < |series| then k' < |rest| && rest[k'] == series[k] else k' == |rest|
  {
    hide Find, DistinctNames;
    var rest := series[..i] + series[i + 1..];
    FindDropped(series, i, n);
    var k := Find(series, n);
    if k < |series| {
      assert k != i;
      var j := if k < i then k else k - 1;
      assert rest[j] == series[k];
      FindAt(rest, j);
    }
  }

  lemma DropHolds(m: Model, i: nat)
    requires RegistryOk(m) && i < |m.series|
    ensures var h, name := HoldingsOf(m), m.series[i].name;
            Alike(h.(shelves := h.shelves - {name}), HoldingsOf(DropSeries(m, i)))
  {
    hide RegistryOk, TotalSize, BufferOf, ActiveOf;
    var m', name := DropSeries(m, i), m.series[i].name;
    forall n | n in m'.dirs
      ensures ShelfOf(m', n) == ShelfOf(m, n)
    {
      DroppedRecord(m, i, n);
    }
    hide ShelfOf;
  }

  lemma DeleteHolds(m: Model, name: Name)
    requires Inv(m) && AllRoom(m) && name in m.dirs
    ensures var (m', st) := DeleteSeries(m, name); DeleteEffect(HoldingsOf(m), name, st, HoldingsOf(m'))
  {
    hide RegistryOk, Mirror, FlushAll, FlushEffect, HoldingsOf, DropSeries, Find, SameVisible;
    RegisteredName(m, name);
    FlushAllOk(m);
    FlushAllHolds(m);
    var i, m1 := Find(m.series, name), FlushAll(m).0;
    ShapeNames(m, m1, i);
    if FlushAll(m).1 == Ok {
      DropHolds(m1, i);
    }
    hide SameShape, Inv;
  }

  lemma RetainedShelf(m1: Model, m': Model, i: nat, t: i64)
    requires Inv(m1) && Inv(m') && i < |m1.series| && SameShape(m1, m') && Retained(m1, m', i, t)
    requires m1.series[i].buffer == []
    requires forall n :: n in m1.dirs && n != m1.series[i].name ==> ShelfOf(m', n) == ShelfOf(m1, n)
    requires m'.exceeded == m1.exceeded
    ensures Retired(HoldingsOf(m1), m1.series[i].name, t, HoldingsOf(m'))
  {
    hide Inv, HoldingsOf, ShelfOf, Retained, ShelfRetired;
    var name := m1.series[i].name;
    InvRegistry(m1);
    RegistryAt(m1, i);
    ShapeNames(m1, m', i);
    ShelfRetires(m1, m', i, t);
    OneShelf(m1, m', name);
    HoldingsSettings(m1);
    HoldingsSettings(m');
  }

  lemma ShelfParts(m: Model, name: Name)
    ensures var s := ShelfOf(m, name);
            s.files == DirOf(m.dirs, name) && s.active == ActiveOf(m.series, name)
            && s.buffer == BufferOf(m.series, name)
  {
    hide ActiveOf, BufferOf;
  }

  lemma RetainedParts(m1: Model, m': Model, i: nat, t: i64)
    requires i < |m1.series| && Retained(m1, m', i, t)
    ensures var dir, dir' := DirOf(m1.dirs, m1.series[i].name), DirOf(m'.dirs, m1.series[i].name);
            && (forall id :: id in dir' <==> id in dir && !AllBefore(dir, id, t))
            && (forall id :: id in dir' ==> dir'[id] == dir[id])
    ensures BufferOf(m'.series, m1.series[i].name) == []
  {
    hide Visible, Thinned, AllBefore, BufferOf, DirOf;
  }

  lemma ShelfRetires(m1: Model, m': Model, i: nat, t: i64)
    requires Inv(m1) && Inv(m') && i < |m1.series| && SameShape(m1, m') && Retained(m1, m', i, t)
    requires m1.series[i].buffer == []
    ensures ShelfRetired(ShelfOf(m1, m1.series[i].name), t, ShelfOf(m', m1.series[i].name))
  {
    hide Inv, ShelfOf, ActiveOf, BufferOf, Retained, Newest, DirOf, SameShape, ShelfRetired;
    var name := m1.series[i].name;
    InvRegistry(m1);
    SelfHeld(m1, i);
    RetainedParts(m1, m', i, t);
    NewestAfter(m1, m', i);
    FilesRetire(DirOf(m1.dirs, name), DirOf(m'.dirs, name), t, ShelfOf(m1, name), ShelfOf(m', name)) by {
      ShelfParts(m1, name);
      ShelfParts(m', name);
    }
  }

  lemma NewestAfter(m1: Model, m': Model, i: nat)
    requires Inv(m') && i < |m1.series| && SameShape(m1, m')
    ensures Newest(DirOf(m'.dirs, m1.series[i].name), ActiveOf(m'.series, m1.series[i].name))
  {
    hide Inv, ActiveOf, Newest, DirOf;
    ShapeNames(m1, m', i);
    hide SameShape;
    InvRegistry(m');
    NewestActive(m', i);
    DirHeld(m', m1.series[i].name);
  }

  lemma FilesRetire(dir: Directory, dir': Directory, t: i64, s: Shelf, s': Shelf)
    requires s.files == dir && s'.files == dir' && s'.buffer == s.buffer
    requires Newest(s'.files, s'.active)
    requires forall id :: id in dir' <==> id in dir && !AllBefore(dir, id, t)
    requires forall id :: id in dir' ==> dir'[id] == dir[id]
    ensures ShelfRetired(s, t, s')
  {
    hide Flatten, Newest;
  }

  lemma DirHeld(m: Model, name: Name)
    requires name in m.dirs
    ensures DirOf(m.dirs, name) == m.dirs[name]
  {}

  /** Only one shelf has changed. */
  lemma OneShelf(m: Model, m': Model, name: Name)
    requires name in m.dirs && m'.dirs.Keys == m.dirs.Keys
    requires forall n :: n in m.dirs && n != name ==> ShelfOf(m', n) == ShelfOf(m, n)
    ensures var h, h' := HoldingsOf(m), HoldingsOf(m');
            && name in h.shelves && name in h'.shelves && h'.shelves == h.shelves[name := h'.shelves[name]]
            && h.shelves[name] == ShelfOf(m, name) && h'.shelves[name] == ShelfOf(m', name)
  {
    hide ShelfOf, TotalSize;
  }

  lemma NewestActive(m: Model, i: nat)
    requires RegistryOk(m) && i < |m.series|
    ensures m.series[i].name in m.dirs
    ensures Newest(m.dirs[m.series[i].name], ActiveOf(m.series, m.series[i].name))
  {
    hide RegistryOk, SeriesOk, Flatten;
    RegistryAt(m, i);
    SelfHeld(m, i);
    var dir := m.dirs[m.series[i].name];
    ActiveIsMax(m.series[i], dir);
  }

  lemma RetentionHolds(m: Model, i: nat, t: i64)
    requires Inv(m) && i < |m.series| && Room(m, i)
    ensures m.series[i].name in HoldingsOf(m).shelves
    ensures var (m', st) := DeleteBefore(m, i, t);
            RetentionEffect(HoldingsOf(m), m.series[i].name, t, st, HoldingsOf(m'))
  {
    hide Inv, Flush, Expired, Rebuild, SeriesFlushed, HoldingsOf, Retained, Visible, Thinned, SameShape, Retired;
    FlushOk(m, i);
    FlushOnce(m, i);
    DeleteBeforeOk(m, i, t);
    var (m1, st) := Flush(m, i);
    var m' := DeleteBefore(m, i, t).0;
    ShapeNames(m, m1, i);
    if st == Ok {
      ShapeBetween(m, m1, m');
      OthersRetained(m1, i, t);
      RetainedShelf(m1, m', i, t);
    }
  }

  lemma FlushOnce(m: Model, i: nat)
    requires Inv(m) && i < |m.series| && Room(m, i)
    ensures m.series[i].name in HoldingsOf(m).shelves
    ensures SeriesFlushed(HoldingsOf(m), m.series[i].name, Flush(m, i).1, HoldingsOf(Flush(m, i).0))
  {
    hide Inv, FlushEffect, HoldingsOf;
    ShelfBuffer(m, i);
    if m.series[i].buffer != [] {
      FlushHolds(m, i);
      hide Flush;
    }
  }

  lemma OthersRetained(m1: Model, i: nat, t: i64)
    requires Inv(m1) && i < |m1.series| && m1.series[i].buffer == []
    ensures var s := m1.series[i];
            var gone := Expired(s.index, t);
            var dir := DirOf(m1.dirs, s.name) - gone;
            var m' := if gone == {} then m1
                      else m1.(dirs := m1.dirs[s.name := dir], series := m1.series[i := Rebuild(s, dir)]);
            && m'.exceeded == m1.exceeded
            && forall n :: n in m1.dirs && n != s.name ==> ShelfOf(m', n) == ShelfOf(m1, n)
  {
    hide RegistryOk, Mirror, ShelfOf, Expired, Rebuild, Replaced;
    var s := m1.series[i];
    var gone := Expired(s.index, t);
    if gone != {} {
      RebuiltReplaces(m1, i, gone);
      OthersHeld(m1, m1.(dirs := m1.dirs[s.name := DirOf(m1.dirs, s.name) - gone],
                         series := m1.series[i := Rebuild(s, DirOf(m1.dirs, s.name) - gone)]), i);
    }
  }

  // ---------------------------------------------------------------- restarts

  /** What an open leaves of the shelves: files and active file as they are on disk, and the buffers. */
  lemma OpenedShelves(m: Model, m': Model, log: seq<Entry>, rest: seq<byte>)
    requires RegistryOk(m) && Opened(m', m.dirs, log, rest)
    ensures HoldingsOf(m').quota == 0 && !HoldingsOf(m').exceeded && HoldingsOf(m').durability == Strict
    ensures SameFilesHeld(HoldingsOf(m), HoldingsOf(m'))
  {
    hide RegistryOk, Mirror, TotalSize, BufferOf, PointsFor, StoredPoints, ActiveOf;
    forall n | n in m.dirs
      ensures ActiveOf(m'.series, n) == ActiveOf(m.series, n)
    {
      ActiveOfDirectory(m, n);
      ActiveOfDirectory(m', n);
    }
  }

  lemma ActiveOfDirectory(m: Model, n: Name)
    requires RegistryOk(m) && n in m.dirs
    ensures ActiveOf(m.series, n) == ActiveId(SortedIds(m.dirs[n].Keys))
  {
    hide IndexOfIds, SortedIds, FilesOk;
  }

  lemma CloseHolds(m: Model, listing: seq<Name>)
    requires Inv(m) && AllRoom(m) && Lists(listing, m.dirs)
    ensures CloseEffect(HoldingsOf(m), FlushAll(m).1, HoldingsOf(Reopen(m, listing)))
  {
    hide RegistryOk, Mirror, FlushAll, FlushEffect, HoldingsOf, Open, Visible, PointsFor, BufferOf, StoredPoints,
         SameFilesHeld;
    FlushAllOk(m);
    FlushAllHolds(m);
    var closed := FlushAll(m).0;
    CrashAfterClose(closed, listing);
    CrashRecovers(closed, listing);
    WholeFile(closed);
    var m' := Reopen(m, listing);
    OpenedShelves(closed, m', Recoverable(closed), Unreachable(closed));
    EmptyBuffers(closed, m', listing);
    SameHeld(closed, m');
    hide SameShape, SameVisible, Lists;
  }

  /** Nothing is buffered before or after. */
  lemma EmptyBuffers(closed: Model, m': Model, listing: seq<Name>)
    requires Inv(closed) && Lists(listing, closed.dirs) && closed.log == [] && closed.pending == []
    requires m' == Crash(closed, listing)
    ensures forall n: Name :: BufferOf(closed.series, n) == [] && BufferOf(m'.series, n) == []
  {
    hide RegistryOk, Open, PointsFor, StoredPoints, BufferOf, AllWellFormed;
    CrashRecovers(closed, listing);
    assert Journal(closed) == [];
    forall n: Name
      ensures BufferOf(closed.series, n) == [] && BufferOf(m'.series, n) == []
    {
      MirrorAt(closed, n);
      PointsForAbsent([], n);
    }
  }

  lemma SameHeld(m: Model, m': Model)
    requires SameFilesHeld(HoldingsOf(m), HoldingsOf(m'))
    requires forall n: Name :: BufferOf(m.series, n) == [] && BufferOf(m'.series, n) == []
    ensures HoldingsOf(m').shelves == HoldingsOf(m).shelves
  {
    hide TotalSize, ActiveOf, BufferOf;
    var h, h' := HoldingsOf(m), HoldingsOf(m');
    forall n | n in h.shelves
      ensures h'.shelves[n] == h.shelves[n]
    {
      assert h'.shelves[n].files == h.shelves[n].files;
    }
  }

  lemma CrashHolds(m: Model, op: Op)
    requires Inv(m) && Enabled(m, op) && (op.Kill? || op.Tear?)
    ensures QuotaStep(HoldingsOf(m), LogOf(m), op, Outcome(m, op), HoldingsOf(Step(m, op)))
  {
    hide RegistryOk, Mirror, Crash, Written, LogBytes, HoldingsOf, Display, ViewOf, SpecStep, Recoverable, Unreachable,
         Legible, Lists, InFlight, SameFilesHeld, Opened;
    HoldingsShow(m);
    HoldingsShow(Step(m, op));
    var log, rest := CrashOpens(m, op);
    OpenedShelves(m, Step(m, op), log, rest);
  }

  lemma CrashOpens(m: Model, op: Op) returns (log: seq<Entry>, rest: seq<byte>)
    requires Inv(m) && Enabled(m, op) && (op.Kill? || op.Tear?)
    ensures Opened(Step(m, op), m.dirs, log, rest)
    ensures SpecStep(ViewOf(m), LogOf(m), op, ViewOf(Step(m, op)))
  {
    hide Inv, Written, LogBytes, ViewOf, SpecStep, Recoverable, Unreachable, Legible, Opened, Records, PointsFor, Find,
         InFlight, Crash, Visible;
    if op.Kill? {
      KillStep(m, op.listing);
      CrashRecovers(m, op.listing);
      log, rest := Recoverable(m), Unreachable(m);
    } else {
      TearStep(m, op);
      var i, es := Find(m.series, op.name), op.records;
      var w := Written(m, m.pending + es, op.cut);
      log, rest := Recoverable(w), Unreachable(w);
      if i < |m.series| {
        InFlightRecords(m, i, op.name, es);
        InFlightFits(m, i, op.name, es);
        CrashInAppend(m, i, es, PointsFor(es, op.name), op.cut, op.listing);
      } else {
        NothingInFlight(m, op.name, es);
        assert m.pending + es == m.pending;
        AheadOfItself(m);
        CrashWhileLogging(m, m, [], op.cut, op.listing);
      }
    }
  }

  lemma HaltHolds(m: Model, op: Op)
    requires Inv(m) && Enabled(m, op) && op.Halt?
    ensures QuotaStep(HoldingsOf(m), LogOf(m), op, Outcome(m, op), HoldingsOf(Step(m, op)))
  {
    hide Inv, Half, ShelfOf, TotalSize, Display, ViewOf, SpecStep, Recoverable, Unreachable, Legible, Lists, Flushing,
         Crash, Opened;
    HoldingsShow(m);
    HoldingsShow(Step(m, op));
    HaltStep(m, op);
  }

  // ---------------------------------------------------------------- every call

  lemma AppendOneHolds(m: Model, op: Op)
    requires Inv(m) && Enabled(m, op) && op.Append?
    ensures QuotaStep(HoldingsOf(m), LogOf(m), op, Outcome(m, op), HoldingsOf(Step(m, op)))
  {
    hide Inv, AppendPoint, HoldingsOf, AppendEffect, Find, LogOf, TotalSize, ShelfOf, SpecStep, Display, RoomMade,
         FlushEffect, RegistryOk;
    FoundInvariant(m, op.name);
    HoldingsKeys(m);
    HoldingsSettings(m);
    var i := Find(m.series, op.name);
    FoundName(m, op.name);
    if i < |m.series| && !m.exceeded {
      AppendHolds(m, i, op.point);
    }
  }

  lemma AppendManyHolds(m: Model, op: Op)
    requires Inv(m) && Enabled(m, op) && op.AppendMany?
    ensures QuotaStep(HoldingsOf(m), LogOf(m), op, Outcome(m, op), HoldingsOf(Step(m, op)))
  {
    hide Inv, AppendBatch, Budget, HoldingsOf, Rounds, Find, LogOf, TotalSize, ShelfOf, SpecStep, Display, RoomMade,
         FlushEffect, RegistryOk;
    FoundInvariant(m, op.name);
    HoldingsKeys(m);
    HoldingsSettings(m);
    var i := Find(m.series, op.name);
    FoundName(m, op.name);
    if i < |m.series| && !m.exceeded {
      BatchHolds(m, i, op.points);
    }
  }

  lemma FoundName(m: Model, name: Name)
    ensures var i := Find(m.series, name); i < |m.series| ==> m.series[i].name == name
  {}

  lemma FlushStepHolds(m: Model, op: Op)
    requires Inv(m) && Enabled(m, op) && (op.FlushSeries? || op.FlushEverything? || op.EnforceQuota?)
    ensures QuotaStep(HoldingsOf(m), LogOf(m), op, Outcome(m, op), HoldingsOf(Step(m, op)))
  {
    hide Inv, Flush, FlushAll, Enforce, HoldingsOf, FlushEffect, Find, WalFlush;
    match op
    case FlushSeries(name) =>
      var i := Find(m.series, name);
      FoundInvariant(m, name);
      FoundName(m, name);
      HoldingsKeys(m);
      if i < |m.series| {
        ShelfBuffer(m, i);
        if m.series[i].buffer == [] {
          NothingToFlush(m, i);
        } else {
          FlushHolds(m, i);
        }
      }
    case FlushEverything => FlushAllHolds(m);
    case EnforceQuota => EnforceHolds(m);
  }

  lemma NothingToFlush(m: Model, i: nat)
    requires i < |m.series| && m.series[i].buffer == []
    ensures Flush(m, i) == (m, Ok)
  {}

  lemma ShelfBuffer(m: Model, i: nat)
    requires Inv(m) && i < |m.series|
    ensures m.series[i].name in HoldingsOf(m).shelves
    ensures HoldingsOf(m).shelves[m.series[i].name].buffer == m.series[i].buffer
  {
    hide RegistryOk, Mirror, TotalSize, BufferOf, ActiveOf;
    RegistryAt(m, i);
    SelfHeld(m, i);
  }

  lemma SettingHolds(m: Model, d: Durability, limit: nat)
    requires Inv(m)
    ensures Alike(HoldingsOf(m).(durability := d), HoldingsOf(SetDurability(m, d)))
    ensures HoldingsOf(m.(quota := limit, exceeded := false)) == HoldingsOf(m).(quota := limit, exceeded := false)
  {
    hide ShelfOf, LogSize, TextSize, TreeSize, RegistryOk, Mirror;
    SameShelves(m, SetDurability(m, d));
    SameShelves(m, m.(quota := limit, exceeded := false));
  }

  lemma RemovalHolds(m: Model, op: Op)
    requires Inv(m) && Enabled(m, op) && (op.Delete? || op.DeleteOld?)
    ensures QuotaStep(HoldingsOf(m), LogOf(m), op, Outcome(m, op), HoldingsOf(Step(m, op)))
  {
    hide Inv, FlushAll, Flush, HoldingsOf, DeleteEffect, RetentionEffect, Find, DeleteBefore;
    FoundInvariant(m, op.name);
    FoundName(m, op.name);
    HoldingsKeys(m);
    match op
    case Delete(name) =>
      if name in m.dirs {
        DeleteHolds(m, name);
      }
    case DeleteOld(name, t) =>
      if name in m.dirs {
        RetentionHolds(m, Find(m.series, name), t);
      }
  }

  /**
   * Whatever the quota is, every call has one of its specified effects and returns the status that goes with it: the
   * effect it has without a quota, and a cleanup after each flush, which costs sealed files as a whole and only when
   * the directory is larger than its quota.
   */
  lemma StepCleansUp(m: Model, op: Op)
    requires Inv(m) && Enabled(m, op)
    ensures QuotaStep(HoldingsOf(m), LogOf(m), op, Outcome(m, op), HoldingsOf(Step(m, op)))
  {
    hide Inv, HoldingsOf, AddSeries, Reopen, Crash, WalFlush, Written, Half, FlushAll, Alike, CloseEffect, Legible,
         Lists, AllRoom, AppendPoint, AppendBatch, Flush, DeleteSeries, DeleteBefore, Enforce, Find, FlushEffect,
         Rounds, AppendEffect, DeleteEffect, RetentionEffect, SpecStep, SameFilesHeld;
    match op
    case Create(name) => CreateHolds(m, name);
    case Append(_, _) => AppendOneHolds(m, op);
    case AppendMany(_, _) => AppendManyHolds(m, op);
    case FlushSeries(_) => FlushStepHolds(m, op);
    case FlushEverything => FlushStepHolds(m, op);
    case EnforceQuota => FlushStepHolds(m, op);
    case Delete(_) => RemovalHolds(m, op);
    case DeleteOld(_, _) => RemovalHolds(m, op);
    case CloseOpen(listing) => CloseHolds(m, listing);
    case Configure(d) => SettingHolds(m, d, 0);
    case SetQuota(limit) => SettingHolds(m, Strict, limit);
    case Kill(_) => CrashHolds(m, op);
    case Tear(_, _, _, _) => CrashHolds(m, op);
    case Halt(_, _) => HaltHolds(m, op);
  }

  /** Whole-engine refinement under any quota: every run, crashes included, is a run of this specification. */
  lemma {:induction false} RunCleansUp(m: Model, ops: seq<Op>)
    requires Inv(m) && EnabledRun(m, ops)
    ensures QuotaRun(HoldingsOf(m), LogOf(m), ops, Outcomes(m, ops), HoldingsOf(Run(m, ops)))
    decreases |ops|
  {
    hide Inv, Step, Enabled, HoldingsOf, QuotaStep, LogStep, Outcome;
    if ops != [] {
      StepKeepsInv(m, ops[0]);
      StepCleansUp(m, ops[0]);
      StepIntact(m, ops[0]);
      HoldingsSettings(Step(m, ops[0]));
      RunCleansUp(Step(m, ops[0]), ops[1..]);
      assert Outcomes(m, ops)[1..] == Outcomes(Step(m, ops[0]), ops[1..]);
    }
  }
}
