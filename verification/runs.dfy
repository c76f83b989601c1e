/** Whole runs: the engine refines a map from series name to accepted points. */
module Runs {
  import opened Wire
  import opened Config
  import opened Codec
  import opened Points
  import opened Segments
  import opened WalFormat
  import opened State
  import opened Quota
  import opened Engine
  import opened Invariants
  import opened Retention
  import opened Recovery

  /**
   * A call of the public interface, or the death of the process followed by an open. `Kill` is a death between two
   * calls; `Tear` is one inside an append to a series, when `cut` bytes of what is pending and of the records of the
   * append have reached the log file; `Halt` is one inside a flush, when some blocks have been written and the log has
   * not been truncated yet.
   */
  datatype Op =
    | Create(name: Name)
    | Append(name: Name, point: Point)
    | AppendMany(name: Name, points: seq<Point>)
    | FlushSeries(name: Name)
    | FlushEverything
    | Configure(durability: Durability)
    | SetQuota(limit: nat)
    | EnforceQuota
    | Delete(name: Name)
    | DeleteOld(name: Name, before: i64)
    | CloseOpen(listing: seq<Name>)
    | Kill(listing: seq<Name>)
    | Tear(name: Name, records: seq<Entry>, cut: nat, listing: seq<Name>)
    | Halt(part: Part, listing: seq<Name>)

  /** How far a flush got: it wrote the block of its only series, or those of the first series of a flush-all. */
  datatype Part = One(name: Name) | First(count: nat)

  /** The calls that end the process. */
  predicate Ends(op: Op) {
    op.CloseOpen? || op.Kill? || op.Tear? || op.Halt?
  }

  /** The state when such a flush is interrupted. */
  function Half(m: Model, part: Part): Model {
    match part
    case One(name) =>
      var i := Find(m.series, name);
      if i == |m.series| then m else WriteBlock(m, i)
    case First(count) => WriteBlocks(m, Min(count, |m.series|))
  }

  /** One call. Appends are refused while the quota is exceeded; unknown names change nothing. */
  ghost function Step(m: Model, op: Op): Model {
    match op
    case Create(name) => AddSeries(m, name)
    case Append(name, p) =>
      var i := Find(m.series, name);
      if m.exceeded || i == |m.series| then m else AppendPoint(m, i, p).0
    case AppendMany(name, ps) =>
      var i := Find(m.series, name);
      if ps == [] || m.exceeded || i == |m.series| then m else AppendBatch(m, i, ps).0
    case FlushSeries(name) =>
      var i := Find(m.series, name);
      if i == |m.series| then m else Flush(m, i).0
    case FlushEverything => FlushAll(m).0
    case Configure(d) => SetDurability(m, d)
    case SetQuota(limit) => m.(quota := limit, exceeded := false)
    case EnforceQuota => Enforce(WalFlush(m)).0
    case Delete(name) => DeleteSeries(m, name).0
    case DeleteOld(name, t) =>
      var i := Find(m.series, name);
      if i == |m.series| then m else DeleteBefore(m, i, t).0
    case CloseOpen(listing) => Reopen(m, listing)
    case Kill(listing) => Crash(m, listing)
    case Tear(_, es, cut, listing) => Crash(Written(m, m.pending + es, cut), listing)
    case Halt(part, listing) => Crash(Half(m, part), listing)
  }

  /** What the call returns. */
  ghost function Outcome(m: Model, op: Op): Status {
    match op
    case Append(name, p) =>
      var i := Find(m.series, name);
      if m.exceeded then QuotaExceeded else if i == |m.series| then NotFound else AppendPoint(m, i, p).1
    case AppendMany(name, ps) =>
      var i := Find(m.series, name);
      if ps == [] then Ok
      else if m.exceeded then QuotaExceeded
      else if i == |m.series| then NotFound
      else AppendBatch(m, i, ps).1
    case FlushSeries(name) =>
      var i := Find(m.series, name);
      if i == |m.series| then NotFound else Flush(m, i).1
    case FlushEverything => FlushAll(m).1
    case EnforceQuota => Enforce(WalFlush(m)).1
    case Delete(name) => DeleteSeries(m, name).1
    case DeleteOld(name, t) =>
      var i := Find(m.series, name);
      if i == |m.series| then NotFound else DeleteBefore(m, i, t).1
    case CloseOpen(_) => FlushAll(m).1
    case _ => Ok
  }

  /** Records of an append to `name` for which there is room in its buffer. */
  ghost predicate InFlight(m: Model, name: Name, es: seq<Entry>) {
    && AllWellFormed(es)
    && (forall k :: 0 <= k < |es| ==> es[k].name == name)
    && var i := Find(m.series, name);
       if i == |m.series| then es == [] else |m.series[i].buffer| + |PointsFor(es, name)| <= BLOCK_MAX_POINTS
  }

  /** The flush has something to write, and six-digit ids for it. */
  ghost predicate Flushing(m: Model, part: Part) {
    match part
    case One(name) =>
      var i := Find(m.series, name);
      i < |m.series| && m.series[i].buffer != [] && Room(m, i)
    case First(count) =>
      AllRoom(m) && count <= |m.series| && exists j :: 0 <= j < count && m.series[j].buffer != []
  }

  /**
   * Six-digit segment ids are left for the flushes of the call. An open is given a listing of the directory, and the
   * log it finds is not damaged.
   */
  ghost predicate Enabled(m: Model, op: Op) {
    match op
    case Append(name, _) =>
      var i := Find(m.series, name);
      i < |m.series| && |m.series[i].buffer| == BLOCK_MAX_POINTS ==> Room(m, i)
    case AppendMany(name, ps) =>
      var i := Find(m.series, name);
      i < |m.series| ==> Budget(m, i, |ps|)
    case FlushSeries(name) =>
      var i := Find(m.series, name);
      i < |m.series| ==> Room(m, i)
    case DeleteOld(name, _) =>
      var i := Find(m.series, name);
      i < |m.series| ==> Room(m, i)
    case FlushEverything => AllRoom(m)
    case Delete(_) => AllRoom(m)
    case CloseOpen(listing) => AllRoom(m) && Lists(listing, m.dirs)
    case Kill(listing) => Lists(listing, m.dirs) && Legible(m)
    case Tear(name, es, cut, listing) =>
      && Lists(listing, m.dirs) && InFlight(m, name, es) && TearOk(m)
      && cut <= |LogBytes(m.pending + es)| && Legible(Written(m, m.pending + es, cut))
    case Halt(part, listing) =>
      Lists(listing, m.dirs) && TearOk(m) && Flushing(m, part) && Legible(Half(m, part))
    case _ => true
  }

  // ---------------------------------------------------------------- specification

  /** What a user of the engine reasons about: the accepted points of every series, and the durability mode. */
  datatype View = View(points: map<Name, seq<Point>>, durability: Durability)

  ghost function ViewOf(m: Model): View {
    View(map n | n in m.dirs :: Visible(m, n), m.durability)
  }

  /**
   * What a crash depends on: whether the log file is `intact`, that is, without a torn record in it, and whether all
   * records are `saved` in it.
   */
  datatype LogState = LogState(intact: bool, saved: bool)

  function LogOf(m: Model): LogState {
    LogState(m.torn == [], m.pending == [])
  }

  /** The last points are there a second time, all of them if the log was `intact`. */
  ghost predicate Repeats(before: seq<Point>, after: seq<Point>, intact: bool) {
    exists k: nat, l: nat :: k <= l <= |before| && Repeat(before, after, k, l) && (intact ==> l == |before|)
  }

  predicate Repeat(before: seq<Point>, after: seq<Point>, k: nat, l: nat)
    requires k <= l <= |before|
  {
    after == before + before[k..l]
  }

  /** Nothing new is there, and everything if the log was `intact`. */
  predicate Remains(before: seq<Point>, after: seq<Point>, intact: bool) {
    after <= before && (intact ==> after == before)
  }

  /**
   * The allowed effects of a call when no quota is set. Only a crash looks at the log: nothing is lost if it is intact
   * and saved, as it always is in STRICT mode. Until the next truncation, calls on a torn log have all their effects,
   * but a crash may take back points that would otherwise have been kept.
   */
  ghost predicate SpecStep(v: View, log: LogState, op: Op, v': View) {
    match op
    case Create(name) => v' == if name in v.points then v else v.(points := v.points[name := []])
    case Append(name, p) =>
      v' == if name in v.points then v.(points := v.points[name := v.points[name] + [p]]) else v
    case AppendMany(name, ps) =>
      v' == if name in v.points then v.(points := v.points[name := v.points[name] + ps]) else v
    case FlushSeries(_) => v' == v
    case FlushEverything => v' == v
    case Configure(d) => v' == v.(durability := d)
    case SetQuota(_) => v' == v
    case EnforceQuota => v' == v
    case Delete(name) => v' == v.(points := v.points - {name})
    case DeleteOld(name, t) =>
      && v'.durability == v.durability && v'.points.Keys == v.points.Keys
      && (forall n :: n in v.points && n != name ==> v'.points[n] == v.points[n])
      && (name in v.points ==> Thinned(v.points[name], v'.points[name], t))
    case CloseOpen(_) => v' == v.(durability := Strict)
    case Kill(_) =>
      && v'.durability == Strict && v'.points.Keys == v.points.Keys
      && (forall n :: n in v.points ==> v'.points[n] <= v.points[n])
      && ((v.durability.Strict? || log.saved) && log.intact ==> v'.points == v.points)
    case Tear(name, es, _, _) =>
      && v'.durability == Strict && v'.points.Keys == v.points.Keys
      && (forall n :: n in v.points ==>
            v'.points[n] <= v.points[n] + if n == name then PointsFor(es, name) else [])
      && ((v.durability.Strict? || log.saved) && log.intact ==>
            forall n :: n in v.points ==> v.points[n] <= v'.points[n])
    case Halt(part, _) =>
      && v'.durability == Strict && v'.points.Keys == v.points.Keys
      && forall n :: n in v.points ==>
           || ((part.One? ==> part.name == n) && Repeats(v.points[n], v'.points[n], log.intact))
           || ((part.One? ==> part.name != n) && Remains(v.points[n], v'.points[n], log.intact))
  }

  /** The calls that write out what is pending, and those after which a new process has nothing pending. */
  predicate Saves(op: Op) {
    op.Configure? || op.EnforceQuota? || op.FlushEverything? || Ends(op)
  }

  /**
   * An intact log stays so until a crash tears it; flushing everything and closing make it intact again. A saved log
   * stays so until an append in a mode other than STRICT, and switching the mode saves it, whatever the new mode is.
   */
  predicate LogStep(log: LogState, op: Op, mode: Durability, log': LogState) {
    && (log.intact && !op.Tear? ==> log'.intact) && (op.FlushEverything? || op.CloseOpen? ==> log'.intact)
    && (log.saved && !op.Append? && !op.AppendMany? ==> log'.saved) && (Saves(op) || mode.Strict? ==> log'.saved)
  }

  ghost predicate SpecRun(v: View, log: LogState, ops: seq<Op>, v': View)
    decreases |ops|
  {
    if ops == [] then v' == v
    else
      exists v1, log1 ::
        && SpecStep(v, log, ops[0], v1) && LogStep(log, ops[0], v1.durability, log1)
        && SpecRun(v1, log1, ops[1..], v')
  }

  ghost function Run(m: Model, ops: seq<Op>): Model
    decreases |ops|
  {
    if ops == [] then m else Run(Step(m, ops[0]), ops[1..])
  }

  ghost predicate EnabledRun(m: Model, ops: seq<Op>)
    decreases |ops|
  {
    ops == [] || (Enabled(m, ops[0]) && EnabledRun(Step(m, ops[0]), ops[1..]))
  }

  predicate QuotaFree(op: Op) {
    op.SetQuota? ==> op.limit == 0
  }

  // ---------------------------------------------------------------- one step

  lemma WalFlushOk(m: Model)
    requires Inv(m)
    ensures Inv(WalFlush(m)) && SameVisible(m, WalFlush(m))
  {
    hide RegistryOk, SameVisible, PointsFor, BufferOf;
    RegistryIgnoresLog(m, WalFlush(m));
    assert Journal(WalFlush(m)) == Journal(m);
  }

  lemma SettingsOk(m: Model, d: Durability, quota: nat, exceeded: bool)
    requires Inv(m) && (d.Strict? ==> m.pending == [])
    ensures Inv(m.(durability := d, quota := quota, exceeded := exceeded))
    ensures SameVisible(m, m.(durability := d, quota := quota, exceeded := exceeded))
  {
    hide SeriesOk, StoredPoints, BufferOf, PointsFor, Find;
  }

  lemma FoundInvariant(m: Model, name: Name)
    requires Inv(m)
    ensures Find(m.series, name) < |m.series| <==> name in m.dirs
  {
    hide RegistryOk, Mirror;
    RegisteredName(m, name);
  }

  lemma AppendStepInv(m: Model, op: Op)
    requires Inv(m) && Enabled(m, op) && (op.Append? || op.AppendMany?)
    ensures Inv(Step(m, op))
  {
    hide Inv, AppendPoint, AppendBatch, Budget;
    var i := Find(m.series, op.name);
    if i < |m.series| && !m.exceeded {
      match op
      case Append(_, p) => AppendPointOk(m, i, p);
      case AppendMany(_, ps) =>
        if ps != [] {
          AppendBatchOk(m, i, ps);
        }
    }
  }

  lemma MaintenanceStepInv(m: Model, op: Op)
    requires Inv(m) && Enabled(m, op) && (op.FlushSeries? || op.FlushEverything? || op.DeleteOld? || op.Delete?)
    ensures Inv(Step(m, op))
  {
    hide Inv, Flush, FlushAll, DeleteBefore, DeleteSeries, Retained;
    match op
    case FlushSeries(name) =>
      var i := Find(m.series, name);
      if i < |m.series| {
        FlushOk(m, i);
      }
    case FlushEverything => FlushAllOk(m);
    case DeleteOld(name, t) =>
      var i := Find(m.series, name);
      if i < |m.series| {
        DeleteBeforeOk(m, i, t);
      }
    case Delete(name) => DeleteSeriesOk(m, name);
  }

  lemma SettingStepInv(m: Model, op: Op)
    requires Inv(m) && (op.Configure? || op.SetQuota? || op.EnforceQuota?)
    ensures Inv(Step(m, op))
  {
    hide RegistryOk, Mirror, Enforce;
    WalFlushOk(m);
    match op
    case Configure(d) => SettingsOk(WalFlush(m), d, m.quota, m.exceeded);
    case SetQuota(limit) => SettingsOk(m, m.durability, limit, false);
    case EnforceQuota => EnforceOk(WalFlush(m));
  }

  /** Every call, every quota, every crash between calls keeps the invariant. */
  lemma StepKeepsInv(m: Model, op: Op)
    requires Inv(m) && Enabled(m, op)
    ensures Inv(Step(m, op))
  {
    hide Inv, Enabled, AddSeries, Reopen, Crash, Visible, Opened;
    match op
    case Create(name) => AddSeriesOk(m, name);
    case Append(_, _) => AppendStepInv(m, op);
    case AppendMany(_, _) => AppendStepInv(m, op);
    case FlushSeries(_) => MaintenanceStepInv(m, op);
    case FlushEverything => MaintenanceStepInv(m, op);
    case Delete(_) => MaintenanceStepInv(m, op);
    case DeleteOld(_, _) => MaintenanceStepInv(m, op);
    case Configure(_) => SettingStepInv(m, op);
    case SetQuota(_) => SettingStepInv(m, op);
    case EnforceQuota => SettingStepInv(m, op);
    case CloseOpen(listing) => ReopenStep(m, listing);
    case Kill(listing) => KillStep(m, listing);
    case Tear(_, _, _, _) => TearStep(m, op);
    case Halt(_, _) => HaltStep(m, op);
  }

  lemma ReopenStep(m: Model, listing: seq<Name>)
    requires Inv(m) && Enabled(m, CloseOpen(listing))
    ensures Inv(Reopen(m, listing)) && (m.quota == 0 ==> SameVisible(m, Reopen(m, listing)))
    ensures Reopen(m, listing).quota == 0 && Reopen(m, listing).durability == Strict
  {
    hide Inv, Visible, Lists, Reopen;
    ReopenOk(m, listing);
    ReopenSettings(m, listing);
  }

  lemma ReopenSettings(m: Model, listing: seq<Name>)
    requires Inv(m) && AllRoom(m) && Lists(listing, m.dirs)
    ensures Reopen(m, listing).quota == 0 && Reopen(m, listing).durability == Strict
  {
    hide Inv, Open, FlushAll, Visible, PointsFor, StoredPoints, BufferOf;
    FlushAllOk(m);
    CrashRecovers(FlushAll(m).0, listing);
    CrashAfterClose(FlushAll(m).0, listing);
  }

  lemma KillStep(m: Model, listing: seq<Name>)
    requires Inv(m) && Enabled(m, Kill(listing))
    ensures Inv(Crash(m, listing)) && Crash(m, listing).quota == 0 && !Crash(m, listing).exceeded
    ensures SpecStep(ViewOf(m), LogOf(m), Kill(listing), ViewOf(Crash(m, listing)))
  {
    hide Inv, StoredPoints, PointsFor, BufferOf, Open, Lists, Legible, Unreachable;
    CrashRecovers(m, listing);
    var m' := Crash(m, listing);
    hide Crash;
    forall n: Name | n in m.dirs
      ensures Visible(m', n) <= Visible(m, n)
    {
      PrefixBehind(StoredPoints(DirOf(m.dirs, n)), BufferOf(m'.series, n), BufferOf(m.series, n));
    }
    hide Visible;
    assert Saved(m) && m.torn == [] ==> ViewOf(m').points == ViewOf(m).points;
  }

  lemma InFlightRecords(m: Model, i: nat, name: Name, es: seq<Entry>)
    requires InFlight(m, name, es) && i == Find(m.series, name) < |m.series|
    ensures Records(m, i, es, PointsFor(es, name))
  {
    hide PointsFor, Entry.WellFormed;
    forall n: Name
      ensures PointsFor(es, n) == if n == name then PointsFor(es, name) else []
    {
      if n != name {
        PointsForAbsent(es, n);
      }
    }
  }

  /** A torn append: the state after it, and what its readers see. */
  lemma TearStep(m: Model, op: Op)
    requires Inv(m) && op.Tear? && Enabled(m, op)
    ensures var m' := Step(m, op); Inv(m') && m'.quota == 0 && !m'.exceeded && m'.durability == Strict
    ensures SpecStep(ViewOf(m), LogOf(m), op, ViewOf(Step(m, op)))
  {
    hide Inv, Records, Written, LogBytes, Recoverable, Unreachable, Legible, Lists, Visible, PointsFor, Extended, Crash,
         InFlight;
    var i, es, m' := Find(m.series, op.name), op.records, Step(m, op);
    if i < |m.series| {
      var ps := PointsFor(es, op.name);
      InFlightRecords(m, i, op.name, es);
      InFlightFits(m, i, op.name, es);
      CrashInAppend(m, i, es, ps, op.cut, op.listing);
      AppendedOk(m, i, es, ps);
      ExtendedBound(m, Appended(m, i, es, ps), i, ps);
      TornView(m, Appended(m, i, es, ps), m', op, ps);
    } else {
      NothingInFlight(m, op.name, es);
      assert m.pending + es == m.pending;
      CrashWhileLogging(m, m, [], op.cut, op.listing);
      TornView(m, m, m', op, PointsFor(es, op.name));
    }
  }

  // ---------------------------------------------------------------- crashes inside a flush

  lemma HalfOne(m: Model, name: Name)
    requires Inv(m) && Flushing(m, One(name))
    ensures BeforeTruncate(m, Half(m, One(name)))
    ensures BufferOf(Half(m, One(name)).series, name) == []
    ensures forall n: Name :: n != name ==> BufferOf(Half(m, One(name)).series, n) == BufferOf(m.series, n)
  {
    hide RegistryOk, WriteBlock, SameVisible, SeriesOk, Mirror;
    var i := Find(m.series, name);
    var w := WriteBlock(m, i);
    WriteBlockOk(m, i);
    ReplaceSeries(m, w, i);
    RegistryAt(m, i);
    hide Replaced, BufferOf;
  }

  lemma HalfFirst(m: Model, count: nat)
    requires Inv(m) && Flushing(m, First(count))
    ensures BeforeTruncate(m, Half(m, First(count)))
  {
    hide RegistryOk, WriteBlocks, SameVisible, Find, Mirror;
    WriteBlocksOk(m, count);
    var w := WriteBlocks(m, count);
    forall n: Name
      ensures BufferOf(w.series, n) == if Find(m.series, n) < count then [] else BufferOf(m.series, n)
    {
      FindSameNames(m.series, w.series, n);
    }
    hide BufferOf;
  }

  /** What a reader of one series sees after a crash inside a flush. */
  lemma HaltSees(m: Model, w: Model, m': Model, n: Name)
    requires Inv(m) && BeforeTruncate(m, w)
    requires Visible(m', n) == StoredPoints(DirOf(w.dirs, n)) + PointsFor(Recoverable(w), n)
    ensures BufferOf(w.series, n) == [] ==> Repeats(Visible(m, n), Visible(m', n), m.torn == [])
    ensures BufferOf(w.series, n) == BufferOf(m.series, n) ==> Remains(Visible(m, n), Visible(m', n), m.torn == [])
  {
    hide RegistryOk, PointsFor, BufferOf, StoredPoints, AllWellFormed, Recoverable, Repeat;
    var found, before, stored := PointsFor(Recoverable(w), n), Visible(m, n), StoredPoints(DirOf(w.dirs, n));
    assert w.log == w.log + [] == Journal(m);
    RecoverablePrefix(w);
    JournalPrefixOpens(m, Recoverable(w));
    MirrorAt(m, n);
    assert before == Visible(w, n) == stored + BufferOf(w.series, n);
    IntactRecovers(w);
    if BufferOf(w.series, n) == [] {
      assert before == stored;
      RepeatedEnd(StoredPoints(DirOf(m.dirs, n)), BufferOf(m.series, n), found, Visible(m', n), m.torn == []);
    }
    if BufferOf(w.series, n) == BufferOf(m.series, n) {
      PrefixBehind(stored, found, BufferOf(w.series, n));
    }
  }

  lemma IntactRecovers(w: Model)
    ensures w.torn == [] ==> Recoverable(w) == w.log
  {}

  lemma RepeatedEnd(stored: seq<Point>, buffer: seq<Point>, found: seq<Point>, after: seq<Point>, intact: bool)
    requires found <= buffer && after == stored + buffer + found && (intact ==> found == buffer)
    ensures Repeats(stored + buffer, after, intact)
  {
    var before, k, l := stored + buffer, |stored|, |stored| + |found|;
    assert before[k..l] == found;
    assert Repeat(before, after, k, l);
  }

  /** At-least-once: the state after a crash inside a flush, and what its readers see. */
  lemma HaltStep(m: Model, op: Op)
    requires Inv(m) && op.Halt? && Enabled(m, op)
    ensures var m' := Step(m, op);
            && Opened(m', Half(m, op.part).dirs, Recoverable(Half(m, op.part)), Unreachable(Half(m, op.part)))
            && Inv(m') && m'.quota == 0 && !m'.exceeded && m'.durability == Strict
    ensures SpecStep(ViewOf(m), LogOf(m), op, ViewOf(Step(m, op)))
  {
    hide Inv, Half, Recoverable, Unreachable, Legible, Lists, Visible, PointsFor, Crash, Flushing, BufferOf,
         StoredPoints, Repeats, Remains, SameShape, SameVisible, BeforeTruncate;
    var w, m' := Half(m, op.part), Step(m, op);
    match op.part {
      case One(name) => HalfOne(m, name);
      case First(count) => HalfFirst(m, count);
    }
    CrashBeforeTruncate(m, w, op.listing);
    HalfKeys(m, w);
    forall n: Name
      ensures BufferOf(w.series, n) == [] ==> Repeats(Visible(m, n), Visible(m', n), m.torn == [])
      ensures BufferOf(w.series, n) == BufferOf(m.series, n) ==> Remains(Visible(m, n), Visible(m', n), m.torn == [])
      ensures BufferOf(w.series, n) == BufferOf(m.series, n) || BufferOf(w.series, n) == []
    {
      HaltSees(m, w, m', n);
      HalfBuffers(m, w, n);
    }
  }

  lemma HalfKeys(m: Model, w: Model)
    requires BeforeTruncate(m, w)
    ensures w.dirs.Keys == m.dirs.Keys
  {
    hide RegistryOk, SameVisible, BufferOf;
  }

  lemma HalfBuffers(m: Model, w: Model, n: Name)
    requires BeforeTruncate(m, w)
    ensures BufferOf(w.series, n) == BufferOf(m.series, n) || BufferOf(w.series, n) == []
  {
    hide RegistryOk, SameVisible, SameShape, BufferOf;
  }

  // ---------------------------------------------------------------- crashes inside an append

  lemma InFlightFits(m: Model, i: nat, name: Name, es: seq<Entry>)
    requires InFlight(m, name, es) && i == Find(m.series, name) < |m.series|
    ensures |m.series[i].buffer| + |PointsFor(es, name)| <= BLOCK_MAX_POINTS
  {
    hide PointsFor;
  }

  lemma NothingInFlight(m: Model, name: Name, es: seq<Entry>)
    requires InFlight(m, name, es) && Find(m.series, name) == |m.series|
    ensures es == [] && PointsFor(es, name) == []
  {}

  lemma ExtendedBound(m: Model, m2: Model, i: nat, ps: seq<Point>)
    requires i < |m.series| && Extended(m, m2, i, ps)
    ensures forall n: Name :: Visible(m2, n) == Visible(m, n) + if n == m.series[i].name then ps else []
  {
    hide Visible;
  }

  lemma TornView(m: Model, m2: Model, m': Model, op: Op, ps: seq<Point>)
    requires op.Tear? && Within(m, m2, m') && m'.durability == Strict && ps == PointsFor(op.records, op.name)
    requires forall n: Name :: Visible(m2, n) == Visible(m, n) || (n == op.name && Visible(m2, n) == Visible(m, n) + ps)
    ensures SpecStep(ViewOf(m), LogOf(m), op, ViewOf(m'))
  {
    hide Visible, PointsFor;
    forall n: Name | n in m.dirs
      ensures Visible(m', n) <= Visible(m, n) + if n == op.name then ps else []
    {
      assert Visible(m', n) <= Visible(m2, n);
      assert Visible(m, n) + [] == Visible(m, n);
    }
  }

  lemma SameView(m: Model, m': Model)
    requires SameVisible(m, m')
    ensures ViewOf(m').points == ViewOf(m).points
  {
    hide Visible;
  }

  lemma ExtendedView(m: Model, m': Model, i: nat, ps: seq<Point>)
    requires i < |m.series| && SameShape(m, m') && Extended(m, m', i, ps) && m.series[i].name in m.dirs
    ensures var name, v := m.series[i].name, ViewOf(m);
            ViewOf(m') == v.(points := v.points[name := v.points[name] + ps])
  {
    hide Visible;
    var name := m.series[i].name;
    forall n: Name | n in m.dirs
      ensures Visible(m', n) == if n == name then Visible(m, n) + ps else Visible(m, n)
    {
      assert Visible(m, n) + [] == Visible(m, n);
    }
    hide Extended, SameShape;
    assert m'.dirs.Keys == m.dirs.Keys;
  }

  lemma AppendStepRefines(m: Model, op: Op)
    requires Inv(m) && Enabled(m, op) && m.quota == 0 && !m.exceeded && (op.Append? || op.AppendMany?)
    ensures SpecStep(ViewOf(m), LogOf(m), op, ViewOf(Step(m, op)))
    ensures SameSettings(m, Step(m, op))
  {
    hide Inv, AppendPoint, AppendBatch, Budget, Extended, Visible;
    FoundInvariant(m, op.name);
    var i := Find(m.series, op.name);
    if i < |m.series| {
      match op
      case Append(_, p) =>
        AppendPointOk(m, i, p);
        AppendPointSettings(m, i, p);
        ExtendedView(m, AppendPoint(m, i, p).0, i, [p]);
      case AppendMany(_, ps) =>
        if ps == [] {
          assert ViewOf(m).points[op.name] + [] == ViewOf(m).points[op.name];
        } else {
          AppendBatchOk(m, i, ps);
          AppendBatchSettings(m, i, ps);
          ExtendedView(m, AppendBatch(m, i, ps).0, i, ps);
        }
    }
    hide ViewOf, SameShape, Find;
  }

  /** Without a quota the engine never starts refusing appends. */
  ghost predicate SameSettings(m: Model, m': Model) {
    m'.quota == 0 && !m'.exceeded
  }

  lemma FlushSettings(m: Model, i: nat)
    requires i < |m.series| && m.quota == 0 && !m.exceeded
    ensures SameSettings(m, Flush(m, i).0)
  {
    hide TruncateLog, FlushedSeries, FlushedDirectory;
    var w := WriteBlock(m, i);
    assert w.quota == 0 && TruncateLog(w).quota == 0 by {
      TruncateSettings(w);
    }
  }

  lemma TruncateSettings(m: Model)
    ensures TruncateLog(m).quota == m.quota
  {}

  lemma AppendPointSettings(m: Model, i: nat, p: Point)
    requires i < |m.series| && m.quota == 0 && !m.exceeded
    ensures SameSettings(m, AppendPoint(m, i, p).0)
  {
    hide Flush;
    FlushSettings(m, i);
  }

  lemma {:induction false} AppendBatchSettings(m: Model, i: nat, ps: seq<Point>)
    requires i < |m.series| && m.quota == 0 && !m.exceeded
    ensures SameSettings(m, AppendBatch(m, i, ps).0)
    decreases |ps|
  {
    hide Flush, Chunk;
    if ps != [] {
      FlushSettings(m, i);
      var (m1, st) := MakeRoom(m, i);
      var n := Chunk(m1, i, |ps|);
      ChunkAtMost(m1, i, |ps|);
      if st == Ok && n > 0 {
        AppendBatchSettings(Push(WalAppendBatch(m1, m1.series[i].name, ps[..n]), i, ps[..n]), i, ps[n..]);
      }
    }
  }

  lemma ChunkAtMost(m: Model, i: nat, n: nat)
    requires i < |m.series|
    ensures Chunk(m, i, n) <= n
  {}

  lemma MaintenanceStepRefines(m: Model, op: Op)
    requires Inv(m) && Enabled(m, op) && m.quota == 0 && !m.exceeded
    requires op.FlushSeries? || op.FlushEverything? || op.DeleteOld? || op.Delete?
    ensures SpecStep(ViewOf(m), LogOf(m), op, ViewOf(Step(m, op)))
    ensures SameSettings(m, Step(m, op))
  {
    hide Inv, Flush, FlushAll, DeleteBefore, DeleteSeries, Visible, Retained, Thinned, Find;
    match op
    case FlushSeries(name) =>
      var i := Find(m.series, name);
      if i < |m.series| {
        FlushOk(m, i);
        FlushSettings(m, i);
        SameView(m, Flush(m, i).0);
      }
    case FlushEverything =>
      FlushAllOk(m);
      FlushAllSettings(m);
      SameView(m, FlushAll(m).0);
    case DeleteOld(name, t) =>
      FoundInvariant(m, name);
      var i := Find(m.series, name);
      if i < |m.series| {
        DeleteBeforeOk(m, i, t);
        DeleteBeforeSettings(m, i, t);
      }
    case Delete(name) =>
      DeleteSeriesOk(m, name);
      DeleteSettings(m, name);
      DeletedView(m, name);
  }

  lemma {:induction false} WriteBlocksQuota(m: Model, n: nat)
    requires n <= |m.series|
    ensures WriteBlocks(m, n).quota == m.quota
  {
    hide FlushedSeries, FlushedDirectory;
    if n > 0 {
      WriteBlocksQuota(m, n - 1);
    }
  }

  lemma FlushAllSettings(m: Model)
    requires m.quota == 0
    ensures SameSettings(m, FlushAll(m).0)
  {
    hide WriteBlocks, TruncateLog;
    WriteBlocksQuota(m, |m.series|);
    TruncateSettings(WriteBlocks(m, |m.series|));
  }

  lemma DeleteBeforeSettings(m: Model, i: nat, t: i64)
    requires i < |m.series| && m.quota == 0 && !m.exceeded
    ensures SameSettings(m, DeleteBefore(m, i, t).0)
  {
    hide Flush, Rebuild, Expired;
    FlushSettings(m, i);
  }

  lemma DeleteSettings(m: Model, name: Name)
    requires m.quota == 0 && !m.exceeded
    ensures SameSettings(m, DeleteSeries(m, name).0)
  {
    hide FlushAll;
    FlushAllSettings(m);
  }

  lemma DeletedView(m: Model, name: Name)
    requires Inv(m) && AllRoom(m) && m.quota == 0
    ensures ViewOf(DeleteSeries(m, name).0) == ViewOf(m).(points := ViewOf(m).points - {name})
  {
    hide Inv, DeleteSeries, Visible;
    DeleteSeriesOk(m, name);
    DeleteDurability(m, name);
    var m' := DeleteSeries(m, name).0;
    if name !in m.dirs {
      assert ViewOf(m).points - {name} == ViewOf(m).points;
    } else {
      assert m'.dirs.Keys == m.dirs.Keys - {name};
    }
  }

  lemma DeleteDurability(m: Model, name: Name)
    requires Inv(m) && AllRoom(m)
    ensures DeleteSeries(m, name).0.durability == m.durability
  {
    hide Inv, FlushAll, Visible;
    FlushAllOk(m);
  }

  /** With the quota disabled, every call has exactly one of the effects the specification allows. */
  lemma StepRefines(m: Model, op: Op)
    requires Inv(m) && Enabled(m, op) && m.quota == 0 && !m.exceeded && QuotaFree(op)
    ensures SpecStep(ViewOf(m), LogOf(m), op, ViewOf(Step(m, op)))
    ensures SameSettings(m, Step(m, op))
  {
    hide Inv, Enabled, Visible, Opened, Enforce, WalFlush, AddSeries, Reopen, Crash;
    match op
    case Create(name) => CreatedView(m, name);
    case Append(_, _) => AppendStepRefines(m, op);
    case AppendMany(_, _) => AppendStepRefines(m, op);
    case FlushSeries(_) => MaintenanceStepRefines(m, op);
    case FlushEverything => MaintenanceStepRefines(m, op);
    case Delete(_) => MaintenanceStepRefines(m, op);
    case DeleteOld(_, _) => MaintenanceStepRefines(m, op);
    case Configure(d) => SettingViews(m, d);
    case SetQuota(_) => SettingViews(m, m.durability);
    case EnforceQuota => SettingViews(m, m.durability);
    case CloseOpen(listing) =>
      ReopenStep(m, listing);
      SameView(m, Reopen(m, listing));
      FreshSettings(m, listing);
    case Kill(listing) => KillStep(m, listing);
    case Tear(_, _, _, _) => TearStep(m, op);
    case Halt(_, _) => HaltStep(m, op);
  }

  lemma FreshSettings(m: Model, listing: seq<Name>)
    requires Inv(m) && Enabled(m, CloseOpen(listing))
    ensures !Reopen(m, listing).exceeded
  {
    hide Inv, FlushAll, Open, Visible, PointsFor, StoredPoints, BufferOf;
    FlushAllOk(m);
    CrashRecovers(FlushAll(m).0, listing);
    CrashAfterClose(FlushAll(m).0, listing);
  }

  lemma CreatedView(m: Model, name: Name)
    requires Inv(m) && m.quota == 0 && !m.exceeded
    ensures SpecStep(ViewOf(m), LogOf(m), Create(name), ViewOf(AddSeries(m, name)))
    ensures SameSettings(m, AddSeries(m, name))
  {
    hide Inv, AddSeries, Visible;
    AddSeriesOk(m, name);
    FoundInvariant(m, name);
    var m' := AddSeries(m, name);
    assert m'.durability == m.durability && m'.quota == m.quota && m'.exceeded == m.exceeded;
    if name !in m.dirs {
      assert m'.dirs.Keys == m.dirs.Keys + {name};
      assert Visible(m', name) == [];
    }
    hide Find;
  }

  lemma SettingViews(m: Model, d: Durability)
    requires Inv(m) && m.quota == 0 && !m.exceeded
    ensures var s := SetDurability(m, d);
            ViewOf(s) == ViewOf(m).(durability := d) && SameSettings(m, s)
    ensures var s := m.(quota := 0, exceeded := false); ViewOf(s) == ViewOf(m) && SameSettings(m, s)
    ensures var s := Enforce(WalFlush(m)).0; ViewOf(s) == ViewOf(m) && SameSettings(m, s)
  {
    hide Inv, Visible;
    WalFlushOk(m);
    var w := WalFlush(m);
    assert w.pending == [];
    SettingsOk(w, d, w.quota, w.exceeded);
    VisibleTransitive(m, w, SetDurability(m, d));
    SameView(m, SetDurability(m, d));
    SettingsOk(w, w.durability, w.quota, false);
    VisibleTransitive(m, w, Enforce(w).0);
    SameView(m, Enforce(w).0);
  }

  // ---------------------------------------------------------------- torn logs

  /** The torn record is still where it was, with the same records in front of it, or the log has been rewritten. */
  predicate Heals(m: Model, m': Model) {
    (m'.torn == [] && m'.kept == 0) || (m'.torn == m.torn && m'.kept == m.kept && m.log <= m'.log)
  }

  lemma HealsTransitive(a: Model, b: Model, c: Model)
    requires Heals(a, b) && Heals(b, c)
    ensures Heals(a, c)
  {}

  lemma {:induction false} AppendAllHeals(m: Model, es: seq<Entry>)
    ensures Heals(m, WalAppendAll(m, es))
  {
    hide LogSize, Entry.Size;
    if es != [] {
      AppendAllHeals(m, es[..|es| - 1]);
    }
  }

  lemma LogHeals(m: Model, i: nat, ps: seq<Point>)
    requires i < |m.series|
    ensures Heals(m, Push(WalAppendBatch(m, m.series[i].name, ps), i, ps))
  {
    hide WalAppendAll, BatchEntries;
    AppendAllHeals(m, BatchEntries(m.series[i].name, ps));
  }

  lemma PointHeals(m: Model, i: nat, p: Point)
    requires i < |m.series|
    ensures Heals(m, Push(WalAppendPoint(m, m.series[i].name, p), i, [p]))
  {
    hide LogSize, Entry.Size;
  }

  lemma EnforceHeals(m: Model)
    ensures Heals(m, Enforce(m).0)
    ensures Enforce(m).0.torn == m.torn && Enforce(m).0.kept == m.kept && Enforce(m).0.log == m.log
    ensures Enforce(m).0.pending == m.pending
  {
    hide TotalSize, SortedCandidates, Doomed, Tracked, RemoveFiles, RebuildTouched;
  }

  lemma FlushHeals(m: Model, i: nat)
    requires i < |m.series|
    ensures Heals(m, Flush(m, i).0) && Heals(m, MakeRoom(m, i).0)
    ensures m.pending == [] ==> Flush(m, i).0.pending == []
  {
    hide Enforce, WriteBlock, BufferEntries;
    EnforceHeals(TruncateLog(WriteBlock(m, i)));
  }

  lemma FlushAllHeals(m: Model)
    ensures FlushAll(m).0.torn == [] && FlushAll(m).0.kept == 0 && FlushAll(m).0.pending == []
  {
    hide Enforce, WriteBlocks, BufferEntries;
    EnforceHeals(TruncateLog(WriteBlocks(m, |m.series|)));
  }

  lemma {:induction false} BatchHeals(m: Model, i: nat, ps: seq<Point>)
    requires i < |m.series|
    ensures Heals(m, AppendBatch(m, i, ps).0)
    decreases |ps|
  {
    hide MakeRoom, WalAppendBatch, Chunk, Heals;
    if ps == [] {
      SelfHeals(m);
    } else {
      FlushHeals(m, i);
      var (m1, st) := MakeRoom(m, i);
      var n := Chunk(m1, i, |ps|);
      ChunkAtMost(m1, i, |ps|);
      if st == Ok && n > 0 {
        LogHeals(m1, i, ps[..n]);
        var m2 := Push(WalAppendBatch(m1, m1.series[i].name, ps[..n]), i, ps[..n]);
        HealsTransitive(m, m1, m2);
        BatchHeals(m2, i, ps[n..]);
        HealsTransitive(m, m2, AppendBatch(m2, i, ps[n..]).0);
      }
    }
  }

  lemma SelfHeals(m: Model)
    ensures Heals(m, m)
  {}

  lemma AppendStepHeals(m: Model, op: Op)
    requires op.Append? || op.AppendMany?
    ensures Heals(m, Step(m, op))
  {
    hide MakeRoom, WalAppendPoint, AppendBatch, Heals, Find, Push;
    SelfHeals(m);
    var i := Find(m.series, op.name);
    if i < |m.series| {
      match op
      case Append(_, p) =>
        FlushHeals(m, i);
        PointHeals(MakeRoom(m, i).0, i, p);
        var m1 := MakeRoom(m, i).0;
        HealsTransitive(m, m1, Push(WalAppendPoint(m1, m1.series[i].name, p), i, [p]));
      case AppendMany(_, ps) => BatchHeals(m, i, ps);
    }
  }

  lemma DeleteStepHeals(m: Model, op: Op)
    requires op.Delete? || op.DeleteOld?
    ensures Heals(m, Step(m, op)) && (m.pending == [] ==> Step(m, op).pending == [])
  {
    hide Flush, FlushAll, Rebuild, Expired, Find;
    var i := Find(m.series, op.name);
    FlushAllHeals(m);
    if i < |m.series| {
      FlushHeals(m, i);
    }
  }

  lemma SettingStepHeals(m: Model, op: Op)
    requires op.Configure? || op.SetQuota? || op.EnforceQuota? || op.Create?
    ensures Heals(m, Step(m, op)) && (m.pending == [] || Saves(op) ==> Step(m, op).pending == [])
  {
    hide Enforce, Rebuild, Find;
    EnforceHeals(WalFlush(m));
  }

  lemma RestartTorn(m: Model, op: Op)
    requires Inv(m) && Enabled(m, op) && Ends(op)
    ensures TearOk(Step(m, op)) && Step(m, op).pending == []
    ensures op.CloseOpen? ==> Step(m, op).torn == []
    ensures (op.Kill? || op.Halt?) && m.torn == [] ==> Step(m, op).torn == []
  {
    hide Inv, Open, FlushAll, Visible, PointsFor, BufferOf, StoredPoints, Written, LogBytes, Legible, Records, InFlight,
         Recoverable;
    match op
    case CloseOpen(listing) =>
      FlushAllOk(m);
      CrashRecovers(FlushAll(m).0, listing);
      CrashAfterClose(FlushAll(m).0, listing);
    case Kill(listing) => CrashRecovers(m, listing);
    case Tear(_, _, _, _) => TearOpened(m, op);
    case Halt(_, _) => HaltOpened(m, op);
  }

  lemma HaltOpened(m: Model, op: Op)
    requires Inv(m) && op.Halt? && Enabled(m, op)
    ensures TearOk(Step(m, op)) && Step(m, op).pending == [] && (m.torn == [] ==> Step(m, op).torn == [])
  {
    hide Inv, Half, Visible, PointsFor, StoredPoints, LogBytes, Legible, Recoverable, Flushing, SpecStep, ViewOf, Crash,
         Lists, SameShape, SameVisible;
    HaltStep(m, op);
    match op.part {
      case One(name) => HalfOne(m, name);
      case First(count) => HalfFirst(m, count);
    }
    HalfTorn(m, Half(m, op.part));
  }

  lemma HalfTorn(m: Model, w: Model)
    requires BeforeTruncate(m, w)
    ensures m.torn == [] ==> Unreachable(w) == []
  {
    hide RegistryOk, SameVisible, SameShape, BufferOf;
  }

  lemma TearOpened(m: Model, op: Op)
    requires Inv(m) && op.Tear? && Enabled(m, op)
    ensures TearOk(Step(m, op)) && Step(m, op).pending == []
  {
    hide Inv, Open, Visible, PointsFor, StoredPoints, Written, LogBytes, Legible, Records, InFlight, Recoverable, Find,
         Unreachable;
    var i, es := Find(m.series, op.name), op.records;
    if i < |m.series| {
      InFlightRecords(m, i, op.name, es);
      InFlightFits(m, i, op.name, es);
      CrashInAppend(m, i, es, PointsFor(es, op.name), op.cut, op.listing);
    } else {
      NothingInFlight(m, op.name, es);
      assert m.pending + es == m.pending;
      AheadOfItself(m);
      CrashWhileLogging(m, m, [], op.cut, op.listing);
    }
    hide Crash;
  }

  lemma AheadOfItself(m: Model)
    ensures Ahead(m, m, m.pending + [])
  {
    assert m.pending + [] == m.pending;
  }

  lemma StrictSaved(m: Model)
    requires Inv(m)
    ensures m.durability.Strict? ==> m.pending == []
  {
    hide RegistryOk, Mirror;
  }

  /**
   * No call moves the torn record, if there is one: it stays where it is until the log is rewritten. Only appends leave
   * records in memory, and not in STRICT mode.
   */
  lemma StepIntact(m: Model, op: Op)
    requires Inv(m) && Enabled(m, op)
    ensures LogStep(LogOf(m), op, Step(m, op).durability, LogOf(Step(m, op)))
    ensures TearOk(m) ==> TearOk(Step(m, op))
    ensures !Ends(op) ==> Heals(m, Step(m, op))
  {
    hide Inv, Enabled, Flush, FlushAll, Reopen, Crash, AppendPoint, AppendBatch, DeleteBefore, DeleteSeries, Find,
         Enforce, AddSeries, Written, Half, WalFlush;
    StepKeepsInv(m, op);
    StrictSaved(Step(m, op));
    match op
    case Create(_) => SettingStepHeals(m, op);
    case Append(_, _) => AppendStepHeals(m, op);
    case AppendMany(_, _) => AppendStepHeals(m, op);
    case FlushSeries(name) =>
      if Find(m.series, name) < |m.series| {
        FlushHeals(m, Find(m.series, name));
      }
    case FlushEverything => FlushAllHeals(m);
    case Delete(_) => DeleteStepHeals(m, op);
    case DeleteOld(_, _) => DeleteStepHeals(m, op);
    case Configure(_) => SettingStepHeals(m, op);
    case SetQuota(_) => SettingStepHeals(m, op);
    case EnforceQuota => SettingStepHeals(m, op);
    case CloseOpen(_) => RestartTorn(m, op);
    case Kill(_) => RestartTorn(m, op);
    case Tear(_, _, _, _) => RestartTorn(m, op);
    case Halt(_, _) => RestartTorn(m, op);
  }

  // ---------------------------------------------------------------- all runs

  /** Safety over whole runs, whatever quotas are set: the invariant holds after every call. */
  lemma {:induction false} RunKeepsInv(m: Model, ops: seq<Op>)
    requires Inv(m) && EnabledRun(m, ops)
    ensures Inv(Run(m, ops))
    decreases |ops|
  {
    hide Inv, Step, Enabled;
    if ops != [] {
      StepKeepsInv(m, ops[0]);
      RunKeepsInv(Step(m, ops[0]), ops[1..]);
    }
  }

  lemma ViewMode(m: Model)
    ensures ViewOf(m).durability == m.durability
  {
    hide Visible;
  }

  /**
   * Whole-engine refinement. Without a quota, every run of creates, appends, batches, flushes, mode changes, deletes,
   * closes and crashes, torn ones included, is a run of the specification: a map from series name to its accepted
   * points in order.
   */
  lemma {:induction false} RunRefines(m: Model, ops: seq<Op>)
    requires Inv(m) && EnabledRun(m, ops) && m.quota == 0 && !m.exceeded
    requires forall k :: 0 <= k < |ops| ==> QuotaFree(ops[k])
    ensures SpecRun(ViewOf(m), LogOf(m), ops, ViewOf(Run(m, ops)))
    decreases |ops|
  {
    hide Inv, Step, Enabled, ViewOf, SpecStep, LogStep;
    if ops != [] {
      StepKeepsInv(m, ops[0]);
      StepRefines(m, ops[0]);
      StepIntact(m, ops[0]);
      ViewMode(Step(m, ops[0]));
      RunRefines(Step(m, ops[0]), ops[1..]);
    }
  }

  /** An empty directory opens to an empty database, so both theorems hold of every database from its creation on. */
  lemma EmptyDatabase()
    ensures var m := Open(map[], [], [], []);
            Inv(m) && m.torn == [] && m.quota == 0 && !m.exceeded && ViewOf(m) == View(map[], Strict)
  {
    hide StoredPoints;
    var m := Open(map[], [], [], []);
    assert Openable(map[], []) && Lists([], map[]);
    OpenOk(map[], [], [], []);
    assert m == Fresh(map[], [], []);
    hide Open;
  }
}
