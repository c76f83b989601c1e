/** Calls on an open database: the running program takes exactly the steps the theorems about runs speak of. */
module Api {
  import opened Wire
  import opened Config
  import opened Codec
  import opened Segments
  import opened WalFormat
  import opened State
  import opened Quota
  import opened Engine
  import opened Invariants
  import opened Recovery
  import opened Runs
  import opened Damage
  import opened Shelves
  import opened Query
  import opened Windows
  import opened SeriesIndex
  import opened Store

  /** One call that does not end the process. Appends are refused while the quota is exceeded. */
  method Perform(db: Database, op: Op) returns (st: Status)
    requires db.Valid() && !Ends(op)
    modifies db.Repr()
    ensures db.Valid() && fresh(db.Repr() - old(db.Repr()))
    ensures db.m == Step(old(db.m), op) && st == Outcome(old(db.m), op)
    ensures op.Configure? || op.EnforceQuota? ==>
              db.disk.wal == old(db.disk.wal) + old(db.walBuffer) && db.walBuffer == []
    ensures RegistryOk(old(db.m)) && op.EnforceQuota? && db.quota != 0 ==>
              (st == Ok <==> DiskBytes(db.disk.wal, db.disk.dirs, Names(db.m.series)) <= db.quota)
  {
    hide Database.Valid, AppendPoint, AppendBatch, Flush, FlushAll, DeleteBefore, DeleteSeries, AddSeries, Enforce,
         DiskBytes, Names;
    st := Ok;
    match op
    case Create(name) =>
      db.AddSeries(name);
    case Append(name, p) =>
      st := AppendPointTo(db, name, p);
    case AppendMany(name, ps) =>
      st := AppendPointsTo(db, name, ps);
    case FlushSeries(name) =>
      st := FlushNamed(db, name);
    case FlushEverything =>
      st := db.FlushAll();
    case Configure(d) =>
      db.SetDurability(d);
    case SetQuota(limit) =>
      db.SetQuota(limit);
    case EnforceQuota =>
      db.FlushLog();
      st := db.EnforceQuota();
    case Delete(name) =>
      st := db.DeleteSeries(name);
    case DeleteOld(name, t) =>
      st := DeleteOldOf(db, name, t);
  }

  method AppendPointTo(db: Database, name: Name, p: Point) returns (st: Status)
    requires db.Valid()
    modifies db.Repr()
    ensures db.Valid() && db.series == old(db.series)
    ensures db.m == Step(old(db.m), Append(name, p)) && st == Outcome(old(db.m), Append(name, p))
  {
    hide Database.Valid, AppendPoint, AppendBatch, Flush, DeleteBefore, Find;
    db.SettingsAgree();
    if db.exceeded {
      return QuotaExceeded;
    }
    var i := db.FindSeries(name);
    if i == |db.series| {
      return NotFound;
    }
    st := db.AppendOne(i, p);
  }

  method AppendPointsTo(db: Database, name: Name, ps: seq<Point>) returns (st: Status)
    requires db.Valid()
    modifies db.Repr()
    ensures db.Valid() && db.series == old(db.series)
    ensures db.m == Step(old(db.m), AppendMany(name, ps)) && st == Outcome(old(db.m), AppendMany(name, ps))
  {
    hide Database.Valid, AppendPoint, AppendBatch, Flush, DeleteBefore, Find;
    if |ps| == 0 {
      return Ok;
    }
    db.SettingsAgree();
    if db.exceeded {
      return QuotaExceeded;
    }
    var i := db.FindSeries(name);
    if i == |db.series| {
      return NotFound;
    }
    st := db.AppendChunks(i, ps);
  }

  method FlushNamed(db: Database, name: Name) returns (st: Status)
    requires db.Valid()
    modifies db.Repr()
    ensures db.Valid() && db.series == old(db.series)
    ensures db.m == Step(old(db.m), FlushSeries(name)) && st == Outcome(old(db.m), FlushSeries(name))
  {
    hide Database.Valid, AppendPoint, AppendBatch, Flush, DeleteBefore, Find;
    var i := db.FindSeries(name);
    if i == |db.series| {
      return NotFound;
    }
    st := db.Flush(i);
  }

  method DeleteOldOf(db: Database, name: Name, t: i64) returns (st: Status)
    requires db.Valid()
    modifies db.Repr()
    ensures db.Valid() && db.series == old(db.series)
    ensures db.m == Step(old(db.m), DeleteOld(name, t)) && st == Outcome(old(db.m), DeleteOld(name, t))
  {
    hide Database.Valid, AppendPoint, AppendBatch, Flush, DeleteBefore, Find;
    var i := db.FindSeries(name);
    if i == |db.series| {
      return NotFound;
    }
    st := db.DeleteBefore(i, t);
  }

  // ---------------------------------------------------------------- restarts and whole runs

  /**
   * A close, a crash, or a crash while records are being logged or in the middle of a flush, and the open after it by a
   * new process on what is left on the disk. The open fails exactly when it meets a damaged record behind the last one
   * it can read.
   */
  method Restart(db: Database, op: Op) returns (next: Database?)
    requires db.Valid() && Inv(db.m) && Ends(op) && Restartable(db.m, op)
    requires ParseLog(Unreachable(Dead(db.m, op))).entries == []
    modifies db.Repr()
    ensures next == null <==> ParseLog(Unreachable(Dead(old(db.m), op))).end.Damaged?
    ensures next == null <==> !Enabled(old(db.m), op)
    ensures next != null ==> next.disk == db.disk && fresh(next.Repr() - {db.disk}) && next.Valid()
    ensures next != null ==> next.m == Step(old(db.m), op)
  {
    hide Database.Valid, Inv, Engine.FlushAll, Crash, Lists, LogBytes, Written, InFlight, AllRoom, ParseLog,
         Unreachable, Legible, Enabled, Reopen, Half;
    ghost var m, w := db.m, Dead(db.m, op);
    db.TearAgrees();
    RestartDead(m, op);
    if op.CloseOpen? {
      var st := db.FlushAll();
      db.FilesAgree();
    } else if op.Halt? {
      FlushPart(db, op.part);
      db.FilesAgree();
    } else {
      db.FilesAgree();
      if op.Tear? {
        db.LogCut(op.records, op.cut);
      }
    }
    next := OnDisk(db.disk, op.listing, w);
  }

  /** The part of a flush that is done before the log is truncated. */
  method FlushPart(db: Database, part: Part)
    requires db.Valid() && (part.First? ==> part.count <= |db.m.series|)
    modifies db.Repr()
    ensures db.Valid() && db.series == old(db.series) && db.m == Half(old(db.m), part)
  {
    hide Database.SeriesHold, LogHolds, DirsHold, Registered, WriteBlock, Find;
    db.SeriesCount();
    match part {
      case One(name) =>
        var i := db.FindSeries(name);
        if i < |db.series| {
          db.FlushBuffer(i);
        }
      case First(count) =>
        for i := 0 to count
          invariant db.Valid() && db.series == old(db.series)
          invariant count <= |old(db.m).series| == |db.series| && db.m == WriteBlocks(old(db.m), i)
        {
          db.FlushBuffer(i);
        }
    }
  }

  /** What a restart needs to know of the files it finds. */
  lemma RestartDead(m: Model, op: Op)
    requires Inv(m) && TearOk(m) && Ends(op) && Restartable(m, op)
    requires ParseLog(Unreachable(Dead(m, op))).entries == []
    ensures var w := Dead(m, op);
            && TearOk(w) && AllWellFormed(Recoverable(w)) && Step(m, op) == Crash(w, op.listing)
            && (Enabled(m, op) <==> !ParseLog(Unreachable(w)).end.Damaged?)
            && (op.Kill? || op.Tear? ==> w.dirs == m.dirs)
            && (op.Kill? ==> w == m)
            && (op.Tear? ==> WalBytes(w) == WalBytes(m) + LogBytes(m.pending + op.records)[..op.cut])
  {
    hide Inv, Engine.FlushAll, Crash, LogBytes, Written, InFlight, AllRoom, ParseLog, Unreachable, Legible, Enabled,
         Recoverable, Entry.WellFormed, Visible, WalBytes, Half, Flushing;
    EnabledIffLegible(m, op);
    if op.CloseOpen? {
      FlushAllOk(m);
      CrashAfterClose(Dead(m, op), op.listing);
      JournalWellFormed(Dead(m, op));
    } else if op.Halt? {
      HalfFile(m, op.part);
    } else {
      DeadFiles(m, op);
    }
    OpensUnlessDamaged(Dead(m, op));
  }

  method OnDisk(disk: Disk, listing: seq<Name>, ghost w: Model) returns (next: Database?)
    requires disk.wal == WalBytes(w) && TearOk(w) && DirsHold(disk.dirs, w.dirs)
    requires AllWellFormed(Recoverable(w)) && ParseLog(Unreachable(w)).entries == []
    modifies disk
    ensures next == null <==> ParseLog(Unreachable(w)).end.Damaged?
    ensures next != null ==> next.disk == disk && fresh(next.Repr() - {disk}) && next.Valid()
    ensures next != null ==> next.m == Crash(w, listing)
  {
    hide Database.Valid, DirsHold, Registered, Open, AllWellFormed, ParseLog, LogBytes, WalBytes, Recoverable,
         Unreachable;
    FileSplits(w);
    next := Database.Open(disk, listing, w.dirs, Recoverable(w), Unreachable(w));
  }

  /**
   * The first append after an open that left a torn record in the log, followed by a crash, in the default durability
   * mode. The appended point is never seen again: the next open either stops at the torn record or fails, and it fails
   * exactly when the torn record and the new one together reach the end of the record that the torn one announces.
   */
  method AppendBehindTear(db: Database, name: Name, p: Point, listing: seq<Name>, ghost e: Entry, ghost tear: nat)
    returns (next: Database?)
    requires db.Valid() && Inv(db.m) && !db.m.exceeded && db.m.durability.Strict? && db.m.kept == |db.m.log|
    requires Lists(listing, db.m.dirs) && name in db.m.dirs && |BufferOf(db.m.series, name)| < BLOCK_MAX_POINTS
    requires e.WellFormed() && 0 < tear < e.Size() && tear <= |EntryBytes(e)|
    requires db.m.torn == EntryBytes(e)[..tear]
    requires tear < 8 || !Sealed(EntryBytes(e)[..tear] + EntryBytes(PointV3(name, p)))
    modifies db.Repr()
    ensures var joined := EntryBytes(e)[..tear] + EntryBytes(PointV3(name, p));
            && (next == null <==> !Inside(joined))
            && (tear >= PREFIX_SIZE ==> (next == null <==> |joined| >= e.Size()))
    ensures next != null ==>
              next.Valid() && forall n: Name :: Visible(next.m, n) == Visible(old(db.m), n)
  {
    hide Database.Valid, Inv, EntryBytes, Inside, Sealed, Visible, Lists, Step, Enabled, Entry.WellFormed;
    ghost var m := db.m;
    AppendKillDies(m, name, p, listing, e, tear);
    var st := Perform(db, Append(name, p));
    next := Restart(db, Kill(listing));
  }

  lemma AppendKillDies(m: Model, name: Name, p: Point, listing: seq<Name>, e: Entry, tear: nat)
    requires Inv(m) && TearOk(m) && !m.exceeded && m.durability.Strict? && m.kept == |m.log|
    requires Lists(listing, m.dirs) && name in m.dirs && |BufferOf(m.series, name)| < BLOCK_MAX_POINTS
    requires e.WellFormed() && 0 < tear < e.Size() && tear <= |EntryBytes(e)| && m.torn == EntryBytes(e)[..tear]
    requires tear < 8 || !Sealed(EntryBytes(e)[..tear] + EntryBytes(PointV3(name, p)))
    ensures var m', joined := Step(m, Append(name, p)), EntryBytes(e)[..tear] + EntryBytes(PointV3(name, p));
            && Inv(m') && Restartable(m', Kill(listing)) && ParseLog(Unreachable(m')).entries == []
            && (ParseLog(Unreachable(m')).end.Damaged? <==> !Inside(joined))
            && (tear >= PREFIX_SIZE ==> (!Inside(joined) <==> |joined| >= e.Size()))
            && forall n: Name :: Visible(Step(m', Kill(listing)), n) == Visible(m, n)
  {
    hide EntryBytes, LogBytes, ParseLog, Inside, Sealed, Lists, AppendPoint, Recoverable, Unreachable, StoredPoints,
         PointsFor, RegistryOk, Open, Entry.Size, WalBytes, Visible, AllWellFormed;
    FoundInvariant(m, name);
    var i, first := Find(m.series, name), PointV3(name, p);
    var m', joined := Step(m, Append(name, p)), EntryBytes(e)[..tear] + EntryBytes(first);
    AppendPointOk(m, i, p);
    AppendedBehindTear(m, i, p);
    JournalWellFormed(m);
    assert EntryBytes(first) + [] == EntryBytes(first);
    LoggedBehindTear(m', e, tear, first, []);
    OpensUnlessDamaged(m');
    CrashShows(m, m', listing);
  }

  /** What a crash leaves visible when nothing logged since can be reached. */
  lemma CrashShows(m: Model, m': Model, listing: seq<Name>)
    requires Inv(m) && Inv(m') && m.pending == [] && m'.dirs == m.dirs && Recoverable(m') == m.log
    requires Lists(listing, m.dirs)
    ensures forall n: Name :: Visible(Crash(m', listing), n) == Visible(m, n)
  {
    hide Lists, Recoverable, Unreachable, StoredPoints, PointsFor, RegistryOk, Open, AllWellFormed, BufferOf;
    CrashRecovers(m', listing);
    assert Journal(m) == m.log + [] == m.log;
    hide Crash;
    forall n: Name
      ensures Visible(Crash(m', listing), n) == Visible(m, n)
    {
      MirrorAt(m, n);
    }
  }

  /** Opening a directory that does not exist yet gives a database every run may start from. */
  method CreateDatabase() returns (db: Database)
    ensures fresh(db.Repr()) && db.Valid() && Inv(db.m) && db.m.torn == []
    ensures db.m.quota == 0 && !db.m.exceeded && ViewOf(db.m) == View(map[], Strict)
  {
    hide Database.Valid, Inv, ViewOf, Open;
    var disk := new Disk();
    EmptyLog();
    NothingOnDisk();
    var created := Database.Open(disk, [], map[], [], []);
    EmptyDatabase();
    db := created;
  }

  lemma NothingOnDisk()
    ensures LogBytes([]) + [] == [] && AllWellFormed([]) && DirsHold(map[], map[])
  {}

  /**
   * Runs a list of calls on a database, across closes and crashes, torn ones included. The invariant holds at the end,
   * the final state is the one the state machine reaches, and every call has had the effect the specification allows:
   * exactly, without a quota, and but for what cleanups delete, with one. The size that cleanups go by is that of the
   * files on the disk.
   */
  method Execute(db: Database, ops: seq<Op>) returns (last: Database)
    requires db.Valid() && Inv(db.m) && EnabledRun(db.m, ops)
    modifies db.Repr()
    ensures last.Valid() && Inv(last.m) && last.m == Run(old(db.m), ops)
    ensures old(db.m).quota == 0 && !old(db.m).exceeded && (forall k :: 0 <= k < |ops| ==> QuotaFree(ops[k])) ==>
              SpecRun(ViewOf(old(db.m)), LogOf(old(db.m)), ops, ViewOf(last.m))
    ensures QuotaRun(HoldingsOf(old(db.m)), LogOf(old(db.m)), ops, Outcomes(old(db.m), ops), HoldingsOf(last.m))
    ensures HoldingsOf(old(db.m)).size == old(DiskBytes(db.disk.wal, db.disk.dirs, Names(db.m.series)))
    ensures HoldingsOf(last.m).size == DiskBytes(last.disk.wal, last.disk.dirs, Names(last.m.series))
  {
    hide Database.Valid, Inv, Step, Enabled, ViewOf, SpecRun, ParseLog, Unreachable, Dead, Restartable, Outcome, TearOk,
         QuotaRun, Outcomes, HoldingsOf, DiskBytes;
    last := db;
    ghost var start := db.m;
    RunEffects(start, ops);
    SizeHeld(db);
    assert ops[0..] == ops;
    for k := 0 to |ops|
      invariant last.Valid() && fresh(last.Repr() - old(db.Repr()))
      invariant Inv(last.m) && EnabledRun(last.m, ops[k..]) && Run(start, ops) == Run(last.m, ops[k..])
    {
      var op := ops[k];
      assert ops[k..][1..] == ops[k + 1..] && ops[k..][0] == op;
      StepKeepsInv(last.m, op);
      if Ends(op) {
        last.TearAgrees();
        EnabledOpens(last.m, op);
        var next := Restart(last, op);
        last := next;
      } else {
        var st := Perform(last, op);
      }
    }
    assert ops[|ops|..] == [];
    SizeHeld(last);
  }

  /** The size in the specification is that of the files on the disk. */
  lemma SizeHeld(db: Database)
    requires db.Valid()
    ensures HoldingsOf(db.m).size == DiskBytes(db.disk.wal, db.disk.dirs, Names(db.m.series))
  {
    hide Database.SeriesHold, Database.SettingsHold, LogHolds, DirsHold, Registered, DiskBytes;
    HoldingsSettings(db.m);
    SizeOnDisk(db.disk.wal, db.walBuffer, db.disk.dirs, db.m);
  }

  lemma RunEffects(m: Model, ops: seq<Op>)
    requires Inv(m) && EnabledRun(m, ops)
    ensures Inv(Run(m, ops))
    ensures m.quota == 0 && !m.exceeded && (forall k :: 0 <= k < |ops| ==> QuotaFree(ops[k])) ==>
              SpecRun(ViewOf(m), LogOf(m), ops, ViewOf(Run(m, ops)))
    ensures QuotaRun(HoldingsOf(m), LogOf(m), ops, Outcomes(m, ops), HoldingsOf(Run(m, ops)))
  {
    hide Inv, Run, EnabledRun, ViewOf, SpecRun, QuotaRun, Outcomes;
    RunKeepsInv(m, ops);
    RunCleansUp(m, ops);
    if m.quota == 0 && !m.exceeded && forall k :: 0 <= k < |ops| ==> QuotaFree(ops[k]) {
      RunRefines(m, ops);
    }
  }

  lemma EnabledOpens(m: Model, op: Op)
    requires TearOk(m) && Ends(op) && Enabled(m, op)
    ensures Restartable(m, op) && ParseLog(Unreachable(Dead(m, op))).entries == []
  {
    hide Engine.FlushAll, Written, LogBytes, InFlight, Lists, AllRoom, ParseLog, Enabled;
    EnabledIffLegible(m, op);
    EmptyLog();
  }

  // ---------------------------------------------------------------- reads

  /** The blocks of a series, in the order its index lists them. */
  ghost function BlocksOf(m: Model, name: Name): seq<Block> {
    AllBlocks(DirOf(m.dirs, name), SortedIds(DirOf(m.dirs, name).Keys))
  }

  /** Through a consistent index a reader reaches exactly the blocks behind the visible points. */
  lemma SeriesReadable(files: Files, s: Series, dir: Directory)
    requires SeriesOk(s, dir) && FilesHold(files, dir)
    ensures Indexed(files, s.index, AllBlocks(dir, SortedIds(dir.Keys)))
    ensures Flatten(AllBlocks(dir, SortedIds(dir.Keys))) == StoredPoints(dir)
  {
    hide FilesHold, FilesOk, Readable;
    assert forall id :: id in s.segmentIds ==> id in dir;
    IndexReadable(files, dir, s.segmentIds);
    BlocksArePoints(dir, s.segmentIds);
  }

  /** The files, index and buffer of a registered series, as every query takes them. */
  method OpenSeries(db: Database, name: Name)
    returns (found: bool, files: Files, index: seq<IndexEntry>, buffer: seq<Point>)
    requires db.Valid() && Inv(db.m)
    ensures found <==> name in db.m.dirs
    ensures found ==> Indexed(files, index, BlocksOf(db.m, name))
    ensures found ==> buffer == BufferOf(db.m.series, name)
    ensures found ==> Flatten(BlocksOf(db.m, name)) + buffer == Visible(db.m, name)
  {
    hide Database.SeriesHold, DirsHold, LogHolds, Mirror, SeriesOk, Indexed, Flatten, StoredPoints, FilesHold;
    FoundInvariant(db.m, name);
    var i := db.FindSeries(name);
    found, files, index, buffer := i < |db.series|, map[], [], [];
    if found {
      db.SeriesAt(i);
      RegistryAt(db.m, i);
      DirAt(db.disk.dirs, db.m.dirs, name);
      files, index, buffer := db.disk.dirs[name], db.series[i].index, db.series[i].buffer[..db.series[i].count];
      SeriesReadable(files, db.m.series[i], db.m.dirs[name]);
    }
  }

  /** A range read delivers the visible points of [from, to] in order, up to the first callback that asks to stop. */
  method Read(db: Database, name: Name, from: i64, to: i64, stop: seq<Point> -> bool)
    returns (found: bool, status: ReadStatus, emitted: seq<Point>)
    requires db.Valid() && Inv(db.m)
    ensures found <==> name in db.m.dirs
    ensures found && from > to ==> status == InvalidArgument && emitted == []
    ensures found && from <= to ==>
              status == ReadOk && emitted == Delivered([], InRange(Visible(db.m, name), from, to), stop)
  {
    hide Database.Valid, Inv, Visible, BlocksOf, Delivered, InRange, Indexed;
    var files, index, buffer;
    found, files, index, buffer := OpenSeries(db, name);
    status, emitted := InvalidArgument, [];
    if found {
      status, emitted := ReadRange(files, index, buffer, from, to, stop, BlocksOf(db.m, name));
    }
  }

  /** The blocks and points that an aggregate over [from, to] adds up. */
  ghost function PiecesOf(m: Model, name: Name, from: i64, to: i64): seq<Piece> {
    QueryPieces(BlocksOf(m, name), BufferOf(m.series, name), from, to)
  }

  /**
   * An aggregate over [from, to]. The count is that of the visible points. Minimum and maximum are those of the visible
   * points too, unless a covered block starts with a NaN, which hides its other values. The sum is the rounded total of
   * the covered headers and the other points, and the exact sum when no addition had to round; then the average is the
   * exact one, rounded once.
   */
  method AggregateSeries(db: Database, name: Name, from: i64, to: i64, kind: AggregateType)
    returns (found: bool, answer: Answer)
    requires db.Valid() && Inv(db.m)
    ensures found <==> name in db.m.dirs
    ensures found ==>
              answer == if from > to then Invalid
                        else
                          var pieces := PiecesOf(db.m, name, from, to);
                          AnswerOf(InRange(Visible(db.m, name), from, to), ShownBy(pieces), kind, Total(pieces).sum)
    ensures found && from <= to ==>
              var pieces := PiecesOf(db.m, name, from, to);
              Answers(answer, InRange(Visible(db.m, name), from, to), kind, NoLeadingNaN(pieces), ExactPieces(pieces))
  {
    hide Database.Valid, Inv, Visible, BlocksOf, AnswerOf, InRange, Indexed, QueryPieces, ExactPieces, Total, BufferOf,
         ShownBy, NoLeadingNaN, Answers;
    var files, index, buffer;
    found, files, index, buffer := OpenSeries(db, name);
    answer := Invalid;
    if found {
      answer := AggregateQuery(files, index, buffer, from, to, kind, BlocksOf(db.m, name));
    }
  }

  /** A windowed aggregate is the list of non-empty windows over the visible points. */
  method AggregateSeriesWindowed(db: Database, name: Name, start: i64, end: i64, width: i64)
    returns (found: bool, status: ReadStatus, result: array<WindowAggregate>)
    requires db.Valid() && Inv(db.m)
    ensures fresh(result) && (found <==> name in db.m.dirs)
    ensures found ==>
              match WindowCount(start, end, width)
              case None => status == InvalidArgument && result[..] == []
              case Some(count) =>
                && status == ReadOk && Served(start, end, width, count)
                && result[..]
                   == Entries(BlocksOf(db.m, name), BufferOf(db.m.series, name), start, end, width, count, count)
                && TellsAll(result[..], BlocksOf(db.m, name), BufferOf(db.m.series, name), start, end, width, count)
                && Flatten(BlocksOf(db.m, name)) + BufferOf(db.m.series, name) == Visible(db.m, name)
  {
    hide Database.Valid, Inv, Visible, BlocksOf, Entries, WindowCount, Indexed, Served, BufferOf, TellsAll, Flatten;
    var files, index, buffer;
    found, files, index, buffer := OpenSeries(db, name);
    status, result := InvalidArgument, new WindowAggregate[0];
    if found {
      status, result := AggregateWindowed(files, index, buffer, start, end, width, BlocksOf(db.m, name));
    }
  }
}
