/**
 * When a database directory can be opened after a crash (src/storage/wal.c, src/core/db.c). The torn end that a crash
 * leaves in wal.log is not cut off by the next open, and later records are appended behind it.
 */
module Damage {
  import opened Wire
  import opened Config
  import opened Codec
  import opened Segments
  import opened WalFormat
  import opened State
  import opened Engine
  import opened Invariants
  import opened Recovery
  import opened Runs

  /** The end of a process, leaving the condition of the log file aside. */
  ghost predicate Restartable(m: Model, op: Op) {
    match op
    case CloseOpen(listing) => AllRoom(m) && Lists(listing, m.dirs)
    case Kill(listing) => Lists(listing, m.dirs)
    case Tear(name, es, cut, listing) =>
      Lists(listing, m.dirs) && InFlight(m, name, es) && cut <= |LogBytes(m.pending + es)|
    case Halt(part, listing) => Lists(listing, m.dirs) && Flushing(m, part)
    case _ => false
  }

  /** The state whose files the next process finds. */
  ghost function Dead(m: Model, op: Op): Model {
    match op
    case CloseOpen(_) => FlushAll(m).0
    case Tear(_, es, cut, _) => Written(m, m.pending + es, cut)
    case Halt(part, _) => Half(m, part)
    case _ => m
  }

  /** A replay of wal.log. */
  function Found(m: Model): Replay {
    ParseLog(WalBytes(m))
  }

  lemma FileSplits(m: Model)
    requires TearOk(m)
    ensures WalBytes(m) == LogBytes(Recoverable(m)) + Unreachable(m)
  {
    hide LogBytes;
    if m.torn == [] {
      WholeFile(m);
      assert LogBytes(m.log) + [] == LogBytes(m.log);
    } else {
      Associative(LogBytes(m.log[..m.kept]), m.torn, LogBytes(m.log[m.kept..]));
    }
  }

  /** The records in front of a torn one are found whatever comes behind it; the rest decides how the replay ends. */
  lemma FileReplays(m: Model)
    requires TearOk(m) && AllWellFormed(Recoverable(m))
    ensures var rest := ParseLog(Unreachable(m)); Found(m) == Replay(Recoverable(m) + rest.entries, rest.end)
    ensures Legible(m) <==> Found(m) == Replay(Recoverable(m), if m.torn == [] then Clean else Torn)
  {
    hide LogBytes, ParseLog, Entry.WellFormed;
    FileSplits(m);
    ParseAfter(Recoverable(m), Unreachable(m));
    EmptyLog();
    var rest := ParseLog(Unreachable(m));
    hide WalBytes, Recoverable;
    assert Recoverable(m) + [] == Recoverable(m);
    NothingParsed(Recoverable(m), rest.entries);
  }

  lemma OpensUnlessDamaged(m: Model)
    requires TearOk(m) && ParseLog(Unreachable(m)).entries == []
    ensures Legible(m) <==> !ParseLog(Unreachable(m)).end.Damaged?
  {
    EmptyLog();
    hide LogBytes;
    if m.torn != [] {
      NotClean(Unreachable(m));
    }
  }

  lemma NotClean(wal: seq<byte>)
    requires wal != [] && ParseLog(wal).entries == []
    ensures !ParseLog(wal).end.Clean?
  {
    hide ParseEntry, Word32At;
  }

  /** A run may go on after a restart exactly when the log file it leaves can be opened. */
  lemma EnabledIffLegible(m: Model, op: Op)
    requires TearOk(m) && Ends(op)
    ensures Enabled(m, op) <==> Restartable(m, op) && Legible(Dead(m, op))
  {
    hide FlushAll, Written, LogBytes, InFlight, Lists, AllRoom, Half, Flushing;
    FlushAllHeals(m);
  }

  /**
   * As long as no crash has torn the log since it was last rewritten, every close can be survived, and every crash
   * between calls, inside a write of the log, or between the blocks of a flush. (A crash inside a block is another
   * matter, see torn_blocks.dfy.)
   */
  lemma IntactAlwaysOpens(m: Model, op: Op)
    requires Inv(m) && TearOk(m) && m.torn == [] && Restartable(m, op)
    ensures Legible(Dead(m, op)) && Enabled(m, op)
  {
    hide Inv, FlushAll, Written, LogBytes, InFlight, Lists, AllRoom, Legible, Entry.WellFormed, Half, Flushing;
    EnabledIffLegible(m, op);
    match op
    case CloseOpen(_) =>
      FlushAllHeals(m);
      WholeFile(Dead(m, op));
    case Kill(_) => WholeFile(m);
    case Tear(name, es, cut, _) =>
      JournalWellFormed(m);
      InFlightWellFormed(m, name, es);
      WrittenLegible(m, m.pending + es, cut);
    case Halt(part, _) =>
      HalfFile(m, part);
      WholeFile(Half(m, part));
    case _ =>
  }

  /** An interrupted flush has only moved pending records to the log file. */
  lemma HalfFile(m: Model, part: Part)
    requires Inv(m) && TearOk(m) && Flushing(m, part)
    ensures var w := Half(m, part);
            && TearOk(w) && w.torn == m.torn && w.dirs.Keys == m.dirs.Keys && AllWellFormed(Recoverable(w))
  {
    hide Inv, Half, Flushing, BufferOf, AllWellFormed;
    match part {
      case One(name) => HalfOne(m, name);
      case First(count) => HalfFirst(m, count);
    }
    HalfRecords(m, Half(m, part));
  }

  lemma HalfRecords(m: Model, w: Model)
    requires Inv(m) && TearOk(m) && BeforeTruncate(m, w)
    ensures TearOk(w) && w.torn == m.torn && w.dirs.Keys == m.dirs.Keys && AllWellFormed(Recoverable(w))
  {
    hide RegistryOk, SameVisible, BufferOf, PointsFor, Entry.WellFormed;
    assert w.log == w.log + [] == m.log + m.pending;
  }

  lemma JournalWellFormed(m: Model)
    requires Inv(m)
    ensures AllWellFormed(m.log) && AllWellFormed(m.pending) && AllWellFormed(Recoverable(m))
  {
    hide RegistryOk, PointsFor, BufferOf, Entry.WellFormed;
    assert forall k :: 0 <= k < |m.log| ==> m.log[k] == Journal(m)[k];
    assert forall k :: 0 <= k < |m.pending| ==> m.pending[k] == Journal(m)[|m.log| + k];
  }

  lemma InFlightWellFormed(m: Model, name: Name, es: seq<Entry>)
    requires AllWellFormed(m.pending) && InFlight(m, name, es)
    ensures AllWellFormed(m.pending + es)
  {
    hide PointsFor, Entry.WellFormed;
  }

  /** The files a crash leaves hold well-formed records in front of the tear, and the bytes that were written. */
  lemma DeadFiles(m: Model, op: Op)
    requires Inv(m) && TearOk(m) && Restartable(m, op) && (op.Kill? || op.Tear?)
    ensures var w := Dead(m, op);
            && TearOk(w) && w.dirs == m.dirs && AllWellFormed(Recoverable(w))
            && WalBytes(w) == WalBytes(m) + if op.Tear? then LogBytes(m.pending + op.records)[..op.cut] else []
  {
    hide Inv, Written, LogBytes, InFlight, Lists, Entry.WellFormed, WalBytes, Recoverable;
    JournalWellFormed(m);
    assert WalBytes(m) + [] == WalBytes(m);
    if op.Tear? {
      InFlightWellFormed(m, op.name, op.records);
      WrittenFile(m, m.pending + op.records, op.cut);
    }
  }

  lemma WrittenFile(m: Model, es: seq<Entry>, cut: nat)
    requires TearOk(m) && AllWellFormed(m.log) && AllWellFormed(es) && cut <= |LogBytes(es)|
    ensures var w := Written(m, es, cut);
            && TearOk(w) && w.dirs == m.dirs && AllWellFormed(Recoverable(w))
            && WalBytes(w) == WalBytes(m) + LogBytes(es)[..cut]
  {
    hide LogBytes, Written, Entry.WellFormed, WalBytes;
    if m.torn == [] {
      WrittenLegible(m, es, cut);
    } else {
      WrittenBehind(m, es, cut);
    }
    hide Recoverable;
    assert m.torn != [] ==> Recoverable(m) <= m.log by {
      RecoverablePrefix(m);
    }
  }

  /**
   * A record behind a torn one. `torn` is the start of a record that was cut, and more has been logged behind it. The
   * directory can still be opened exactly as long as all bytes behind the last whole record lie inside the record that
   * they announce. From then on every open fails, until the log file is removed. (The one exception is a checksum that
   * agrees by accident with the joined bytes.)
   */
  lemma LoggedBehindTear(m: Model, e: Entry, tear: nat, first: Entry, more: seq<byte>)
    requires TearOk(m) && AllWellFormed(Recoverable(m)) && e.WellFormed() && first.WellFormed()
    requires m.torn != [] && 0 < tear < e.Size() && tear <= |EntryBytes(e)|
    requires Unreachable(m) == EntryBytes(e)[..tear] + (EntryBytes(first) + more)
    requires tear < 8 || !Sealed(Unreachable(m))
    ensures Found(m) == Replay(Recoverable(m), if Inside(Unreachable(m)) then Torn else Damaged)
    ensures Legible(m) <==> Inside(Unreachable(m))
    ensures tear >= PREFIX_SIZE ==> (Legible(m) <==> |Unreachable(m)| < e.Size())
    ensures ParseLog(Unreachable(m)).entries == []
  {
    hide EntryBytes, LogBytes, ParseLog, Entry.WellFormed, Sealed, Inside, Recoverable, Unreachable, WalBytes;
    FileReplays(m);
    AppendedIsReplayedIffWhole([], e, tear, first, more);
    var joined := EntryBytes(e)[..tear] + (EntryBytes(first) + more);
    NoBytes();
    assert LogBytes([]) + joined == joined;
    assert Recoverable(m) + [] == Recoverable(m);
  }

  /** The first point appended after an open that left a torn record in the file, in the default durability mode. */
  lemma AppendedBehindTear(m: Model, i: nat, p: Point)
    requires m.torn != [] && m.kept == |m.log| && m.pending == [] && m.durability.Strict?
    requires i < |m.series| && |m.series[i].buffer| < BLOCK_MAX_POINTS
    ensures var m' := AppendPoint(m, i, p).0;
            && m'.torn == m.torn && m'.kept == m.kept && m'.dirs == m.dirs && TearOk(m')
            && Recoverable(m') == m.log
            && Unreachable(m') == m.torn + EntryBytes(PointV3(m.series[i].name, p))
  {
    hide EntryBytes, LogBytes, LogSize, Entry.Size, Flush;
    var e := PointV3(m.series[i].name, p);
    var m' := AppendPoint(m, i, p).0;
    assert m'.log == m.log + [e] by {
      assert [] + [e] == [e];
    }
    assert m'.log[..m.kept] == m.log && m'.log[m.kept..] == [e];
    assert LogBytes([e]) == EntryBytes(e) by {
      OneRecord(e);
    }
  }

  // ---------------------------------------------------------------- a database that cannot be opened any more

  /**
   * The word a replay takes for a size when a record follows four bytes of another one is the version of the former.
   */
  lemma FourBytesMislead(e: Entry, first: Entry)
    requires e.WellFormed() && first.WellFormed()
    ensures 4 <= |EntryBytes(e)| && !Inside(EntryBytes(e)[..4] + (EntryBytes(first) + []))
  {
    hide EntryBytes, Word32At, Entry.WellFormed;
    SizeFits(e);
    SizeFits(first);
    MagicBytes(first);
    var all := EntryBytes(e)[..4] + (EntryBytes(first) + []);
    Word32Bytes(all, 8);
    var s := EntryBytes(first);
    assert all[8] == s[4] && all[9] == s[5] && all[10] == s[6] && all[11] == s[7];
  }

  /** Four bytes of a record in the log file when the process dies. */
  lemma FourBytesWritten(m: Model, e: Entry, listing: seq<Name>)
    requires Inv(m) && TearOk(m) && m.torn == [] && m.durability.Strict? && Lists(listing, m.dirs) && e.WellFormed()
    ensures 4 <= |EntryBytes(e)|
    ensures Opened(Crash(Written(m, m.pending + [e], 4), listing), m.dirs, m.log, EntryBytes(e)[..4])
  {
    hide EntryBytes, LogBytes, Inv, Lists, Opened, Open, Entry.WellFormed, AllWellFormed;
    StrictIsFlushed(m);
    SizeFits(e);
    OneRecord(e);
    assert m.pending + [e] == [e];
    var w := Written(m, [e], 4);
    NoBytes();
    assert m.log + [e][..0] == m.log && [e][..0] == [];
    assert w == m.(log := m.log, pending := [], torn := EntryBytes(e)[..4], kept := |m.log|);
    TornFile(w);
    hide Written, Recoverable, Unreachable;
    CrashUnfolds(w, listing);
    JournalPrefixOpens(m, m.log);
    OpenOk(m.dirs, m.log, w.torn, listing);
  }

  lemma StrictIsFlushed(m: Model)
    requires Inv(m) && m.durability.Strict?
    ensures m.pending == [] && Journal(m) == m.log
  {
    hide RegistryOk, Mirror;
    assert m.log + [] == m.log;
  }

  /** An open leaves every buffer as it was when nothing was pending. */
  lemma BufferComesBack(m: Model, m1: Model, rest: seq<byte>, name: Name)
    requires Inv(m) && m.durability.Strict? && Opened(m1, m.dirs, m.log, rest)
    ensures BufferOf(m1.series, name) == BufferOf(m.series, name)
  {
    hide RegistryOk, PointsFor, BufferOf, AllWellFormed, StoredPoints;
    StrictIsFlushed(m);
    assert Journal(m1) == m.log + [] == m.log;
    MirrorAt(m, name);
    MirrorAt(m1, name);
  }

  /**
   * No accident is needed. From every intact state in the default mode: the process dies when four bytes of an append
   * have reached the log, the directory opens again, one more point is appended, the process dies, and now the replay
   * meets a damaged record. No open succeeds any more.
   */
  lemma TornThenDamaged(m: Model, name: Name, p: Point, q: Point, listing: seq<Name>)
    requires Inv(m) && TearOk(m) && m.torn == [] && m.durability.Strict? && Lists(listing, m.dirs)
    requires name in m.dirs && |BufferOf(m.series, name)| < BLOCK_MAX_POINTS
    ensures var tear, append := Tear(name, [PointV3(name, p)], 4, listing), Append(name, q);
            var m1 := Step(m, tear);
            var m2 := Step(m1, append);
            && Enabled(m, tear) && Enabled(m1, append) && Outcome(m1, append) == Ok
            && Restartable(m2, Kill(listing)) && !Enabled(m2, Kill(listing)) && Found(m2).end.Damaged?
  {
    hide EntryBytes, LogBytes, Inv, Lists, Opened, Open, AllWellFormed, Written, Inside, ParseLog, Crash, BufferOf,
         AppendPoint, Recoverable, Unreachable, Legible, PointsFor, InFlight, Find, WalBytes;
    var e, first, tear := PointV3(name, p), PointV3(name, q), Tear(name, [PointV3(name, p)], 4, listing);
    FourBytesWritten(m, e, listing);
    var m1, torn := Step(m, tear), EntryBytes(e)[..4];
    OneInFlight(m, name, p);
    StrictIsFlushed(m);
    OneRecord(e);
    assert m.pending + [e] == [e];
    IntactAlwaysOpens(m, tear);
    BufferComesBack(m, m1, torn, name);
    OpenedParts(m1, m.dirs, m.log, torn);
    FoundInvariant(m1, name);
    var i := Find(m1.series, name);
    BufferAt(m1, name);
    AppendedBehindTear(m1, i, q);
    AppendPointOk(m1, i, q);
    AppendSucceeds(m1, i, q);
    var m2 := AppendPoint(m1, i, q).0;
    FourBytesMislead(e, first);
    JoinedIsDamaged(e, 4, first, []);
    assert torn + (EntryBytes(first) + []) == torn + EntryBytes(first);
    JournalWellFormed(m);
    FileReplays(m2);
    OpensUnlessDamaged(m2);
    EnabledIffLegible(m2, Kill(listing));
  }

  lemma OneInFlight(m: Model, name: Name, p: Point)
    requires Inv(m) && name in m.dirs && |BufferOf(m.series, name)| < BLOCK_MAX_POINTS
    ensures InFlight(m, name, [PointV3(name, p)])
  {
    hide Inv, PointsFor;
    FoundInvariant(m, name);
    PointsForOne(PointV3(name, p), name);
  }

  lemma BufferAt(m: Model, name: Name)
    requires Find(m.series, name) < |m.series|
    ensures BufferOf(m.series, name) == m.series[Find(m.series, name)].buffer
    ensures m.series[Find(m.series, name)].name == name
  {}

  lemma OpenedParts(m1: Model, dirs: map<Name, Directory>, log: seq<Entry>, rest: seq<byte>)
    requires Opened(m1, dirs, log, rest) && rest != []
    ensures Inv(m1) && m1.dirs == dirs && m1.log == log && m1.pending == [] && m1.torn == rest && m1.kept == |log|
    ensures m1.durability.Strict? && !m1.exceeded && m1.quota == 0
  {
    hide Inv, StoredPoints, PointsFor, BufferOf;
  }

  lemma AppendSucceeds(m: Model, i: nat, p: Point)
    requires i < |m.series| && |m.series[i].buffer| < BLOCK_MAX_POINTS
    ensures AppendPoint(m, i, p).1 == Ok
  {
    hide WalAppendPoint, Push, Flush;
  }

  lemma CreatedState(name: Name)
    ensures var m := Step(Open(map[], [], [], []), Create(name));
            && Inv(m) && TearOk(m) && m.torn == [] && m.durability.Strict? && Lists([name], m.dirs)
            && name in m.dirs && BufferOf(m.series, name) == []
  {
    hide StoredPoints, RegistryOk, Mirror, AddSeries, Find;
    var m0 := Open(map[], [], [], []);
    EmptyDatabase();
    NothingOpened();
    AddSeriesOk(m0, name);
    var m := AddSeries(m0, name);
    assert Visible(m, name) == [];
    hide BufferOf, Open;
    assert m0.dirs.Keys == {};
    assert m.dirs.Keys == {name};
  }

  lemma NothingOpened()
    ensures Open(map[], [], [], []) == Fresh(map[], [], [])
    ensures forall n: Name :: Visible(Open(map[], [], [], []), n) == []
  {
    EmptyDirectory();
    hide StoredPoints;
  }

  /** The same from the creation of a database on, in four calls. */
  lemma DamageIsReachable(name: Name, p: Point, q: Point)
    ensures var start := Open(map[], [], [], []);
            var calls := [Create(name), Tear(name, [PointV3(name, p)], 4, [name]), Append(name, q)];
            && EnabledRun(start, calls)
            && Restartable(Run(start, calls), Kill([name])) && !Enabled(Run(start, calls), Kill([name]))
  {
    hide Step, Enabled, Inv, Open, Restartable, Lists;
    var start := Open(map[], [], [], []);
    var calls := [Create(name), Tear(name, [PointV3(name, p)], 4, [name]), Append(name, q)];
    CreatedState(name);
    var m := Step(start, calls[0]);
    TornThenDamaged(m, name, p, q, [name]);
    CreateEnabled(start, name);
    var m1 := Step(m, calls[1]);
    RunOfOne(m1, calls[2]);
    RunOfMore(m, calls[1], [calls[2]]);
    RunOfMore(start, calls[0], [calls[1], calls[2]]);
    assert calls == [calls[0]] + [calls[1], calls[2]];
    assert [calls[1], calls[2]] == [calls[1]] + [calls[2]];
  }

  lemma CreateEnabled(m: Model, name: Name)
    ensures Enabled(m, Create(name))
  {}

  lemma RunOfOne(m: Model, op: Op)
    ensures Run(m, [op]) == Step(m, op) && (EnabledRun(m, [op]) <==> Enabled(m, op))
  {
    hide Step, Enabled;
    assert [op][1..] == [];
  }

  lemma RunOfMore(m: Model, op: Op, ops: seq<Op>)
    ensures Run(m, [op] + ops) == Run(Step(m, op), ops)
    ensures EnabledRun(m, [op] + ops) <==> Enabled(m, op) && EnabledRun(Step(m, op), ops)
  {
    hide Step, Enabled;
    assert ([op] + ops)[1..] == ops;
  }
}
