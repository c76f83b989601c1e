/** How much a crash can lose outside STRICT mode: never more than the log buffer is allowed to hold. */
module Loss {
  import opened Wire
  import opened Config
  import opened Codec
  import opened Segments
  import opened WalFormat
  import opened State
  import opened Quota
  import opened Engine
  import opened Invariants
  import opened Recovery
  import opened Runs

  /** The log buffer is within the limit of its mode (src/storage/wal.c:68-73), unless it is a single longer record. */
  predicate Bounded(m: Model) {
    || |m.pending| <= 1
    || LogSize(m.pending) <= if m.durability == Balanced then WAL_BALANCED_FLUSH_BYTES else WAL_BUFFER_BYTES
  }

  lemma AppendBounded(m: Model, e: Entry)
    requires Bounded(m)
    ensures Bounded(WalAppend(m, e)) && WalAppend(m, e).durability == m.durability
  {
    hide Entry.Size;
    LogBytesConcat(m.pending, [e]);
    assert LogSize([e]) == e.Size() by {
      assert [e][1..] == [];
    }
  }

  lemma {:induction false} AppendAllBounded(m: Model, es: seq<Entry>)
    requires Bounded(m)
    ensures Bounded(WalAppendAll(m, es)) && WalAppendAll(m, es).durability == m.durability
  {
    hide WalAppend, Bounded;
    if es != [] {
      AppendAllBounded(m, es[..|es| - 1]);
      AppendBounded(WalAppendAll(m, es[..|es| - 1]), es[|es| - 1]);
    }
  }

  lemma BatchBounded(m: Model, i: nat, ps: seq<Point>)
    requires Bounded(m) && i < |m.series|
    ensures Bounded(Push(WalAppendBatch(m, m.series[i].name, ps), i, ps))
    ensures Bounded(Push(WalAppendPoint(m, m.series[i].name, if ps == [] then Point(0, 0) else ps[0]), i, ps))
  {
    hide WalAppend, WalAppendAll, LogSize, BatchEntries;
    AppendAllBounded(m, BatchEntries(m.series[i].name, ps));
    AppendBounded(m, PointV3(m.series[i].name, if ps == [] then Point(0, 0) else ps[0]));
  }

  /** Cleanup does not touch the log; every truncation and every flush of the log empties the buffer. */
  lemma EnforceBounded(m: Model)
    ensures Enforce(m).0.pending == m.pending && Enforce(m).0.durability == m.durability
    ensures Bounded(m) ==> Bounded(Enforce(m).0)
  {
    hide TotalSize, SortedCandidates, Doomed, Tracked, RemoveFiles, RebuildTouched;
  }

  lemma FlushBounded(m: Model, i: nat)
    requires Bounded(m) && i < |m.series|
    ensures Bounded(Flush(m, i).0) && Bounded(MakeRoom(m, i).0)
  {
    hide Enforce, WriteBlock, LogSize;
    EnforceBounded(TruncateLog(WriteBlock(m, i)));
  }

  lemma FlushAllBounded(m: Model)
    ensures Bounded(FlushAll(m).0)
  {
    hide Enforce, WriteBlocks, LogSize;
    EnforceBounded(TruncateLog(WriteBlocks(m, |m.series|)));
  }

  lemma {:induction false} BatchesBounded(m: Model, i: nat, ps: seq<Point>)
    requires Bounded(m) && i < |m.series|
    ensures Bounded(AppendBatch(m, i, ps).0)
    decreases |ps|
  {
    hide Bounded, MakeRoom, WalAppendBatch, Push, Chunk;
    if ps != [] {
      FlushBounded(m, i);
      var (m1, st) := MakeRoom(m, i);
      var n := Chunk(m1, i, |ps|);
      ChunkAtMost(m1, i, |ps|);
      if st == Ok && n > 0 {
        BatchBounded(m1, i, ps[..n]);
        var m2 := Push(WalAppendBatch(m1, m1.series[i].name, ps[..n]), i, ps[..n]);
        PushShape(WalAppendBatch(m1, m1.series[i].name, ps[..n]), i, ps[..n]);
        BatchesBounded(m2, i, ps[n..]);
      }
    }
  }

  lemma PushShape(m: Model, i: nat, ps: seq<Point>)
    requires i < |m.series|
    ensures |Push(m, i, ps).series| == |m.series|
  {}

  lemma AppendStepBounded(m: Model, op: Op)
    requires Bounded(m) && (op.Append? || op.AppendMany?)
    ensures Bounded(Step(m, op))
  {
    hide Bounded, MakeRoom, WalAppendPoint, AppendBatch, Push;
    var i := Find(m.series, op.name);
    if i < |m.series| {
      match op
      case Append(_, p) =>
        FlushBounded(m, i);
        BatchBounded(MakeRoom(m, i).0, i, [p]);
      case AppendMany(_, ps) => BatchesBounded(m, i, ps);
    }
  }

  lemma DeleteStepBounded(m: Model, op: Op)
    requires Bounded(m) && (op.Delete? || op.DeleteOld?)
    ensures Bounded(Step(m, op))
  {
    hide Flush, FlushAll, Rebuild, Expired, LogSize;
    var i := Find(m.series, op.name);
    FlushAllBounded(m);
    if i < |m.series| {
      FlushBounded(m, i);
    }
  }

  lemma RestartBounded(m: Model, op: Op)
    requires Inv(m) && Enabled(m, op) && Ends(op)
    ensures Step(m, op).pending == []
  {
    hide Inv, Open, FlushAll, Visible, PointsFor, BufferOf, StoredPoints, Written, LogBytes, Legible, InFlight;
    match op
    case CloseOpen(listing) =>
      FlushAllOk(m);
      CrashAfterClose(FlushAll(m).0, listing);
      CrashRecovers(FlushAll(m).0, listing);
    case Kill(listing) => CrashRecovers(m, listing);
    case Tear(_, _, _, _) => TearOpened(m, op);
    case Halt(_, _) => HaltOpened(m, op);
  }

  /** Every call keeps the log buffer within its threshold. */
  lemma StepBounded(m: Model, op: Op)
    requires Inv(m) && Enabled(m, op) && Bounded(m)
    ensures Bounded(Step(m, op))
  {
    hide Inv, Enabled, Flush, FlushAll, Enforce, Reopen, Crash, AppendPoint, AppendBatch, DeleteBefore, DeleteSeries,
         LogSize, Rebuild, Find;
    match op
    case Append(_, _) => AppendStepBounded(m, op);
    case AppendMany(_, _) => AppendStepBounded(m, op);
    case FlushSeries(name) =>
      if Find(m.series, name) < |m.series| {
        FlushBounded(m, Find(m.series, name));
      }
    case FlushEverything => FlushAllBounded(m);
    case Delete(_) => DeleteStepBounded(m, op);
    case DeleteOld(_, _) => DeleteStepBounded(m, op);
    case EnforceQuota => EnforceBounded(WalFlush(m));
    case CloseOpen(_) => RestartBounded(m, op);
    case Kill(_) => RestartBounded(m, op);
    case Tear(_, _, _, _) => RestartBounded(m, op);
    case Halt(_, _) => RestartBounded(m, op);
    case _ =>
  }

  lemma {:induction false} RunBounded(m: Model, ops: seq<Op>)
    requires Inv(m) && EnabledRun(m, ops) && Bounded(m)
    ensures Bounded(Run(m, ops))
    decreases |ops|
  {
    hide Inv, Step, Enabled, Bounded;
    if ops != [] {
      StepKeepsInv(m, ops[0]);
      StepBounded(m, ops[0]);
      RunBounded(Step(m, ops[0]), ops[1..]);
    }
  }

  /**
   * After any run, a crash on an intact log loses of each series exactly the points of the records still in the log
   * buffer, and that buffer is empty in STRICT mode and otherwise within its threshold or a single record. Behind a
   * torn record it also loses the records that could not be reached.
   */
  lemma CrashLosesPending(m: Model, ops: seq<Op>, listing: seq<Name>)
    requires Inv(m) && Bounded(m) && EnabledRun(m, ops) && Lists(listing, Run(m, ops).dirs)
    ensures var r := Run(m, ops);
            var r' := Crash(r, listing);
            && |Recoverable(r)| <= |Journal(r)|
            && var lost := Journal(r)[|Recoverable(r)|..];
            && Bounded(r) && (r.durability.Strict? ==> r.pending == [])
            && (r.torn == [] ==> lost == r.pending)
            && forall n: Name ::
                 && BufferOf(r.series, n) == BufferOf(r'.series, n) + PointsFor(lost, n)
                 && StoredPoints(DirOf(r'.dirs, n)) == StoredPoints(DirOf(r.dirs, n))
  {
    hide RegistryOk, Run, Crash, Bounded, BufferOf, PointsFor, StoredPoints, AllWellFormed, Recoverable, Unreachable;
    RunKeepsInv(m, ops);
    RunBounded(m, ops);
    var r := Run(m, ops);
    CrashRecovers(r, listing);
    var found := Recoverable(r);
    var lost := LostRecords(r);
    forall n: Name
      ensures BufferOf(r.series, n) == BufferOf(Crash(r, listing).series, n) + PointsFor(lost, n)
    {
      PointsForConcat(found, lost, n);
    }
    hide Inv;
  }

  /**
   * Switching the durability mode, to whichever mode, and enforcing the quota write out what is pending. From then on a
   * crash on an intact log shows every reader what the call left, which for a switch is what they saw before.
   */
  lemma SwitchLosesNothing(m: Model, op: Op, listing: seq<Name>)
    requires Inv(m) && (op.Configure? || op.EnforceQuota?) && m.torn == [] && Lists(listing, m.dirs)
    ensures var m' := Step(m, op);
            && m'.log == m.log + m.pending && m'.pending == [] && m'.torn == []
            && SameVisible(m', Crash(m', listing))
            && (op.Configure? || m.quota == 0 ==> SameVisible(m, Crash(m', listing)))
  {
    hide Inv, Enforce, Crash, Visible, Opened;
    var m' := Step(m, op);
    SettingStepInv(m, op);
    EnforceHeals(WalFlush(m));
    WalFlushOk(m);
    match op {
      case Configure(d) => FlagInvisibleMode(WalFlush(m), d);
      case EnforceQuota => EnforceOk(WalFlush(m));
    }
    KeysKept(m, m', op);
    WholeFileOf(m');
    CrashRecovers(m', listing);
    if op.Configure? || m.quota == 0 {
      VisibleTransitive(m, WalFlush(m), m');
      VisibleTransitive(m, m', Crash(m', listing));
    }
  }

  lemma FlagInvisibleMode(m: Model, d: Durability)
    ensures SameVisible(m, m.(durability := d))
  {}

  lemma WholeFileOf(m: Model)
    ensures m.torn == [] ==> Recoverable(m) == m.log
  {}

  lemma KeysKept(m: Model, m': Model, op: Op)
    requires Inv(m) && (op.Configure? || op.EnforceQuota?) && m' == Step(m, op)
    ensures m'.dirs.Keys == m.dirs.Keys
  {
    hide Inv, Enforce;
    WalFlushOk(m);
    EnforceOk(WalFlush(m));
  }

  lemma LostRecords(r: Model) returns (lost: seq<Entry>)
    ensures |Recoverable(r)| <= |Journal(r)| && lost == Journal(r)[|Recoverable(r)|..]
    ensures Journal(r) == Recoverable(r) + lost && (r.torn == [] ==> lost == r.pending)
  {
    lost := Journal(r)[|Recoverable(r)|..];
  }
}
