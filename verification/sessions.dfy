/**
 * One process working on an open database by name and through series handles (src/core/db.c:82-177,
 * src/api/tsedge.c:79-173). The registry of the handles is the series array of the engine.
 */
module Sessions {
  import opened Wire
  import opened Config
  import opened Codec
  import opened Points
  import opened Segments
  import opened WalFormat
  import opened State
  import opened Quota
  import opened Engine
  import opened Invariants
  import opened Retention
  import opened Recovery
  import opened Runs
  import H = Handles

  datatype Session = Session(m: Model, tickets: seq<H.Ticket>)

  /** A call by name, or one that obtains or uses a handle. */
  datatype Call =
    | Plain(op: Op)
    | Acquire(name: Name)
    | PointVia(ticket: nat, point: Point)
    | BatchVia(ticket: nat, points: seq<Point>)

  function SlotsOf(series: seq<Series>): (slots: seq<H.Slot>)
    ensures |slots| == |series|
    ensures forall i :: 0 <= i < |series| ==> slots[i] == H.Slot(series[i].name, series[i].generation)
  {
    seq(|series|, i requires 0 <= i < |series| => H.Slot(series[i].name, series[i].generation))
  }

  function RegistryOf(s: Session): H.Registry {
    H.Registry(SlotsOf(s.m.series), s.m.nextGeneration, s.tickets)
  }

  /** The series a handle leads to, if its incarnation is still there. */
  function Target(s: Session, k: nat): (r: Option<nat>)
    ensures r.Some? ==> r.value < |s.m.series|
  {
    if k < |s.tickets| then H.Resolve(RegistryOf(s), k).1 else None
  }

  function Looked(s: Session, k: nat): seq<H.Ticket> {
    if k < |s.tickets| then H.Resolve(RegistryOf(s), k).0.tickets else s.tickets
  }

  /** An append through a handle is refused, without looking the handle up, while the quota is exceeded. */
  ghost function CallStep(s: Session, call: Call): Session {
    match call
    case Plain(op) => s.(m := Step(s.m, op))
    case Acquire(name) => s.(tickets := H.GetHandle(RegistryOf(s), name).0.tickets)
    case PointVia(k, p) =>
      if s.m.exceeded then s
      else if Target(s, k).None? then s.(tickets := Looked(s, k))
      else Session(AppendPoint(s.m, Target(s, k).value, p).0, Looked(s, k))
    case BatchVia(k, ps) =>
      if ps == [] || s.m.exceeded then s
      else if Target(s, k).None? then s.(tickets := Looked(s, k))
      else Session(AppendBatch(s.m, Target(s, k).value, ps).0, Looked(s, k))
  }

  /** Handles do not outlive the process. */
  ghost predicate Allowed(s: Session, call: Call) {
    match call
    case Plain(op) => !Ends(op) && Enabled(s.m, op)
    case Acquire(_) => true
    case PointVia(k, _) =>
      var t := Target(s, k);
      t.Some? && |s.m.series[t.value].buffer| == BLOCK_MAX_POINTS ==> Room(s.m, t.value)
    case BatchVia(k, ps) =>
      var t := Target(s, k);
      t.Some? ==> Budget(s.m, t.value, |ps|)
  }

  ghost predicate SessionOk(s: Session) {
    Inv(s.m) && H.Inv(RegistryOf(s))
  }

  // ---------------------------------------------------------------- what leaves the registry alone

  /** The same incarnations in the same places. */
  ghost predicate SameSlots(m: Model, m': Model) {
    SlotsOf(m'.series) == SlotsOf(m.series) && m'.nextGeneration == m.nextGeneration
  }

  lemma OneReplaced(m: Model, m': Model, i: nat)
    requires i < |m.series| == |m'.series| && m'.series == m.series[i := m'.series[i]]
    requires m'.nextGeneration == m.nextGeneration
    requires m'.series[i].name == m.series[i].name && m'.series[i].generation == m.series[i].generation
    ensures SameSlots(m, m')
  {}

  lemma WriteSlots(m: Model, i: nat)
    requires i < |m.series|
    ensures SameSlots(m, WriteBlock(m, i))
  {
    if ValidBlock(m.series[i].buffer) {
      OneReplaced(m, WriteBlock(m, i), i);
    }
  }

  lemma {:induction false} WritesSlots(m: Model, n: nat)
    requires n <= |m.series|
    ensures SameSlots(m, WriteBlocks(m, n))
  {
    hide WriteBlock;
    if n > 0 {
      WritesSlots(m, n - 1);
      WriteSlots(WriteBlocks(m, n - 1), n - 1);
    }
  }

  lemma EnforceSlots(m: Model)
    ensures SameSlots(m, Enforce(m).0)
  {
    hide TotalSize, SortedCandidates, Doomed, Tracked, RemoveFiles, Touched, DiscoverIds;
  }

  lemma FlushSlots(m: Model, i: nat)
    requires i < |m.series|
    ensures SameSlots(m, Flush(m, i).0) && SameSlots(m, MakeRoom(m, i).0)
  {
    hide WriteBlock, Enforce, BufferEntries;
    WriteSlots(m, i);
    EnforceSlots(TruncateLog(WriteBlock(m, i)));
  }

  lemma FlushAllSlots(m: Model)
    ensures SameSlots(m, FlushAll(m).0)
  {
    hide WriteBlocks, Enforce, BufferEntries;
    WritesSlots(m, |m.series|);
    EnforceSlots(TruncateLog(WriteBlocks(m, |m.series|)));
  }

  lemma PushSlots(m: Model, m1: Model, es: seq<Entry>, i: nat, ps: seq<Point>)
    requires i < |m.series| && Logged(m, m1, es)
    ensures SameSlots(m, Push(m1, i, ps))
  {
    OneReplaced(m, Push(m1, i, ps), i);
  }

  lemma PointSlots(m: Model, i: nat, p: Point)
    requires i < |m.series|
    ensures SameSlots(m, AppendPoint(m, i, p).0)
  {
    hide MakeRoom, WalAppendPoint, Push;
    FlushSlots(m, i);
    var m1 := MakeRoom(m, i).0;
    PushSlots(m1, WalAppendPoint(m1, m1.series[i].name, p), [PointV3(m1.series[i].name, p)], i, [p]);
  }

  lemma {:induction false} BatchSlots(m: Model, i: nat, ps: seq<Point>)
    requires i < |m.series|
    ensures SameSlots(m, AppendBatch(m, i, ps).0)
    decreases |ps|
  {
    hide MakeRoom, WalAppendBatch, Push, Chunk, BatchEntries;
    if ps != [] {
      FlushSlots(m, i);
      var (m1, st) := MakeRoom(m, i);
      var n := Chunk(m1, i, |ps|);
      ChunkAtMost(m1, i, |ps|);
      if st == Ok && n > 0 {
        var name := m1.series[i].name;
        PushSlots(m1, WalAppendBatch(m1, name, ps[..n]), BatchEntries(name, ps[..n]), i, ps[..n]);
        BatchSlots(Push(WalAppendBatch(m1, name, ps[..n]), i, ps[..n]), i, ps[n..]);
      }
    }
  }

  lemma RetentionSlots(m: Model, i: nat, t: i64)
    requires i < |m.series|
    ensures SameSlots(m, DeleteBefore(m, i, t).0)
  {
    hide Flush, Expired, DiscoverIds, IndexOfIds;
    FlushSlots(m, i);
    var (m1, st) := Flush(m, i);
    if st == Ok && Expired(m1.series[i].index, t) != {} {
      OneReplaced(m1, DeleteBefore(m, i, t).0, i);
    }
  }

  // ---------------------------------------------------------------- the registry in step with the engine

  /** What a call does to the registry of the handles. */
  ghost function Shadow(s: Session, call: Call): seq<H.Op> {
    match call
    case Plain(op) =>
      (match op
       case Create(name) => [H.CreateOp(name)]
       case Delete(name) => if Outcome(s.m, op) == Ok then [H.DeleteOp(name)] else []
       case _ => [])
    case Acquire(name) => [H.GetOp(name)]
    case PointVia(k, _) => if s.m.exceeded then [] else [H.ResolveOp(k)]
    case BatchVia(k, ps) => if ps == [] || s.m.exceeded then [] else [H.ResolveOp(k)]
  }

  lemma FindIsPosition(series: seq<Series>, name: Name)
    ensures H.NamePosition(SlotsOf(series), name) == Find(series, name)
  {
    var slots := SlotsOf(series);
    var k, k' := Find(series, name), H.NamePosition(slots, name);
    assert k < |series| ==> slots[k].name == name;
    assert k' < |slots| ==> series[k'].name == name;
  }

  lemma OneOp(r: H.Registry, op: H.Op)
    ensures H.Run(r, [op]) == H.Step(r, op)
  {
    hide H.Step;
    assert [op][1..] == [];
  }

  lemma CreateShadow(s: Session, name: Name)
    ensures RegistryOf(s.(m := AddSeries(s.m, name))) == H.Create(RegistryOf(s), name)
  {
    hide DiscoverIds, IndexOfIds, Find, H.NamePosition;
    FindIsPosition(s.m.series, name);
    if Find(s.m.series, name) == |s.m.series| {
      var m' := AddSeries(s.m, name);
      assert SlotsOf(m'.series) == SlotsOf(s.m.series) + [H.Slot(name, s.m.nextGeneration + 1)];
    }
  }

  lemma DropShadow(s: Session, i: nat)
    requires i < |s.m.series| && Find(s.m.series, s.m.series[i].name) == i
    ensures RegistryOf(s.(m := DropSeries(s.m, i))) == H.Delete(RegistryOf(s), s.m.series[i].name)
  {
    hide Find, H.NamePosition;
    FindIsPosition(s.m.series, s.m.series[i].name);
    var m' := DropSeries(s.m, i);
    assert SlotsOf(m'.series) == SlotsOf(s.m.series)[..i] + SlotsOf(s.m.series)[i + 1..];
  }

  lemma DeleteShadow(s: Session, name: Name)
    ensures var (m', st) := DeleteSeries(s.m, name);
            RegistryOf(s.(m := m')) == if st == Ok then H.Delete(RegistryOf(s), name) else RegistryOf(s)
  {
    hide FlushAll, Find, DropSeries, H.Delete;
    var i := Find(s.m.series, name);
    FlushAllSlots(s.m);
    var (m1, st) := FlushAll(s.m);
    if i < |s.m.series| && st == Ok {
      FindIsPosition(s.m.series, name);
      FindIsPosition(m1.series, name);
      assert SlotsOf(m1.series)[i].name == m1.series[i].name && SlotsOf(s.m.series)[i].name == s.m.series[i].name;
      DropShadow(s.(m := m1), i);
    }
  }

  lemma PlainSlots(m: Model, op: Op)
    requires !Ends(op) && !op.Create? && !op.Delete?
    ensures SameSlots(m, Step(m, op))
  {
    hide AppendPoint, AppendBatch, Flush, FlushAll, DeleteBefore, Enforce, Find, SlotsOf;
    match op
    case Append(name, p) =>
      if Find(m.series, name) < |m.series| {
        PointSlots(m, Find(m.series, name), p);
      }
    case AppendMany(name, ps) =>
      if Find(m.series, name) < |m.series| {
        BatchSlots(m, Find(m.series, name), ps);
      }
    case FlushSeries(name) =>
      if Find(m.series, name) < |m.series| {
        FlushSlots(m, Find(m.series, name));
      }
    case FlushEverything => FlushAllSlots(m);
    case DeleteOld(name, t) =>
      if Find(m.series, name) < |m.series| {
        RetentionSlots(m, Find(m.series, name), t);
      }
    case EnforceQuota => EnforceSlots(WalFlush(m));
    case _ =>
  }

  lemma ResolveShadow(s: Session, k: nat, m': Model)
    requires SameSlots(s.m, m')
    ensures RegistryOf(Session(m', Looked(s, k))) == H.Step(RegistryOf(s), H.ResolveOp(k))
  {
    hide SlotsOf, H.Located;
  }

  lemma PlainShadow(s: Session, op: Op)
    requires Allowed(s, Plain(op))
    ensures RegistryOf(CallStep(s, Plain(op))) == H.Run(RegistryOf(s), Shadow(s, Plain(op)))
  {
    hide Enabled, SlotsOf, DeleteSeries, AddSeries, AppendPoint, AppendBatch, H.Create, H.Delete, Enforce;
    if Shadow(s, Plain(op)) != [] {
      OneOp(RegistryOf(s), Shadow(s, Plain(op))[0]);
    }
    if op.Create? {
      CreateShadow(s, op.name);
    } else if op.Delete? {
      DeleteShadow(s, op.name);
    } else {
      PlainSlots(s.m, op);
    }
  }

  lemma ViaShadow(s: Session, call: Call)
    requires call.PointVia? || call.BatchVia?
    ensures RegistryOf(CallStep(s, call)) == H.Run(RegistryOf(s), Shadow(s, call))
  {
    hide SlotsOf, AppendPoint, AppendBatch, H.Step, Target, Looked, H.Run;
    var k := call.ticket;
    var m' := CallStep(s, call).m;
    NoOps(RegistryOf(s));
    OneOp(RegistryOf(s), H.ResolveOp(k));
    if Target(s, k).Some? {
      match call
      case PointVia(_, p) => PointSlots(s.m, Target(s, k).value, p);
      case BatchVia(_, ps) => BatchSlots(s.m, Target(s, k).value, ps);
    }
    ResolveShadow(s, k, m');
  }

  lemma NoOps(r: H.Registry)
    ensures H.Run(r, []) == r
  {}

  /** Every call on the engine is, for the handles, a create, a delete, a lookup or nothing at all. */
  lemma CallShadows(s: Session, call: Call)
    requires Allowed(s, call)
    ensures RegistryOf(CallStep(s, call)) == H.Run(RegistryOf(s), Shadow(s, call))
  {
    hide CallStep, Allowed, Shadow, H.Run;
    match call
    case Plain(op) => PlainShadow(s, op);
    case Acquire(name) => AcquireShadow(s, name);
    case PointVia(_, _) => ViaShadow(s, call);
    case BatchVia(_, _) => ViaShadow(s, call);
  }

  lemma AcquireShadow(s: Session, name: Name)
    ensures RegistryOf(CallStep(s, Acquire(name))) == H.Run(RegistryOf(s), Shadow(s, Acquire(name)))
  {
    hide SlotsOf, H.Run;
    OneOp(RegistryOf(s), H.GetOp(name));
  }

  // ---------------------------------------------------------------- appends through handles

  lemma CallKeeps(s: Session, call: Call)
    requires SessionOk(s) && Allowed(s, call)
    ensures SessionOk(CallStep(s, call)) && H.Later(RegistryOf(s), RegistryOf(CallStep(s, call)))
  {
    hide RegistryOf, Shadow, H.Inv, H.Run, H.Later;
    CallShadows(s, call);
    H.RunLater(RegistryOf(s), Shadow(s, call));
    CallKeepsInv(s, call);
  }

  lemma CallKeepsInv(s: Session, call: Call)
    requires Inv(s.m) && Allowed(s, call)
    ensures Inv(CallStep(s, call).m)
  {
    hide Inv, Enabled, Step, AppendPoint, AppendBatch, Budget, Target, Looked;
    match call
    case Plain(op) => StepKeepsInv(s.m, op);
    case Acquire(_) =>
    case PointVia(k, p) =>
      if Target(s, k).Some? {
        AppendPointOk(s.m, Target(s, k).value, p);
      }
    case BatchVia(k, ps) =>
      if Target(s, k).Some? {
        AppendBatchOk(s.m, Target(s, k).value, ps);
      }
  }

  /** The points that an append through a handle brings. */
  function Sent(call: Call): seq<Point>
    requires call.PointVia? || call.BatchVia?
  {
    if call.PointVia? then [call.point] else call.points
  }

  /** `ps` was appended to the incarnation `slot`; if it is gone, nothing was. */
  ghost predicate AppendedTo(m: Model, m': Model, slot: H.Slot, ps: seq<Point>) {
    if slot in SlotsOf(m.series) then
      forall n: Name :: Visible(m', n) == Visible(m, n) + if n == slot.name then ps else []
    else m' == m
  }

  lemma TargetExact(s: Session, k: nat)
    requires H.Inv(RegistryOf(s)) && k < |s.tickets|
    ensures var slot := s.tickets[k].slot;
            match Target(s, k)
            case Some(i) => slot in SlotsOf(s.m.series) && s.m.series[i].name == slot.name
            case None => slot !in SlotsOf(s.m.series)
  {
    hide H.Inv, H.Resolve, SlotsOf;
    H.ResolveExact(RegistryOf(s), k);
  }

  /** The same append by name. */
  function ByName(call: Call, name: Name): Op
    requires call.PointVia? || call.BatchVia?
  {
    if call.PointVia? then Append(name, call.point) else AppendMany(name, call.points)
  }

  /**
   * Whatever the quota is, an append through a handle is the append by name as long as the incarnation the handle was
   * issued for is registered, and nothing at all once it is not, even if its name is in use again.
   */
  lemma HandleIsName(s: Session, call: Call)
    requires SessionOk(s) && (call.PointVia? || call.BatchVia?) && call.ticket < |s.tickets|
    ensures var slot := s.tickets[call.ticket].slot;
            CallStep(s, call).m == if slot in SlotsOf(s.m.series) then Step(s.m, ByName(call, slot.name)) else s.m
  {
    hide H.Inv, AppendPoint, AppendBatch, Target, Looked, SlotsOf, Find, SeriesOk, Mirror;
    TargetExact(s, call.ticket);
    var t := Target(s, call.ticket);
    if t.Some? {
      FindAt(s.m.series, t.value);
    }
  }

  /** Without a quota it reaches that incarnation and no other series. */
  lemma HandleAppends(s: Session, call: Call)
    requires SessionOk(s) && Allowed(s, call) && (call.PointVia? || call.BatchVia?) && call.ticket < |s.tickets|
    requires s.m.quota == 0 && !s.m.exceeded
    ensures AppendedTo(s.m, CallStep(s, call).m, s.tickets[call.ticket].slot, Sent(call))
  {
    hide Inv, H.Inv, AppendPoint, AppendBatch, Budget, Target, Looked, Visible, SlotsOf;
    TargetExact(s, call.ticket);
    var t := Target(s, call.ticket);
    if t.Some? {
      match call
      case PointVia(_, p) => AppendPointOk(s.m, t.value, p);
      case BatchVia(_, ps) =>
        if ps == [] {
          ExtendedByNothing(s.m, t.value);
        } else {
          AppendBatchOk(s.m, t.value, ps);
        }
    }
  }

  ghost function CallRun(s: Session, calls: seq<Call>): Session
    decreases |calls|
  {
    if calls == [] then s else CallRun(CallStep(s, calls[0]), calls[1..])
  }

  ghost predicate AllowedRun(s: Session, calls: seq<Call>)
    decreases |calls|
  {
    calls == [] || (Allowed(s, calls[0]) && AllowedRun(CallStep(s, calls[0]), calls[1..]))
  }

  lemma {:induction false} CallsKeep(s: Session, calls: seq<Call>)
    requires SessionOk(s) && AllowedRun(s, calls)
    ensures SessionOk(CallRun(s, calls)) && H.Later(RegistryOf(s), RegistryOf(CallRun(s, calls)))
    decreases |calls|
  {
    hide SessionOk, Allowed, CallStep, H.Later, RegistryOf;
    if calls == [] {
      H.LaterReflexive(RegistryOf(s));
    } else {
      CallKeeps(s, calls[0]);
      var s1 := CallStep(s, calls[0]);
      CallsKeep(s1, calls[1..]);
      H.LaterTransitive(RegistryOf(s), RegistryOf(s1), RegistryOf(CallRun(s1, calls[1..])));
    }
  }

  /**
   * Handles over whole sessions. A handle is obtained for a name, and any number of calls follow: creates and deletes
   * of the same name and others, flushes, appends, changes of the quota. An append through the handle is then the
   * append by name to the very incarnation it was obtained for or, when that one has been deleted, nothing at all; a
   * series that has been created since under the same name is not touched. Without a quota it extends that incarnation
   * and no other series.
   */
  lemma HandleKeepsItsSeries(s: Session, name: Name, calls: seq<Call>, call: Call)
    requires SessionOk(s) && Find(s.m.series, name) < |s.m.series| && AllowedRun(CallStep(s, Acquire(name)), calls)
    requires H.GetHandle(RegistryOf(s), name).1.Some? && (call.PointVia? || call.BatchVia?)
    requires call.ticket == H.GetHandle(RegistryOf(s), name).1.value
    ensures var slot := SlotsOf(s.m.series)[Find(s.m.series, name)];
            var s1 := CallRun(CallStep(s, Acquire(name)), calls);
            && SessionOk(s1)
            && CallStep(s1, call).m == (if slot in SlotsOf(s1.m.series) then Step(s1.m, ByName(call, name)) else s1.m)
            && (Allowed(s1, call) && s1.m.quota == 0 && !s1.m.exceeded ==>
                  AppendedTo(s1.m, CallStep(s1, call).m, slot, Sent(call)))
  {
    hide SessionOk, Allowed, CallRun, H.Inv, Inv, AppendedTo, SlotsOf, AllowedRun, Sent, ByName, Step;
    var s0 := CallStep(s, Acquire(name));
    FindIsPosition(s.m.series, name);
    IssuedFor(s, name);
    CallKeeps(s, Acquire(name)) by {
      AcquireAllowed(s, name);
    }
    CallsKeep(s0, calls);
    var s1 := CallRun(s0, calls);
    LaterTicket(s0, s1, call.ticket);
    HandleIsName(s1, call);
    if Allowed(s1, call) && s1.m.quota == 0 && !s1.m.exceeded {
      HandleAppends(s1, call);
    }
  }

  lemma AcquireAllowed(s: Session, name: Name)
    ensures Allowed(s, Acquire(name))
  {}

  lemma LaterTicket(s: Session, s': Session, k: nat)
    requires H.Later(RegistryOf(s), RegistryOf(s')) && k < |s.tickets|
    ensures k < |s'.tickets| && s'.tickets[k].slot == s.tickets[k].slot
  {
    hide SlotsOf;
    assert RegistryOf(s').tickets[k].slot == RegistryOf(s).tickets[k].slot;
  }

  lemma IssuedFor(s: Session, name: Name)
    requires Find(s.m.series, name) < |s.m.series|
    requires H.NamePosition(SlotsOf(s.m.series), name) == Find(s.m.series, name)
    ensures var (r, h) := H.GetHandle(RegistryOf(s), name);
            && h.Some? && h.value < |CallStep(s, Acquire(name)).tickets|
            && CallStep(s, Acquire(name)).tickets[h.value].slot == SlotsOf(s.m.series)[Find(s.m.series, name)]
  {
    hide SlotsOf, H.NamePosition, H.TicketPosition, Find;
  }
}
