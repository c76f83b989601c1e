/** Series handles with generations and a cached position (src/core/db.c:82-177, src/core/series_delete.c:83-102). */
module Handles {
  import opened Wire
  import opened WalFormat

  /** One incarnation of a series: a name reused after a delete gets a new generation. */
  datatype Slot = Slot(name: Name, generation: nat)

  /** A handle's own fields: what it was issued for, and where that was last seen. */
  datatype Ticket = Ticket(slot: Slot, position: nat)

  datatype Registry = Registry(series: seq<Slot>, next: nat, tickets: seq<Ticket>)

  // ---------------------------------------------------------------- operations

  /** Where a key first occurs, or the length of the list. */
  function Position<T(==)>(keys: seq<T>, key: T): (k: nat)
    ensures k <= |keys|
    ensures k < |keys| ==> keys[k] == key
    ensures forall j :: 0 <= j < k ==> keys[j] != key
  {
    if keys == [] || keys[0] == key then 0 else 1 + Position(keys[1..], key)
  }

  function NamePosition(series: seq<Slot>, name: Name): (k: nat)
    ensures k <= |series|
    ensures k < |series| ==> series[k].name == name
    ensures forall j :: 0 <= j < k ==> series[j].name != name
  {
    var names := seq(|series|, i requires 0 <= i < |series| => series[i].name);
    assert forall j :: 0 <= j < |series| ==> names[j] == series[j].name;
    Position(names, name)
  }

  function TicketPosition(tickets: seq<Ticket>, slot: Slot): (k: nat)
    ensures k <= |tickets|
    ensures k < |tickets| ==> tickets[k].slot == slot
    ensures forall j :: 0 <= j < k ==> tickets[j].slot != slot
  {
    var slots := seq(|tickets|, i requires 0 <= i < |tickets| => tickets[i].slot);
    assert forall j :: 0 <= j < |tickets| ==> slots[j] == tickets[j].slot;
    Position(slots, slot)
  }

  function Create(r: Registry, name: Name): Registry {
    if NamePosition(r.series, name) < |r.series| then r
    else r.(series := r.series + [Slot(name, r.next + 1)], next := r.next + 1)
  }

  /** The slots behind a deleted one move down; cached positions are left stale. */
  function Delete(r: Registry, name: Name): Registry {
    var i := NamePosition(r.series, name);
    if i == |r.series| then r else r.(series := r.series[..i] + r.series[i + 1..])
  }

  /** The handle already issued for the current incarnation, refreshed, or a new one. */
  function GetHandle(r: Registry, name: Name): (Registry, Option<nat>) {
    var i := NamePosition(r.series, name);
    if i == |r.series| then (r, None)
    else
      var k := TicketPosition(r.tickets, r.series[i]);
      if k < |r.tickets| then (r.(tickets := r.tickets[k := r.tickets[k].(position := i)]), Some(k))
      else (r.(tickets := r.tickets + [Ticket(r.series[i], i)]), Some(k))
  }

  /** Tries the cached position by generation alone, then searches by generation and name. */
  function Located(series: seq<Slot>, t: Ticket): Option<nat> {
    if t.position < |series| && series[t.position].generation == t.slot.generation then Some(t.position)
    else
      var k := Position(series, t.slot);
      if k < |series| then Some(k) else None
  }

  function Resolve(r: Registry, k: nat): (Registry, Option<nat>)
    requires k < |r.tickets|
  {
    match Located(r.series, r.tickets[k])
    case None => (r, None)
    case Some(i) => (r.(tickets := r.tickets[k := r.tickets[k].(position := i)]), Some(i))
  }

  datatype Op = CreateOp(name: Name) | DeleteOp(name: Name) | GetOp(name: Name) | ResolveOp(ticket: nat)

  function Step(r: Registry, op: Op): Registry {
    match op
    case CreateOp(name) => Create(r, name)
    case DeleteOp(name) => Delete(r, name)
    case GetOp(name) => GetHandle(r, name).0
    case ResolveOp(k) => if k < |r.tickets| then Resolve(r, k).0 else r
  }

  function Run(r: Registry, ops: seq<Op>): Registry
    decreases |ops|
  {
    if ops == [] then r else Run(Step(r, ops[0]), ops[1..])
  }

  // ---------------------------------------------------------------- invariant

  predicate DistinctSlots(series: seq<Slot>) {
    forall i, j :: 0 <= i < j < |series| ==>
      series[i].name != series[j].name && series[i].generation != series[j].generation
  }

  predicate DistinctTickets(tickets: seq<Ticket>) {
    forall j, k :: 0 <= j < k < |tickets| ==> tickets[j].slot != tickets[k].slot
  }

  /** A registered series with the generation of a handle is the one the handle was issued for. */
  predicate Agree(series: seq<Slot>, tickets: seq<Ticket>) {
    forall i, k :: 0 <= i < |series| && 0 <= k < |tickets| ==>
      series[i].generation == tickets[k].slot.generation ==> series[i] == tickets[k].slot
  }

  /** Generations identify incarnations, and every handle was issued for an incarnation that once existed. */
  predicate Inv(r: Registry) {
    && DistinctSlots(r.series) && DistinctTickets(r.tickets) && Agree(r.series, r.tickets)
    && (forall i :: 0 <= i < |r.series| ==> r.series[i].generation <= r.next)
    && (forall k :: 0 <= k < |r.tickets| ==> r.tickets[k].slot.generation <= r.next)
  }

  lemma CreateKeeps(r: Registry, name: Name)
    requires Inv(r)
    ensures Inv(Create(r, name))
  {}

  lemma DeletedSlots(series: seq<Slot>, i: nat)
    requires DistinctSlots(series) && i < |series|
    ensures var rest := series[..i] + series[i + 1..];
            && DistinctSlots(rest)
            && forall s :: s in rest <==> s in series && s.name != series[i].name
  {
    var rest := series[..i] + series[i + 1..];
    assert forall j :: 0 <= j < |rest| ==> rest[j] == series[if j < i then j else j + 1];
    forall s | s in series && s.name != series[i].name
      ensures s in rest
    {
      var j :| 0 <= j < |series| && series[j] == s;
      assert rest[if j < i then j else j - 1] == s;
    }
    forall s | s in rest
      ensures s in series && s.name != series[i].name
    {
      var j :| 0 <= j < |rest| && rest[j] == s;
      var j' := if j < i then j else j + 1;
      assert series[j'] == s && (j' < i || i < j');
    }
  }

  lemma DeleteKeeps(r: Registry, name: Name)
    requires Inv(r)
    ensures Inv(Delete(r, name))
    ensures forall s :: s in Delete(r, name).series <==> s in r.series && s.name != name
  {
    hide DistinctSlots, DistinctTickets;
    var i := NamePosition(r.series, name);
    if i < |r.series| {
      DeletedSlots(r.series, i);
      var rest := Delete(r, name).series;
      assert forall j :: 0 <= j < |rest| ==> rest[j] in rest;
    }
    hide Delete, NamePosition;
  }

  lemma RefreshKeeps(r: Registry, k: nat, position: nat)
    requires Inv(r) && k < |r.tickets|
    ensures Inv(r.(tickets := r.tickets[k := r.tickets[k].(position := position)]))
  {}

  lemma GetKeeps(r: Registry, name: Name)
    requires Inv(r)
    ensures Inv(GetHandle(r, name).0)
  {
    var i := NamePosition(r.series, name);
    if i < |r.series| {
      var k := TicketPosition(r.tickets, r.series[i]);
      if k < |r.tickets| {
        RefreshKeeps(r, k, i);
      }
    }
  }

  lemma StepKeeps(r: Registry, op: Op)
    requires Inv(r)
    ensures Inv(Step(r, op))
  {
    hide Inv, Create, Delete, GetHandle, Located;
    match op
    case CreateOp(name) => CreateKeeps(r, name);
    case DeleteOp(name) => DeleteKeeps(r, name);
    case GetOp(name) => GetKeeps(r, name);
    case ResolveOp(k) =>
      if k < |r.tickets| && Located(r.series, r.tickets[k]).Some? {
        RefreshKeeps(r, k, Located(r.series, r.tickets[k]).value);
      }
  }

  // ---------------------------------------------------------------- no aliasing

  /**
   * Whatever shifts have done to its cached position, a handle resolves to the series it was issued for, and to
   * nothing exactly when that incarnation is no longer registered.
   */
  lemma ResolveExact(r: Registry, k: nat)
    requires Inv(r) && k < |r.tickets|
    ensures match Resolve(r, k).1
            case Some(i) => i < |r.series| && r.series[i] == r.tickets[k].slot
            case None => r.tickets[k].slot !in r.series
  {}

  /** Handles are never reissued for another incarnation, and generations never come back. */
  ghost predicate Later(r: Registry, r': Registry) {
    && |r.tickets| <= |r'.tickets| && r.next <= r'.next
    && (forall k :: 0 <= k < |r.tickets| ==> r'.tickets[k].slot == r.tickets[k].slot)
    && (forall s :: s in r'.series && s.generation <= r.next ==> s in r.series)
  }

  lemma StepLater(r: Registry, op: Op)
    requires Inv(r)
    ensures Later(r, Step(r, op))
  {
    match op
    case DeleteOp(name) => DeleteKeeps(r, name);
    case _ =>
  }

  lemma LaterTransitive(a: Registry, b: Registry, c: Registry)
    requires Later(a, b) && Later(b, c)
    ensures Later(a, c)
  {}

  lemma {:induction false} RunLater(r: Registry, ops: seq<Op>)
    requires Inv(r)
    ensures Inv(Run(r, ops)) && Later(r, Run(r, ops))
    decreases |ops|
  {
    hide Inv, Step, Later;
    if ops == [] {
      assert Later(r, r) by {
        LaterReflexive(r);
      }
    } else {
      StepKeeps(r, ops[0]);
      StepLater(r, ops[0]);
      RunLater(Step(r, ops[0]), ops[1..]);
      LaterTransitive(r, Step(r, ops[0]), Run(Step(r, ops[0]), ops[1..]));
    }
  }

  lemma LaterReflexive(r: Registry)
    ensures Later(r, r)
  {}

  /**
   * Over every run: a handle obtained for a name resolves, any number of creates, deletes and lookups later, to that
   * same incarnation or to nothing; and once it resolves to nothing it does so for ever.
   */
  lemma HandlesNeverAlias(r: Registry, name: Name, ops: seq<Op>, more: seq<Op>)
    requires Inv(r) && NamePosition(r.series, name) < |r.series|
    ensures var slot := r.series[NamePosition(r.series, name)];
            var (r0, h) := GetHandle(r, name);
            var r1 := Run(r0, ops);
            var r2 := Run(r1, more);
            && h.Some? && h.value < |r1.tickets| && h.value < |r2.tickets|
            && (match Resolve(r1, h.value).1
                case Some(i) => i < |r1.series| && r1.series[i] == slot
                case None => slot !in r1.series && Resolve(r2, h.value).1 == None)
  {
    hide Step, Located;
    var slot := r.series[NamePosition(r.series, name)];
    var (r0, h) := GetHandle(r, name);
    GetKeeps(r, name);
    assert r0.tickets[h.value].slot == slot;
    RunLater(r0, ops);
    var r1 := Run(r0, ops);
    ResolveExact(r1, h.value);
    RunLater(r1, more);
    var r2 := Run(r1, more);
    ResolveExact(r2, h.value);
    assert r1.tickets[h.value].slot == slot && r2.tickets[h.value].slot == slot;
    assert slot in r2.series ==> slot in r1.series;
    hide Inv, Run;
  }

  // ---------------------------------------------------------------- the registry in memory

  class HandleObject {
    const owner: SeriesTable
    const slot: Slot
    var position: nat

    constructor (owner: SeriesTable, slot: Slot, position: nat)
      ensures this.owner == owner && this.slot == slot && this.position == position
    {
      this.owner, this.slot, this.position := owner, slot, position;
    }
  }

  /** The series array of an open database with the handles it has handed out. */
  class SeriesTable {
    var series: seq<Slot>
    var next: nat
    var handles: seq<HandleObject>

    ghost predicate Valid()
      reads this, handles
    {
      && (forall k :: 0 <= k < |handles| ==> handles[k].owner == this)
      && (forall j, k :: 0 <= j < k < |handles| ==> handles[j] != handles[k])
      && Inv(Value())
    }

    ghost function Value(): (r: Registry)
      reads this, handles
      ensures r.series == series && r.next == next && |r.tickets| == |handles|
      ensures forall k :: 0 <= k < |handles| ==> r.tickets[k] == Ticket(handles[k].slot, handles[k].position)
    {
      Registry(series, next, seq(|handles|, k requires 0 <= k < |handles| reads this, handles =>
        Ticket(handles[k].slot, handles[k].position)))
    }

    constructor ()
      ensures Valid() && Value() == Registry([], 0, [])
    {
      series, next, handles := [], 0, [];
    }

    method FindName(name: Name) returns (i: nat)
      ensures i == NamePosition(series, name)
    {
      i := 0;
      while i < |series| && series[i].name != name
        invariant i <= |series| && forall j :: 0 <= j < i ==> series[j].name != name
      {
        i := i + 1;
      }
    }

    method AddSeries(name: Name)
      requires Valid()
      modifies this`series, this`next
      ensures Valid() && handles == old(handles) && Value() == Create(old(Value()), name)
    {
      CreateKeeps(Value(), name);
      var i := FindName(name);
      if i == |series| {
        next := next + 1;
        series := series + [Slot(name, next)];
      }
      assert Value().tickets == old(Value().tickets);
    }

    method RemoveSeries(name: Name) returns (found: bool)
      requires Valid()
      modifies this`series
      ensures Valid() && handles == old(handles) && Value() == Delete(old(Value()), name)
      ensures found <==> exists s :: s in old(series) && s.name == name
    {
      DeleteKeeps(Value(), name);
      var i := FindName(name);
      found := i < |series|;
      if found {
        assert series[i] in series;
        series := series[..i] + series[i + 1..];
      }
      assert Value().tickets == old(Value().tickets);
    }

    /** Reuses the handle of the current incarnation if one has been issued. */
    method Acquire(name: Name) returns (h: HandleObject?)
      requires Valid()
      modifies this`handles, handles
      ensures Valid() && Value() == GetHandle(old(Value()), name).0
      ensures match GetHandle(old(Value()), name).1
              case None => h == null && handles == old(handles)
              case Some(k) => k < |handles| && h == handles[k]
      ensures forall k :: 0 <= k < |old(handles)| ==> k < |handles| && handles[k] == old(handles)[k]
    {
      hide Inv, Position, NamePosition, TicketPosition;
      GetKeeps(Value(), name);
      var i := FindName(name);
      if i == |series| {
        return null;
      }
      ghost var before := Value();
      var k := FindHandle(series[i]);
      if k < |handles| {
        handles[k].position := i;
        h := handles[k];
      } else {
        h := new HandleObject(this, series[i], i);
        handles := handles + [h];
      }
      assert Value().tickets == GetHandle(before, name).0.tickets;
    }

    method FindHandle(slot: Slot) returns (k: nat)
      requires Valid()
      ensures k == TicketPosition(Value().tickets, slot)
    {
      k := 0;
      ghost var tickets := Value().tickets;
      while k < |handles| && handles[k].slot != slot
        invariant k <= |handles| && forall j :: 0 <= j < k ==> tickets[j].slot != slot
      {
        k := k + 1;
      }
    }

    method FindSlot(slot: Slot) returns (i: nat)
      ensures i == Position(series, slot)
    {
      i := 0;
      while i < |series| && series[i] != slot
        invariant i <= |series| && forall j :: 0 <= j < i ==> series[j] != slot
      {
        i := i + 1;
      }
    }

    /** The current position of a handle's series; a handle of another database is refused. */
    method Lookup(h: HandleObject) returns (invalid: bool, r: Option<nat>)
      requires Valid() && (h.owner == this ==> h in handles)
      modifies h`position
      ensures Valid() && invalid == (h.owner != this)
      ensures invalid ==> r == None && Value() == old(Value())
      ensures !invalid ==> r == Located(series, Ticket(h.slot, old(h.position)))
      ensures forall k :: 0 <= k < |handles| && handles[k] == h ==>
                Value() == Resolve(old(Value()), k).0 && r == Resolve(old(Value()), k).1
    {
      hide Inv, Position;
      if h.owner != this {
        return true, None;
      }
      ghost var before := Value();
      ghost var k :| 0 <= k < |handles| && handles[k] == h;
      invalid := false;
      r := None;
      if h.position < |series| && series[h.position].generation == h.slot.generation {
        r := Some(h.position);
        assert before == before.(tickets := before.tickets[k := before.tickets[k]]);
      } else {
        var i := FindSlot(h.slot);
        if i < |series| {
          RefreshKeeps(before, k, i);
          h.position := i;
          r := Some(i);
          assert Value() == before.(tickets := before.tickets[k := before.tickets[k].(position := i)]);
        }
      }
    }
  }
}
