/** The reference-counted mutex of one serial bus behind a TCP endpoint: `lockModbusBus` of
    internal/protocolruntime/rtu_tcp.go. */
module BusLock {
  import opened Common

  type Key = string
  type Bus = nat
  type Thread = nat

  /** The shared map, and every bus object made so far: its reference count and whether its token channel is full. */
  datatype Table = Table(entries: map<Key, Bus>, refs: map<Bus, nat>, full: set<Bus>, made: nat)

  /** The bus that a caller of `key` gets. */
  function BusFor(t: Table, key: Key): Bus {
    if key in t.entries then t.entries[key] else t.made
  }

  function Entered(t: Table, key: Key): Table {
    var b := BusFor(t, key);
    t.(entries := t.entries[key := b], refs := t.refs[b := (if b in t.refs then t.refs[b] else 0) + 1],
       made := if key in t.entries then t.made else t.made + 1)
  }

  /** `releaseRef` deletes whatever the map holds for `key` once the count is zero. */
  function Dropped(t: Table, key: Key, b: Bus): Table
    requires b in t.refs && t.refs[b] > 0
  {
    t.(refs := t.refs[b := t.refs[b] - 1], entries := if t.refs[b] == 1 then t.entries - {key} else t.entries)
  }

  class Buses {
    var entries: map<Key, Bus>
    var refs: map<Bus, nat>
    var full: set<Bus>
    var made: nat

    ghost function View(): Table
      reads this
    {
      Table(entries, refs, full, made)
    }

    constructor ()
      ensures View() == Table(map[], map[], {}, 0)
    {
      entries, refs, full, made := map[], map[], {}, 0;
    }

    method Enter(key: Key) returns (b: Bus)
      requires forall k :: k in entries ==> entries[k] in refs
      requires made !in refs
      modifies this
      ensures b == BusFor(old(View()), key) && View() == Entered(old(View()), key)
    {
      if key in entries {
        b := entries[key];
      } else {
        b := made;
        made := made + 1;
        refs := refs[b := 0];
        entries := entries[key := b];
      }
      refs := refs[b := refs[b] + 1];
      assert entries == old(entries)[key := b];
    }

    method ReleaseRef(key: Key, b: Bus)
      requires b in refs && refs[b] > 0
      modifies this
      ensures View() == Dropped(old(View()), key, b)
    {
      refs := refs[b := refs[b] - 1];
      if refs[b] == 0 {
        entries := entries - {key};
      }
    }
  }

  // ---------- the protocol ----------

  datatype Phase =
    | Waiting     // in the select
    | Holding     // put its token into the channel
    | Returned    // took it out again, reference not yet dropped
    | Cancelled   // its context ended first, reference not yet dropped
    | Gone

  datatype Caller = Caller(key: Key, bus: Bus, phase: Phase)

  datatype State = State(table: Table, callers: map<Thread, Caller>)

  datatype Step = Enter(t: Thread, key: Key) | Acquire(t: Thread) | Cancel(t: Thread) | Return(t: Thread) | Drop(t: Thread)

  function Initial(): State {
    State(Table(map[], map[], {}, 0), map[])
  }

  function Move(s: State, t: Thread, p: Phase): map<Thread, Caller>
    requires t in s.callers
  {
    s.callers[t := s.callers[t].(phase := p)]
  }

  function Apply(s: State, step: Step): Option<State> {
    if step.Enter? then
      if step.t in s.callers then None
      else
        Some(State(Entered(s.table, step.key),
                   s.callers[step.t := Caller(step.key, BusFor(s.table, step.key), Waiting)]))
    else if step.t !in s.callers then None
    else
      var c, b := s.callers[step.t], s.callers[step.t].bus;
      match step
      case Acquire(t) =>
        if c.phase.Waiting? && b !in s.table.full then
          Some(State(s.table.(full := s.table.full + {b}), Move(s, t, Holding)))
        else None
      case Cancel(t) => if c.phase.Waiting? then Some(s.(callers := Move(s, t, Cancelled))) else None
      case Return(t) =>
        if c.phase.Holding? && b in s.table.full then
          Some(State(s.table.(full := s.table.full - {b}), Move(s, t, Returned)))
        else None
      case Drop(t) =>
        if (c.phase.Returned? || c.phase.Cancelled?) && b in s.table.refs && s.table.refs[b] > 0 then
          Some(State(Dropped(s.table, c.key, b), Move(s, t, Gone)))
        else None
  }

  function After(run: seq<Step>): Option<State> {
    if run == [] then Some(Initial())
    else
      match After(run[..|run| - 1])
      case None => None
      case Some(s) => Apply(s, run[|run| - 1])
  }

  // ---------- the invariant ----------

  /** The callers that still count as references of `b`. */
  function Users(callers: map<Thread, Caller>, b: Bus): set<Thread> {
    set t | t in callers && callers[t].bus == b && !callers[t].phase.Gone?
  }

  predicate Holds(s: State, t: Thread, b: Bus) {
    t in s.callers && s.callers[t].bus == b && s.callers[t].phase.Holding?
  }

  function Refs(t: Table, b: Bus): nat {
    if b in t.refs then t.refs[b] else 0
  }

  ghost predicate RefsExact(s: State, b: Bus) {
    Refs(s.table, b) == |Users(s.callers, b)|
  }

  ghost predicate TokenSane(s: State) {
    && (forall b :: b in s.table.full ==> exists t :: Holds(s, t, b))
    && (forall t, b :: Holds(s, t, b) ==> b in s.table.full)
    && (forall t, u, b :: Holds(s, t, b) && Holds(s, u, b) ==> t == u)
  }

  /** Every caller's bus is the one the map has for its key, as long as the caller holds a reference. */
  ghost predicate TableSane(s: State) {
    && (forall k :: k in s.table.entries ==> s.table.entries[k] < s.table.made && Refs(s.table, s.table.entries[k]) > 0)
    && (forall k, l :: k in s.table.entries && l in s.table.entries && s.table.entries[k] == s.table.entries[l] ==> k == l)
    && (forall b :: b in s.table.refs ==> b < s.table.made)
    && (forall t :: t in s.callers && !s.callers[t].phase.Gone? ==>
                      var c := s.callers[t];
                      c.key in s.table.entries && s.table.entries[c.key] == c.bus)
  }

  ghost predicate Inv(s: State) {
    TokenSane(s) && TableSane(s) && forall b :: RefsExact(s, b)
  }

  /** Only `Acquire` and `Return` change who holds what. */
  lemma HoldersAfter(s: State, step: Step, t: Thread, b: Bus)
    requires Apply(s, step).Some?
    ensures
      Holds(Apply(s, step).value, t, b) <==>
      if step == Acquire(t) then s.callers[t].bus == b else Holds(s, t, b) && step != Return(t)
  {
  }

  lemma StepKeepsToken(s: State, step: Step)
    requires Inv(s) && Apply(s, step).Some?
    ensures TokenSane(Apply(s, step).value)
  {
    hide RefsExact, TableSane, Holds, Entered, Dropped;
    var n := Apply(s, step).value;
    forall t, b
      ensures
        Holds(n, t, b) <==>
        if step == Acquire(t) then s.callers[t].bus == b else Holds(s, t, b) && step != Return(t)
    {
      HoldersAfter(s, step, t, b);
    }
    FullAfter(s, step);
    forall b | b in n.table.full
      ensures exists t :: Holds(n, t, b)
    {
      if step.Acquire? && s.callers[step.t].bus == b {
        assert Holds(n, step.t, b);
      } else {
        var t :| Holds(s, t, b);
        HoldsItsBus(s, t, b);
        assert Holds(n, t, b);
      }
    }
    if step.Return? {
      HoldsItsBus(s, step.t, s.callers[step.t].bus);
    }
  }

  lemma HoldsItsBus(s: State, t: Thread, b: Bus)
    ensures Holds(s, t, b) <==> t in s.callers && s.callers[t].phase.Holding? && s.callers[t].bus == b
  {
  }

  lemma FullAfter(s: State, step: Step)
    requires Apply(s, step).Some?
    ensures
      Apply(s, step).value.table.full ==
      if step.Acquire? then s.table.full + {s.callers[step.t].bus}
      else if step.Return? then s.table.full - {s.callers[step.t].bus} else s.table.full
  {
  }

  /** What a step does to the references of `b`. */
  lemma UsersAfter(s: State, step: Step, b: Bus)
    requires Apply(s, step).Some?
    ensures
      var before, after := Users(s.callers, b), Users(Apply(s, step).value.callers, b);
      if step.Enter? && BusFor(s.table, step.key) == b then step.t !in before && after == before + {step.t}
      else if step.Drop? && s.callers[step.t].bus == b then step.t in before && after == before - {step.t}
      else after == before
  {
  }

  lemma RefsAfter(s: State, step: Step, b: Bus)
    requires Apply(s, step).Some? && TableSane(s)
    ensures
      Refs(Apply(s, step).value.table, b) ==
      if step.Enter? && BusFor(s.table, step.key) == b then Refs(s.table, b) + 1
      else if step.Drop? && s.callers[step.t].bus == b then Refs(s.table, b) - 1
      else Refs(s.table, b)
  {
  }

  lemma StepKeepsRefs(s: State, step: Step, b: Bus)
    requires Inv(s) && Apply(s, step).Some?
    ensures RefsExact(Apply(s, step).value, b)
  {
    hide Apply, Users, Refs, TokenSane, TableSane, BusFor;
    assert RefsExact(s, b);
    UsersAfter(s, step, b);
    RefsAfter(s, step, b);
  }

  /** The last reference is the caller's own. */
  lemma LastUser(s: State, t: Thread)
    requires t in s.callers && !s.callers[t].phase.Gone? && RefsExact(s, s.callers[t].bus)
    requires Refs(s.table, s.callers[t].bus) == 1
    ensures forall u :: u in s.callers && !s.callers[u].phase.Gone? && s.callers[u].bus == s.callers[t].bus ==> u == t
  {
    var users := Users(s.callers, s.callers[t].bus);
    assert users == {t} by {
      assert |users - {t}| == 0;
    }
    assert forall u :: u in s.callers && !s.callers[u].phase.Gone? && s.callers[u].bus == s.callers[t].bus ==> u in users;
  }

  lemma EnterKeepsTable(s: State, t: Thread, key: Key)
    requires TableSane(s) && Apply(s, Enter(t, key)).Some?
    ensures TableSane(Apply(s, Enter(t, key)).value)
  {
  }

  lemma DropKeepsTable(s: State, t: Thread)
    requires TableSane(s) && Apply(s, Drop(t)).Some? && RefsExact(s, s.callers[t].bus)
    ensures TableSane(Apply(s, Drop(t)).value)
  {
    hide RefsExact;
    if Refs(s.table, s.callers[t].bus) == 1 {
      LastUser(s, t);
    }
  }

  lemma StepKeepsTable(s: State, step: Step)
    requires Inv(s) && Apply(s, step).Some?
    ensures TableSane(Apply(s, step).value)
  {
    hide RefsExact, TokenSane, Entered, Dropped;
    match step
    case Enter(t, key) => EnterKeepsTable(s, t, key);
    case Drop(t) => DropKeepsTable(s, t);
    case _ =>
  }

  /** A step of any caller keeps the invariant. */
  lemma StepKeepsInv(s: State, step: Step)
    requires Inv(s) && Apply(s, step).Some?
    ensures Inv(Apply(s, step).value)
  {
    hide Apply, TokenSane, TableSane, RefsExact;
    StepKeepsToken(s, step);
    StepKeepsTable(s, step);
    forall b
      ensures RefsExact(Apply(s, step).value, b)
    {
      StepKeepsRefs(s, step, b);
    }
  }

  lemma {:induction false} RunKeepsInv(run: seq<Step>)
    requires After(run).Some?
    ensures Inv(After(run).value)
  {
    hide Apply;
    if run == [] {
    } else {
      RunKeepsInv(run[..|run| - 1]);
      StepKeepsInv(After(run[..|run| - 1]).value, run[|run| - 1]);
    }
  }

  // ---------- what every run guarantees ----------

  /** At most one caller of an endpoint is between acquiring and returning. */
  lemma OneHolderPerEndpoint(run: seq<Step>, t: Thread, u: Thread)
    requires After(run).Some? && t in After(run).value.callers && u in After(run).value.callers
    requires After(run).value.callers[t].phase.Holding? && After(run).value.callers[u].phase.Holding?
    requires After(run).value.callers[t].key == After(run).value.callers[u].key
    ensures t == u
  {
    RunKeepsInv(run);
    var s := After(run).value;
    assert Holds(s, t, s.callers[t].bus) && Holds(s, u, s.callers[u].bus);
  }

  /** The callers of an endpoint that hold a reference. */
  function CallersOf(s: State, key: Key): set<Thread> {
    set t | t in s.callers && s.callers[t].key == key && !s.callers[t].phase.Gone?
  }

  /** A key is in the map exactly while a caller of that key holds a reference, and the bus it maps to counts them all. */
  lemma EntryLivesWithItsReferences(run: seq<Step>, key: Key)
    requires After(run).Some?
    ensures
      var s := After(run).value;
      && (key in s.table.entries <==> exists t :: t in CallersOf(s, key))
      && (key in s.table.entries ==>
            Refs(s.table, s.table.entries[key]) == |CallersOf(s, key)|)
  {
    RunKeepsInv(run);
    var s := After(run).value;
    if key in s.table.entries {
      var b := s.table.entries[key];
      EntryHasUser(s, key);
      assert RefsExact(s, b);
      SameUsers(s, key);
    }
  }

  lemma EntryHasUser(s: State, key: Key)
    requires TableSane(s) && key in s.table.entries && RefsExact(s, s.table.entries[key])
    ensures exists t :: t in CallersOf(s, key)
  {
    SameUsers(s, key);
    assert Users(s.callers, s.table.entries[key]) != {};
  }

  lemma SameUsers(s: State, key: Key)
    requires TableSane(s) && key in s.table.entries
    ensures Users(s.callers, s.table.entries[key]) == CallersOf(s, key)
  {
  }

  /** Two callers of one endpoint never use different buses. */
  lemma OneLiveBusPerEndpoint(run: seq<Step>, t: Thread, u: Thread)
    requires After(run).Some? && t in After(run).value.callers && u in After(run).value.callers
    requires !After(run).value.callers[t].phase.Gone? && !After(run).value.callers[u].phase.Gone?
    ensures
      var s := After(run).value;
      s.callers[t].bus == s.callers[u].bus <==> s.callers[t].key == s.callers[u].key
  {
    RunKeepsInv(run);
  }

  /** The cleanup never fails: whoever returns or gives up still has a token or a reference to give back. */
  lemma CleanupAlwaysPossible(run: seq<Step>, t: Thread)
    requires After(run).Some? && t in After(run).value.callers
    ensures
      var s := After(run).value;
      match s.callers[t].phase
      case Holding => Apply(s, Return(t)).Some?
      case Returned | Cancelled => Apply(s, Drop(t)).Some?
      case Waiting =>
        Apply(s, Cancel(t)).Some? && (Apply(s, Acquire(t)).None? ==> exists u :: Holds(s, u, s.callers[t].bus))
      case Gone => true
  {
    RunKeepsInv(run);
    var s := After(run).value;
    var b := s.callers[t].bus;
    assert Holds(s, t, b) <==> s.callers[t].phase.Holding?;
  }

  lemma Do(run: seq<Step>, s: State, step: Step) returns (longer: seq<Step>, t: State)
    requires After(run) == Some(s) && Apply(s, step).Some?
    ensures longer == run + [step] && After(longer) == Some(t) && Apply(s, step) == Some(t)
  {
    longer, t := run + [step], Apply(s, step).value;
    assert longer[..|run|] == run;
  }

  /** Whoever comes may have the bus: from every reachable state a new caller holds the endpoint it asked for, as soon as
      the one that holds it, if any, has returned. */
  lemma NewcomerGetsTheBus(run: seq<Step>, t: Thread, key: Key) returns (holder: Option<Thread>)
    requires After(run).Some? && t !in After(run).value.callers
    ensures
      holder.Some? ==>
        var s := After(run).value;
        holder.value in s.callers && s.callers[holder.value].key == key && s.callers[holder.value].phase.Holding?
    ensures
      var turn := if holder.Some? then [Return(holder.value)] else [];
      var longer := run + [Enter(t, key)] + turn + [Acquire(t)];
      After(longer).Some? && t in After(longer).value.callers
      && After(longer).value.callers[t].key == key && After(longer).value.callers[t].phase == Holding
  {
    var longer, s := Do(run, After(run).value, Enter(t, key));
    RunKeepsInv(longer);
    hide Entered;
    var b := s.callers[t].bus;
    holder := None;
    if b in s.table.full {
      var u :| Holds(s, u, b);
      holder := Some(u);
      longer, s := Do(longer, s, Return(u));
    } else {
      assert longer + [] == longer;
    }
    longer, s := Do(longer, s, Acquire(t));
  }
}
