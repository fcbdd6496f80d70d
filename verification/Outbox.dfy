/** Storing and publishing raw messages: `IngestRaw`, `publishArchivedRaw` and `retryPendingRaw` of
    internal/core/engine.go, over the repository of internal/adapters/memory and the store of
    internal/adapters/rawstore.

    Any number of ingests and retries, on any number of nodes, interleave at their calls into the repository, the
    archive and the bus. Each call may work, fail, or take effect and still be reported as failed. */
module Outbox {
  import opened Common

  type Key = string       // tenant and message id
  type Task = nat
  type Backend = nat

  /** `snapshot` is all metadata that travels with the message, the parser version among it. A payload stands for its
      hash as well. */
  datatype Raw = Raw(key: Key, product: string, device: string, snapshot: string, payload: seq<byte>)

  datatype Index = Index(product: string, device: string, payload: seq<byte>, backend: Backend, publishedAt: nat,
                         lastError: string)

  datatype Store = Store(
    reservations: map<Key, Raw>, archive: map<(Backend, Key), Raw>, index: map<Key, Index>, bus: seq<Raw>)

  predicate SameMessage(a: Raw, b: Raw) {
    a.payload == b.payload && a.product == b.product && a.device == b.device
  }

  predicate Indexes(i: Index, raw: Raw) {
    i.payload == raw.payload && i.product == raw.product && i.device == raw.device
  }

  // ---------- the repository ----------

  /** The first message of a key fixes the snapshot; a retransmission gets it back, another message is a conflict. */
  function Reserve(s: Store, raw: Raw): (Store, Option<Raw>) {
    if raw.key in s.reservations then
      var first := s.reservations[raw.key];
      (s, if SameMessage(first, raw) then Some(first.(payload := raw.payload)) else None)
    else (s.(reservations := s.reservations[raw.key := raw]), Some(raw))
  }

  function Archived(s: Store, b: Backend, raw: Raw): (Store, bool) {
    if (b, raw.key) in s.archive then (s, SameMessage(s.archive[(b, raw.key)], raw))
    else (s.(archive := s.archive[(b, raw.key) := raw]), true)
  }

  function Saved(s: Store, raw: Raw, b: Backend): Store {
    if raw.key in s.index then s
    else s.(index := s.index[raw.key := Index(raw.product, raw.device, raw.payload, b, 0, "")])
  }

  function Marked(s: Store, key: Key, at: nat, error: string): Store {
    if key !in s.index then s
    else
      var i := s.index[key].(lastError := error);
      s.(index := s.index[key := if error == "" then i.(publishedAt := at) else i])
  }

  class Repository {
    var rawReservations: map<Key, Raw>
    var raw: map<Key, Index>
    ghost var archive: map<(Backend, Key), Raw>
    ghost var bus: seq<Raw>

    ghost function View(): Store
      reads this
    {
      Store(rawReservations, archive, raw, bus)
    }

    constructor ()
      ensures View() == Store(map[], map[], map[], [])
    {
      rawReservations, raw, archive, bus := map[], map[], map[], [];
    }

    method ReserveRawMessage(v: Raw) returns (canonical: Option<Raw>)
      modifies this`rawReservations
      ensures (View(), canonical) == Reserve(old(View()), v)
    {
      if v.key in rawReservations {
        var first := rawReservations[v.key];
        if first.payload != v.payload || first.product != v.product || first.device != v.device {
          return None;
        }
        return Some(first.(payload := v.payload));
      }
      rawReservations := rawReservations[v.key := v];
      return Some(v);
    }

    method SaveRawIndex(v: Raw, b: Backend) returns (created: bool)
      modifies this`raw
      ensures View() == Saved(old(View()), v, b) && (created <==> v.key !in old(raw))
    {
      if v.key in raw {
        return false;
      }
      raw := raw[v.key := Index(v.product, v.device, v.payload, b, 0, "")];
      return true;
    }

    method MarkRawPublished(key: Key, at: nat, lastError: string) returns (found: bool)
      modifies this`raw
      ensures View() == Marked(old(View()), key, at, lastError) && (found <==> key in old(raw))
    {
      if key !in raw {
        return false;
      }
      var v := raw[key];
      v := v.(lastError := lastError);
      if lastError == "" {
        v := v.(publishedAt := at);
      }
      raw := raw[key := v];
      return true;
    }
  }

  // ---------- ingests and retries ----------

  /** Where a task is. `caller` is the message whose ingest it serves, none for the retry loop. */
  datatype Pc =
    | Looking(raw: Raw)
    | Reserving(raw: Raw)
    | Archiving(raw: Raw)
    | Indexing(raw: Raw, backend: Backend)
    | Rereading(raw: Raw)
    | Reading(key: Key, idx: Index, caller: Option<Raw>)
    | Publishing(message: Raw, caller: Option<Raw>)
    | Marking(message: Raw, caller: Option<Raw>)
    | Done(caller: Option<Raw>, ok: bool)

  datatype Fault = Works | FailsBefore | FailsAfter

  datatype State = State(store: Store, tasks: map<Task, Pc>)

  datatype Step =
    | Ingest(t: Task, raw: Raw)
    | Retry(t: Task, key: Key)
    | Call(t: Task, fault: Fault, backend: Backend, now: nat, error: string, noted: bool)

  function Initial(): State {
    State(Store(map[], map[], map[], []), map[])
  }

  function Failed(caller: Option<Raw>): Pc {
    Done(caller, false)
  }

  /** The next call of a task, and where the task is then. A failed publication is noted in the index, unless that
      fails as well, which the source ignores. */
  function Called(s: Store, pc: Pc, fault: Fault, backend: Backend, now: nat, error: string, noted: bool): (Store, Pc) {
    match pc
    case Looking(raw) =>
      if fault != Works || raw.key !in s.index then (s, Reserving(raw))
      else
        var i := s.index[raw.key];
        if !Indexes(i, raw) then (s, Failed(Some(raw)))
        else if i.publishedAt == 0 then (s, Reading(raw.key, i, Some(raw)))
        else (s, Done(Some(raw), true))
    case Reserving(raw) =>
      if fault == FailsBefore then (s, Failed(Some(raw)))
      else
        var (s', canonical) := Reserve(s, raw);
        (s', if fault == Works && canonical.Some? then Archiving(canonical.value) else Failed(Some(raw)))
    case Archiving(raw) =>
      if fault == FailsBefore then (s, Failed(Some(raw)))
      else
        var (s', ok) := Archived(s, backend, raw);
        (s', if fault == Works && ok then Indexing(raw, backend) else Failed(Some(raw)))
    case Indexing(raw, b) =>
      if fault == FailsBefore then (s, Failed(Some(raw)))
      else
        (Saved(s, raw, b),
         if fault != Works then Failed(Some(raw))
         else if raw.key in s.index then Rereading(raw) else Publishing(raw, Some(raw)))
    case Rereading(raw) =>
      (s, Done(Some(raw), fault == Works && raw.key in s.index && Indexes(s.index[raw.key], raw)))
    case Reading(key, i, caller) =>
      if fault == Works && (i.backend, key) in s.archive then (s, Publishing(s.archive[(i.backend, key)], caller))
      else (if caller.None? && noted then Marked(s, key, 0, error) else s, Failed(caller))
    case Publishing(message, caller) =>
      if fault == Works then (s.(bus := s.bus + [message]), Marking(message, caller))
      else
        var s' := if fault == FailsAfter then s.(bus := s.bus + [message]) else s;
        (if noted then Marked(s', message.key, 0, error) else s', Failed(caller))
    case Marking(message, caller) =>
      (if fault == FailsBefore then s else Marked(s, message.key, now, ""),
       Done(caller, fault == Works && message.key in s.index))
    case Done(_, _) => (s, pc)
  }

  function Apply(s: State, step: Step): Option<State> {
    match step
    case Ingest(t, raw) => if t in s.tasks then None else Some(s.(tasks := s.tasks[t := Looking(raw)]))
    case Retry(t, key) =>
      if t in s.tasks || key !in s.store.index || s.store.index[key].publishedAt != 0 then None
      else Some(s.(tasks := s.tasks[t := Reading(key, s.store.index[key], None)]))
    case Call(t, fault, backend, now, error, noted) =>
      if t !in s.tasks then None
      else
        var (store, pc) := Called(s.store, s.tasks[t], fault, backend, now, error, noted);
        Some(State(store, s.tasks[t := pc]))
  }

  function After(run: seq<Step>): Option<State> {
    if run == [] then Some(Initial())
    else
      match After(run[..|run| - 1])
      case None => None
      case Some(s) => Apply(s, run[|run| - 1])
  }

  // ---------- the invariant ----------

  /** `raw` is the message reserved for its key, snapshot and all. */
  predicate Canonical(s: Store, raw: Raw) {
    raw.key in s.reservations && s.reservations[raw.key] == raw
  }

  ghost predicate StoreSane(s: Store) {
    && (forall k :: k in s.reservations ==> s.reservations[k].key == k)
    && (forall b, k :: (b, k) in s.archive ==> s.archive[(b, k)].key == k && Canonical(s, s.archive[(b, k)]))
    && (forall k :: k in s.index ==>
                      (s.index[k].backend, k) in s.archive && Indexes(s.index[k], s.archive[(s.index[k].backend, k)]))
    && (forall r :: r in s.bus ==> Canonical(s, r) && r.key in s.index)
    && (forall k :: k in s.index && s.index[k].publishedAt != 0 ==> exists r :: r in s.bus && r.key == k)
  }

  /** A caller whose message is stored: its key is indexed for just this message. */
  predicate Stored(s: Store, raw: Raw) {
    raw.key in s.index && Indexes(s.index[raw.key], raw)
  }

  predicate CallerStored(s: Store, caller: Option<Raw>) {
    caller.Some? ==> Stored(s, caller.value)
  }

  predicate Ready(s: Store, message: Raw, caller: Option<Raw>) {
    Canonical(s, message) && message.key in s.index && CallerStored(s, caller)
  }

  predicate TaskSane(s: Store, pc: Pc) {
    match pc
    case Looking(_) => true
    case Reserving(_) => true
    case Archiving(raw) => Canonical(s, raw)
    case Indexing(raw, b) => Canonical(s, raw) && (b, raw.key) in s.archive
    case Rereading(raw) => Canonical(s, raw)
    case Reading(key, i, caller) => key in s.index && s.index[key].backend == i.backend && CallerStored(s, caller)
    case Publishing(message, caller) => Ready(s, message, caller)
    case Marking(message, caller) => Ready(s, message, caller) && message in s.bus
    case Done(caller, ok) => ok ==> CallerStored(s, caller)
  }

  /** What no step undoes: reservations, archived messages, index rows with their message, publications. */
  ghost predicate Extends(s: Store, t: Store) {
    && (forall k :: k in s.reservations ==> k in t.reservations && t.reservations[k] == s.reservations[k])
    && (forall a :: a in s.archive ==> a in t.archive && t.archive[a] == s.archive[a])
    && (forall k :: k in s.index ==>
                      k in t.index && t.index[k].backend == s.index[k].backend && t.index[k].payload == s.index[k].payload
                      && t.index[k].product == s.index[k].product && t.index[k].device == s.index[k].device)
    && s.bus <= t.bus
  }

  lemma TasksStaySane(s: Store, t: Store, pc: Pc)
    requires Extends(s, t) && TaskSane(s, pc)
    ensures TaskSane(t, pc)
  {
  }

  lemma ReserveSane(s: Store, raw: Raw)
    ensures Extends(s, Reserve(s, raw).0)
    ensures StoreSane(s) ==> StoreSane(Reserve(s, raw).0)
    ensures StoreSane(s) && Reserve(s, raw).1.Some? ==> Canonical(Reserve(s, raw).0, Reserve(s, raw).1.value)
  {
  }

  lemma ArchivedSane(s: Store, b: Backend, raw: Raw)
    requires Canonical(s, raw)
    ensures Extends(s, Archived(s, b, raw).0) && (b, raw.key) in Archived(s, b, raw).0.archive
    ensures StoreSane(s) ==> StoreSane(Archived(s, b, raw).0)
  {
  }

  lemma SavedSane(s: Store, raw: Raw, b: Backend)
    requires Canonical(s, raw) && (b, raw.key) in s.archive
    ensures Extends(s, Saved(s, raw, b))
    ensures StoreSane(s) ==> StoreSane(Saved(s, raw, b)) && Stored(Saved(s, raw, b), raw)
  {
    if StoreSane(s) {
      assert Canonical(s, s.archive[(b, raw.key)]);
      assert raw.key in s.index ==> Canonical(s, s.archive[(s.index[raw.key].backend, raw.key)]);
    }
  }

  lemma BusSane(s: Store, message: Raw)
    requires Canonical(s, message) && message.key in s.index
    ensures Extends(s, s.(bus := s.bus + [message]))
    ensures StoreSane(s) ==> StoreSane(s.(bus := s.bus + [message]))
  {
  }

  lemma MarkedSane(s: Store, key: Key, at: nat, error: string)
    requires error == "" && at != 0 && key in s.index ==> exists r :: r in s.bus && r.key == key
    ensures Extends(s, Marked(s, key, at, error))
    ensures StoreSane(s) ==> StoreSane(Marked(s, key, at, error))
  {
  }

  lemma ExtendsFurther(s: Store, t: Store, u: Store)
    requires Extends(s, t) && Extends(t, u)
    ensures Extends(s, u)
  {
  }

  /** A call undoes nothing and keeps the store sane. */
  lemma CallKeepsSane(s: Store, pc: Pc, fault: Fault, backend: Backend, now: nat, error: string, noted: bool)
    requires StoreSane(s) && TaskSane(s, pc)
    ensures StoreSane(Called(s, pc, fault, backend, now, error, noted).0)
    ensures Extends(s, Called(s, pc, fault, backend, now, error, noted).0)
  {
    hide StoreSane, Extends, Reserve, Archived, Saved, Marked, Canonical;
    ExtendsItself(s);
    match pc
    case Looking(raw) =>
    case Reserving(raw) => ReserveSane(s, raw);
    case Archiving(raw) => ArchivedSane(s, backend, raw);
    case Indexing(raw, b) => SavedSane(s, raw, b);
    case Rereading(raw) =>
    case Reading(key, i, caller) => MarkedSane(s, key, 0, error);
    case Publishing(message, caller) =>
      var t := s.(bus := s.bus + [message]);
      BusSane(s, message);
      MarkedSane(s, message.key, 0, error);
      MarkedSane(t, message.key, 0, error);
      ExtendsFurther(s, t, Marked(t, message.key, 0, error));
    case Marking(message, caller) => MarkedSane(s, message.key, now, "");
    case Done(_, _) =>
  }

  lemma ExtendsItself(s: Store)
    ensures Extends(s, s)
  {
  }

  lemma CallAdvances(s: Store, pc: Pc, fault: Fault, backend: Backend, now: nat, error: string, noted: bool)
    requires StoreSane(s) && TaskSane(s, pc)
    ensures
      var (t, next) := Called(s, pc, fault, backend, now, error, noted);
      TaskSane(t, next)
  {
  }

  ghost predicate Inv(s: State) {
    StoreSane(s.store) && forall t :: t in s.tasks ==> TaskSane(s.store, s.tasks[t])
  }

  /** A step of any task keeps the invariant and undoes nothing. */
  lemma StepKeepsInv(s: State, step: Step)
    requires Inv(s) && Apply(s, step).Some?
    ensures Inv(Apply(s, step).value) && Extends(s.store, Apply(s, step).value.store)
  {
    hide StoreSane, Extends, TaskSane, Called;
    var n := Apply(s, step).value;
    match step
    case Ingest(t, raw) =>
      ExtendsItself(s.store);
      LookingSane(s.store, raw);
    case Retry(t, key) =>
      ExtendsItself(s.store);
      ReadingSane(s.store, key);
    case Call(t, fault, backend, now, error, noted) =>
      CallKeepsSane(s.store, s.tasks[t], fault, backend, now, error, noted);
      CallAdvances(s.store, s.tasks[t], fault, backend, now, error, noted);
      forall u | u in s.tasks
        ensures TaskSane(n.store, s.tasks[u])
      {
        TasksStaySane(s.store, n.store, s.tasks[u]);
      }
  }

  lemma LookingSane(s: Store, raw: Raw)
    ensures TaskSane(s, Looking(raw))
  {
  }

  lemma ReadingSane(s: Store, key: Key)
    requires key in s.index
    ensures TaskSane(s, Reading(key, s.index[key], None))
  {
  }

  lemma {:induction false} RunKeepsInv(run: seq<Step>)
    requires After(run).Some?
    ensures Inv(After(run).value)
  {
    hide Apply, StoreSane, TaskSane, Extends;
    if run == [] {
      InitialInv();
    } else {
      RunKeepsInv(run[..|run| - 1]);
      StepKeepsInv(After(run[..|run| - 1]).value, run[|run| - 1]);
    }
  }

  lemma InitialInv()
    ensures Inv(Initial())
  {
  }

  lemma {:induction false} RunExtends(run: seq<Step>, k: nat)
    requires After(run).Some? && k <= |run|
    ensures After(run[..k]).Some? && Extends(After(run[..k]).value.store, After(run).value.store)
  {
    hide Apply, StoreSane, TaskSane, Extends;
    if k == |run| {
      assert run[..k] == run;
      ExtendsItself(After(run).value.store);
    } else {
      var shorter := run[..|run| - 1];
      RunExtends(shorter, k);
      assert shorter[..k] == run[..k];
      RunKeepsInv(shorter);
      StepKeepsInv(After(shorter).value, run[|run| - 1]);
      ExtendsFurther(After(run[..k]).value.store, After(shorter).value.store, After(run).value.store);
    }
  }

  // ---------- what every run guarantees ----------

  /** Every publication of a key, by an ingest or a retry, is one and the same message: the one first reserved. */
  lemma PublicationsAgree(run: seq<Step>, i: nat, j: nat)
    requires After(run).Some? && i < |After(run).value.store.bus| && j < |After(run).value.store.bus|
    requires After(run).value.store.bus[i].key == After(run).value.store.bus[j].key
    ensures After(run).value.store.bus[i] == After(run).value.store.bus[j]
  {
    RunKeepsInv(run);
    var s := After(run).value.store;
    assert Canonical(s, s.bus[i]) && Canonical(s, s.bus[j]);
  }

  /** What is published is reserved, archived and indexed, and each of them holds this message. */
  lemma PublishedMeansStored(run: seq<Step>, r: Raw)
    requires After(run).Some? && r in After(run).value.store.bus
    ensures
      var s := After(run).value.store;
      && r.key in s.reservations && s.reservations[r.key] == r
      && r.key in s.index && Indexes(s.index[r.key], r)
      && (s.index[r.key].backend, r.key) in s.archive && s.archive[(s.index[r.key].backend, r.key)] == r
  {
    RunKeepsInv(run);
    var s := After(run).value.store;
    assert Canonical(s, r);
    assert Canonical(s, s.archive[(s.index[r.key].backend, r.key)]);
  }

  /** The snapshot fixed by the first reservation is the one published, however much later. */
  lemma ReservationDecides(run: seq<Step>, k: nat, r: Raw)
    requires After(run).Some? && k <= |run| && r in After(run).value.store.bus
    ensures After(run[..k]).Some?
    ensures
      var early := After(run[..k]).value.store.reservations;
      r.key in early ==> early[r.key] == r
  {
    RunExtends(run, k);
    PublishedMeansStored(run, r);
  }

  /** An ingest that reported success has stored its message for good: it is on the bus, or the retry loop lists it. */
  lemma SuccessIsPublishedOrPending(run: seq<Step>, t: Task, raw: Raw)
    requires After(run).Some? && t in After(run).value.tasks && After(run).value.tasks[t] == Done(Some(raw), true)
    ensures
      var s := After(run).value;
      && raw.key in s.store.index && Indexes(s.store.index[raw.key], raw)
      && ((exists r :: r in s.store.bus && r.key == raw.key && SameMessage(r, raw))
          || (s.store.index[raw.key].publishedAt == 0 && forall u :: u !in s.tasks ==> Apply(s, Retry(u, raw.key)).Some?))
  {
    RunKeepsInv(run);
    var s := After(run).value;
    assert TaskSane(s.store, s.tasks[t]);
    if s.store.index[raw.key].publishedAt != 0 {
      var r :| r in s.store.bus && r.key == raw.key;
      PublishedMeansStored(run, r);
    }
  }

  lemma Do(run: seq<Step>, s: State, step: Step) returns (longer: seq<Step>, n: State)
    requires After(run) == Some(s) && Apply(s, step).Some?
    ensures longer == run + [step] && After(longer) == Some(n) && Apply(s, step) == Some(n)
  {
    longer, n := run + [step], Apply(s, step).value;
    assert longer[..|run|] == run;
  }

  /** From every reachable state one undisturbed retry publishes a pending message and takes it off the pending list. */
  lemma RetryPublishes(run: seq<Step>, t: Task, key: Key, now: nat) returns (longer: seq<Step>)
    requires After(run).Some? && key in After(run).value.store.index && t !in After(run).value.tasks
    requires After(run).value.store.index[key].publishedAt == 0 && now != 0
    ensures longer == run + [Retry(t, key)] + seq(3, _ => Call(t, Works, 0, now, "", true))
    ensures After(longer).Some?
    ensures
      var s := After(longer).value.store;
      && key in s.index && key in s.reservations && s.index[key].publishedAt == now
      && exists r :: r in s.bus && r.key == key && r == s.reservations[key]
  {
    var step, s := Call(t, Works, 0, now, "", true), After(run).value;
    RunKeepsInv(run);
    longer, s := Do(run, s, Retry(t, key));
    var r := s.store.archive[(s.store.index[key].backend, key)];
    longer, s := Do(longer, s, step);
    longer, s := Do(longer, s, step);
    assert r in s.store.bus;
    longer, s := Do(longer, s, step);
    assert longer == run + [Retry(t, key)] + seq(3, _ => step);
    RunKeepsInv(longer);
    assert Canonical(s.store, r);
  }
}
