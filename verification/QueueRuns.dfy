/** What the durable queue keeps over whole runs: any operations, any I/O failures, crashes and reopenings. */
module QueueRuns {
  import opened Common
  import opened DurableQueue

  datatype Op =
    | Put(raw: Raw, stamp: bool, now: int, faults: set<IO>)
    | Next(first: Option<Stem>, faults: set<IO>)
    | Ack(raw: Raw, faults: set<IO>)
    | Reject(raw: Raw, faults: set<IO>)
    | Retry(listing: seq<Stem>, unstatable: set<Stem>, stuck: set<Stem>, faults: set<IO>)
    | Close
    | Reopen(crash: Option<nat>)

  ghost predicate Possible(s: State, op: Op) {
    && HasHistory(s)
    && (op.Next? ==> SortsFirst(Visible(s), op.first))
    && (op.Reopen? && op.crash.Some? ==> op.crash.value < |s.history|)
  }

  ghost function Exec(c: Config, s: State, op: Op): (t: State)
    requires Possible(s, op)
    ensures HasHistory(t)
  {
    match op
    case Put(raw, stamp, now, faults) => PutSpec(c, s, raw, stamp, now, faults).0
    case Next(first, faults) => NextSpec(c, s, first, faults).0
    case Ack(raw, faults) => AckSpec(s, raw, faults).0
    case Reject(raw, faults) => RejectSpec(s, raw, faults).0
    case Retry(listing, unstatable, stuck, faults) => RetrySpec(s, listing, unstatable, stuck, faults).0
    case Close => s.(closed := true)
    case Reopen(crash) => ReopenSpec(s, crash)
  }

  // ---------- one place for each identity ----------

  predicate OnePlace(d: Dir) {
    forall n :: n in d ==>
      (n.Active? ==> Rejected(n.stem) !in d && Corrupt(n.stem) !in d) && (n.Rejected? ==> Corrupt(n.stem) !in d)
  }

  /** Every directory the disk may come back with has each identity in at most one place. */
  predicate Orderly(s: State) {
    HasHistory(s) && forall k :: 0 <= k < |s.history| ==> OnePlace(s.history[k])
  }

  lemma {:induction false} RetryKeepsOrder(s: State, listing: seq<Stem>, unstatable: set<Stem>, stuck: set<Stem>)
    requires Orderly(s)
    ensures Orderly(RetryFrom(s, listing, unstatable, stuck).0)
    decreases listing
  {
    if listing != [] {
      var d, stem := Visible(s), listing[0];
      if !((stem !in unstatable && Active(stem) in d) || stem in stuck || Rejected(stem) !in d) {
        RetryKeepsOrder(Changed(s, Moved(d, Rejected(stem), Active(stem))), listing[1..], unstatable, stuck);
      }
    }
  }

  lemma StepKeepsOrder(c: Config, s: State, op: Op)
    requires Possible(s, op) && Orderly(s)
    ensures Orderly(Exec(c, s, op))
  {
    hide Wholesome, StampSpec, EncodeSpec;
    if op.Retry? {
      RetryKeepsOrder(s, op.listing, op.unstatable, op.stuck);
    }
  }

  // ---------- no acknowledged message is lost ----------

  predicate Holds(d: Dir, stem: Stem, b: seq<byte>) {
    || (Active(stem) in d && d[Active(stem)] == b)
    || (Rejected(stem) in d && d[Rejected(stem)] == b)
  }

  /** Whatever the disk comes back with, the entry is there, active or rejected, and fit to be handed out. */
  predicate Secured(c: Config, s: State, stem: Stem, b: seq<byte>) {
    && Orderly(s) && Wholesome(c.codec, stem, b)
    && forall k :: 0 <= k < |s.history| ==> Holds(s.history[k], stem, b)
  }

  /** The bytes a `Put` stores. */
  function StoredBytes(c: Config, s: State, op: Op): Result<seq<byte>, Outcome>
    requires HasHistory(s) && op.Put?
  {
    match StampSpec(c, Visible(s), op.raw, op.stamp, op.now, op.faults)
    case Err(e) => Err(e)
    case Ok(stamped) => EncodeSpec(c, stamped)
  }

  function OutcomeOf(c: Config, s: State, op: Op): Outcome
    requires HasHistory(s) && op.Put?
  {
    PutSpec(c, s, op.raw, op.stamp, op.now, op.faults).1
  }

  /** A `Put` that returns nil leaves the message on disk for good, also when it only completes an earlier flush. */
  lemma PutIsDurable(c: Config, s: State, op: Op)
    requires op.Put? && Orderly(s) && KeepsIdentity(c.codec) && OutcomeOf(c, s, op) == Done
    ensures StoredBytes(c, s, op).Ok?
    ensures Secured(c, Exec(c, s, op), QueueName(op.raw), StoredBytes(c, s, op).value)
    ensures |Exec(c, s, op).history| == 1
  {
    hide StoreSpec;
    var stem, b := QueueName(op.raw), StoredBytes(c, s, op).value;
    StoreIsDurable(c, s, stem, b, op.faults);
    StepKeepsOrder(c, s, op);
  }

  lemma StoreIsDurable(c: Config, s: State, stem: Stem, b: seq<byte>, faults: set<IO>)
    requires HasHistory(s) && StoreSpec(c, s, stem, b, faults).1 == Done
    ensures var t := StoreSpec(c, s, stem, b, faults).0;
            |t.history| == 1 && Active(stem) in t.history[0] && t.history[0][Active(stem)] == b && t.closed == s.closed
  {
  }

  /** An identical retransmission is recognised: `PutReceived` encodes it to the very bytes already stored. */
  lemma RetransmissionIsRecognised(c: Config, s: State, first: Op, again: Op)
    requires first.Put? && first.stamp && again.Put? && again.stamp && again.raw == first.raw
    requires Orderly(s) && KeepsIdentity(c.codec) && OutcomeOf(c, s, first) == Done
    requires again.faults == {}
    ensures OutcomeOf(c, Exec(c, s, first), again) == Done
    ensures Exec(c, Exec(c, s, first), again) == Exec(c, s, first)
  {
    hide StoreSpec;
    var stem := QueueName(first.raw);
    var stamped := StampSpec(c, Visible(s), first.raw, true, first.now, first.faults).value;
    var t := Exec(c, s, first);
    StoreIsDurable(c, s, stem, StoredBytes(c, s, first).value, first.faults);
    StepKeepsOrder(c, s, first);
    assert StampSpec(c, Visible(t), again.raw, true, again.now, {}) == Ok(stamped);
    StoreAgain(c, t, stem, StoredBytes(c, s, first).value);
  }

  lemma StoreAgain(c: Config, t: State, stem: Stem, b: seq<byte>)
    requires Orderly(t) && |t.history| == 1 && Active(stem) in t.history[0] && t.history[0][Active(stem)] == b
    ensures StoreSpec(c, t, stem, b, {}) == (t, Done)
  {
    assert OnePlace(t.history[0]) && Active(stem) in t.history[0];
    assert t.history == [Visible(t)];
  }

  /** The only operation that takes an entry away: an `Ack` that finds it active and reaches the removal. */
  predicate Removes(s: State, op: Op, stem: Stem)
    requires HasHistory(s)
  {
    && op.Ack? && QueueName(op.raw) == stem && Active(stem) in Visible(s)
    && !s.closed && Stat !in op.faults && Remove !in op.faults
  }

  lemma {:induction false} RetryKeepsSecured(
    c: Config, s: State, listing: seq<Stem>, unstatable: set<Stem>, stuck: set<Stem>, stem: Stem, b: seq<byte>)
    requires Secured(c, s, stem, b)
    ensures Secured(c, RetryFrom(s, listing, unstatable, stuck).0, stem, b)
    decreases listing
  {
    hide Wholesome;
    RetryKeepsOrder(s, listing, unstatable, stuck);
    if listing != [] {
      var d, next := Visible(s), listing[0];
      if !((next !in unstatable && Active(next) in d) || next in stuck || Rejected(next) !in d) {
        var t := Changed(s, Moved(d, Rejected(next), Active(next)));
        RetryKeepsOrder(s, [next], unstatable, stuck);
        RetryKeepsSecured(c, t, listing[1..], unstatable, stuck, stem, b);
      }
    }
  }

  lemma PutKeepsSecured(c: Config, s: State, op: Op, stem: Stem, b: seq<byte>)
    requires op.Put? && Secured(c, s, stem, b)
    ensures Secured(c, Exec(c, s, op), stem, b)
  {
    hide Wholesome, StampSpec, EncodeSpec;
    StepKeepsOrder(c, s, op);
  }

  /** The entry stays secured if and only if the operation is not such an `Ack`. */
  lemma SecuredExactlyUnlessRemoved(c: Config, s: State, op: Op, stem: Stem, b: seq<byte>)
    requires Possible(s, op) && Secured(c, s, stem, b)
    ensures Secured(c, Exec(c, s, op), stem, b) <==> !Removes(s, op, stem)
  {
    hide Wholesome;
    if Removes(s, op, stem) {
      assert OnePlace(Visible(s));
      assert !Holds(Visible(Exec(c, s, op)), stem, b);
    } else {
      hide Exec, Secured;
      StepKeepsSecured(c, s, op, stem, b);
    }
  }

  lemma StepKeepsSecured(c: Config, s: State, op: Op, stem: Stem, b: seq<byte>)
    requires Possible(s, op) && Secured(c, s, stem, b) && !Removes(s, op, stem)
    ensures Secured(c, Exec(c, s, op), stem, b)
  {
    hide Wholesome, PutSpec;
    StepKeepsOrder(c, s, op);
    if op.Put? {
      PutKeepsSecured(c, s, op, stem, b);
    } else if op.Retry? {
      RetryKeepsSecured(c, s, op.listing, op.unstatable, op.stuck, stem, b);
    }
  }

  /** A run of operations none of which removes the entry. */
  ghost predicate Spares(c: Config, s: State, ops: seq<Op>, stem: Stem)
    decreases ops
  {
    ops == [] ||
    (Possible(s, ops[0]) && !Removes(s, ops[0], stem) && Spares(c, Exec(c, s, ops[0]), ops[1..], stem))
  }

  ghost function ExecAll(c: Config, s: State, ops: seq<Op>, stem: Stem): State
    requires Spares(c, s, ops, stem)
    decreases ops
  {
    if ops == [] then s else ExecAll(c, Exec(c, s, ops[0]), ops[1..], stem)
  }

  /** After a `Put` that returned nil, every run of operations, failures, crashes and reopenings keeps that exact
      message, active or rejected and never quarantined as corrupt, until an `Ack` removes it. */
  lemma {:induction false} AcceptedMessageSurvives(c: Config, s: State, ops: seq<Op>, stem: Stem, b: seq<byte>)
    requires Secured(c, s, stem, b) && Spares(c, s, ops, stem)
    ensures var t := ExecAll(c, s, ops, stem);
            Secured(c, t, stem, b) && Holds(Visible(t), stem, b) && Corrupt(stem) !in Visible(t)
    decreases ops
  {
    hide Exec, Wholesome, Removes;
    if ops != [] {
      StepKeepsSecured(c, s, ops[0], stem, b);
      AcceptedMessageSurvives(c, Exec(c, s, ops[0]), ops[1..], stem, b);
    }
  }

  // ---------- accounting ----------

  ghost predicate Counted(s: State) {
    HasHistory(s) && s.used == Total(Visible(s))
  }

  ghost predicate WithinLimits(c: Config, s: State) {
    forall k :: 0 <= k < |s.history| ==> |s.history[k]| <= c.maxItems && Total(s.history[k]) <= c.maxBytes
  }

  /** The entry was renamed into place, then both the flush and the look at its size failed. */
  predicate Uncounted(c: Config, s: State, op: Op)
    requires HasHistory(s)
  {
    && op.Put? && op.raw.tenant != "" && op.raw.message != "" && !s.closed
    && StoredBytes(c, s, op).Ok?
    && Unmeasured(c, s, QueueName(op.raw), StoredBytes(c, s, op).value, op.faults)
  }

  predicate Unmeasured(c: Config, s: State, stem: Stem, b: seq<byte>, faults: set<IO>)
    requires HasHistory(s)
  {
    && b != [] && Admitted(c, s, stem, b, faults)
    && WriteTemp !in faults && Rename !in faults && SyncDir in faults && StatAfter in faults
  }

  /** A new entry with room for it, as far as the calls that look can tell. */
  predicate Admitted(c: Config, s: State, stem: Stem, b: seq<byte>, faults: set<IO>)
    requires HasHistory(s)
  {
    var d := Visible(s);
    && Active(stem) !in d && Rejected(stem) !in d && Corrupt(stem) !in d
    && |d| < c.maxItems && s.used + |b| <= c.maxBytes
    && faults !! {LstatRejected, LstatCorrupt, ReadOld, ReadDir}
  }

  lemma TotalWith(d: Dir, n: Name, b: seq<byte>)
    requires n !in d
    ensures Total(d[n := b]) == Total(d) + |b|
    ensures |d[n := b]| == |d| + 1
  {
    TotalWithout(d[n := b], n);
    assert d[n := b] - {n} == d;
  }

  lemma TotalMoved(d: Dir, source: Name, target: Name)
    requires source in d && target !in d
    ensures Total(Moved(d, source, target)) == Total(d) && |Moved(d, source, target)| == |d|
  {
    TotalWithout(d, source);
    TotalWith(d - {source}, target, d[source]);
  }

  lemma {:induction false} RetryKeepsCount(
    c: Config, s: State, listing: seq<Stem>, unstatable: set<Stem>, stuck: set<Stem>)
    requires Orderly(s) && WithinLimits(c, s)
    ensures var t := RetryFrom(s, listing, unstatable, stuck).0;
            && t.used == s.used && Total(Visible(t)) == Total(Visible(s)) && WithinLimits(c, t)
    decreases listing
  {
    hide Total;
    if listing != [] {
      var d, stem := Visible(s), listing[0];
      if !((stem !in unstatable && Active(stem) in d) || stem in stuck || Rejected(stem) !in d) {
        assert OnePlace(d);
        TotalMoved(d, Rejected(stem), Active(stem));
        RetryKeepsOrder(s, [stem], unstatable, stuck);
        RetryKeepsCount(c, Changed(s, Moved(d, Rejected(stem), Active(stem))), listing[1..], unstatable, stuck);
      }
    }
  }

  lemma WriteAccounting(c: Config, s: State, name: Name, b: seq<byte>, faults: set<IO>)
    requires Counted(s) && WithinLimits(c, s) && name !in Visible(s)
    requires |Visible(s)| < c.maxItems && s.used + |b| <= c.maxBytes
    ensures var t := WriteSpec(s, name, b, faults).0;
            && WithinLimits(c, t)
            && (Counted(t) <==>
                !(b != [] && WriteTemp !in faults && Rename !in faults && SyncDir in faults && StatAfter in faults))
  {
    hide Total;
    TotalWith(Visible(s), name, b);
  }

  lemma StoreAccounting(c: Config, s: State, stem: Stem, b: seq<byte>, faults: set<IO>)
    requires Orderly(s) && Counted(s) && WithinLimits(c, s)
    ensures var t := StoreSpec(c, s, stem, b, faults).0;
            WithinLimits(c, t) && (Counted(t) <==> !Unmeasured(c, s, stem, b, faults))
  {
    hide Total, WriteSpec;
    if Active(stem) !in Visible(s) && |Visible(s)| < c.maxItems && s.used + |b| <= c.maxBytes {
      WriteAccounting(c, s, Active(stem), b, faults);
    }
  }

  lemma PutAccounting(c: Config, s: State, op: Op)
    requires op.Put? && Orderly(s) && Counted(s) && WithinLimits(c, s)
    ensures WithinLimits(c, Exec(c, s, op))
    ensures Counted(Exec(c, s, op)) <==> !Uncounted(c, s, op)
  {
    hide StoreSpec, Total, StampSpec, EncodeSpec, WithinLimits, Orderly;
    var stored := StoredBytes(c, s, op);
    if stored.Ok? {
      StoreAccounting(c, s, QueueName(op.raw), stored.value, op.faults);
    }
  }

  lemma NextAccounting(c: Config, s: State, op: Op)
    requires op.Next? && Possible(s, op) && Orderly(s) && Counted(s) && WithinLimits(c, s)
    ensures WithinLimits(c, Exec(c, s, op)) && Counted(Exec(c, s, op))
  {
    hide Total, Wholesome;
    if op.first.Some? && Corrupt(op.first.value) !in Visible(s) {
      TotalMoved(Visible(s), Active(op.first.value), Corrupt(op.first.value));
    }
  }

  lemma AckAccounting(c: Config, s: State, op: Op)
    requires op.Ack? && Orderly(s) && Counted(s) && WithinLimits(c, s)
    ensures WithinLimits(c, Exec(c, s, op)) && Counted(Exec(c, s, op))
  {
    hide Total;
    var d, name := Visible(s), Active(QueueName(op.raw));
    if name in d {
      TotalWithout(d, name);
      assert |d - {name}| == |d| - 1 by { assert d == (d - {name})[name := d[name]]; }
    }
  }

  lemma RejectAccounting(c: Config, s: State, op: Op)
    requires op.Reject? && Orderly(s) && Counted(s) && WithinLimits(c, s)
    ensures WithinLimits(c, Exec(c, s, op)) && Counted(Exec(c, s, op))
  {
    hide Total;
    var d, stem := Visible(s), QueueName(op.raw);
    if Active(stem) in d {
      assert OnePlace(d);
      TotalMoved(d, Active(stem), Rejected(stem));
    }
  }

  /** The byte count stays exact, and the limits hold on every directory the disk may come back with, unless a new entry
      could be neither flushed nor measured; then the count is wrong. */
  lemma StepAccounting(c: Config, s: State, op: Op)
    requires Possible(s, op) && Orderly(s) && Counted(s) && WithinLimits(c, s)
    ensures WithinLimits(c, Exec(c, s, op))
    ensures Counted(Exec(c, s, op)) <==> !Uncounted(c, s, op)
  {
    hide Total, PutSpec, NextSpec, AckSpec, RejectSpec, Orderly;
    match op {
      case Put(_, _, _, _) => PutAccounting(c, s, op);
      case Next(_, _) => NextAccounting(c, s, op);
      case Ack(_, _) => AckAccounting(c, s, op);
      case Reject(_, _) => RejectAccounting(c, s, op);
      case Retry(listing, unstatable, stuck, _) => RetryKeepsCount(c, s, listing, unstatable, stuck);
      case Close =>
      case Reopen(_) =>
    }
  }

  /** A run in which every new entry was flushed or measured. */
  ghost predicate AllCounted(c: Config, s: State, ops: seq<Op>)
    decreases ops
  {
    ops == [] || (Possible(s, ops[0]) && !Uncounted(c, s, ops[0]) && AllCounted(c, Exec(c, s, ops[0]), ops[1..]))
  }

  ghost function Final(c: Config, s: State, ops: seq<Op>): State
    requires AllCounted(c, s, ops)
    decreases ops
  {
    if ops == [] then s else Final(c, Exec(c, s, ops[0]), ops[1..])
  }

  /** In such a run `used` is the size of all entries, and a queue opened within its limits stays within them. */
  lemma {:induction false} AccountingIsExact(c: Config, s: State, ops: seq<Op>)
    requires Orderly(s) && Counted(s) && WithinLimits(c, s) && AllCounted(c, s, ops)
    ensures var t := Final(c, s, ops); Orderly(t) && Counted(t) && WithinLimits(c, t)
    decreases ops
  {
    hide Exec, Uncounted, WithinLimits, Counted;
    if ops != [] {
      StepKeepsOrder(c, s, ops[0]);
      StepAccounting(c, s, ops[0]);
      AccountingIsExact(c, Exec(c, s, ops[0]), ops[1..]);
    }
  }

  /** A run every step of which is possible, and whose states all have an exact count. */
  ghost predicate AlwaysCounted(c: Config, s: State, ops: seq<Op>)
    decreases ops
  {
    Counted(s) && (ops == [] || (Possible(s, ops[0]) && AlwaysCounted(c, Exec(c, s, ops[0]), ops[1..])))
  }

  /** The count is exact throughout a possible run if and only if no new entry was neither flushed nor measured. */
  lemma {:induction false} CountedThroughoutExactlyWhen(c: Config, s: State, ops: seq<Op>)
    requires Orderly(s) && Counted(s) && WithinLimits(c, s)
    ensures AlwaysCounted(c, s, ops) <==> AllCounted(c, s, ops)
    decreases ops
  {
    hide Exec, Uncounted, WithinLimits, Counted, Orderly;
    if ops != [] && Possible(s, ops[0]) {
      StepKeepsOrder(c, s, ops[0]);
      StepAccounting(c, s, ops[0]);
      if Counted(Exec(c, s, ops[0])) {
        CountedThroughoutExactlyWhen(c, Exec(c, s, ops[0]), ops[1..]);
      }
    }
  }

  /** The failing family, concretely: an entry that is never counted lets a later one break the limit. */
  lemma UncountedEntryBreaksLimit(c: Config, a: Raw, b: Raw)
    requires c.codec.marshal(a).Some? && c.codec.marshal(b).Some? && QueueName(a) != QueueName(b)
    requires a.tenant != "" && a.message != "" && b.tenant != "" && b.message != ""
    requires 0 < |c.codec.marshal(a).value| <= ENTRY_LIMIT && 0 < |c.codec.marshal(b).value| <= ENTRY_LIMIT
    requires c.maxItems >= 2 && c.maxBytes == |c.codec.marshal(a).value| == |c.codec.marshal(b).value|
    ensures var empty := State([map[]], 0, false);
            var s := Exec(c, empty, Put(a, false, 0, {SyncDir, StatAfter}));
            var t := Exec(c, s, Put(b, false, 0, {}));
            && OutcomeOf(c, s, Put(b, false, 0, {})) == Done
            && t.used == c.maxBytes && Total(Visible(t)) == 2 * c.maxBytes
  {
    var m, n := c.codec.marshal(a).value, c.codec.marshal(b).value;
    var first, empty: Dir := Active(QueueName(a)), map[];
    FirstStore(c, QueueName(a), m);
    SecondStore(c, first, m, QueueName(b), n);
    hide StoreSpec;
    TotalWith(empty, first, m);
    TotalWith(empty[first := m], Active(QueueName(b)), n);
  }

  lemma FirstStore(c: Config, stem: Stem, m: seq<byte>)
    requires c.maxItems >= 2 && c.maxBytes == |m|
    ensures StoreSpec(c, State([map[]], 0, false), stem, m, {SyncDir, StatAfter}) ==
            (State([map[], map[Active(stem) := m]], 0, false), Failed)
  {
    var t := Changed(State([map[]], 0, false), map[Active(stem) := m]);
    assert t.history == [map[], map[Active(stem) := m]];
  }

  lemma SecondStore(c: Config, first: Name, m: seq<byte>, stem: Stem, n: seq<byte>)
    requires first.Active? && first.stem != stem && c.maxItems >= 2 && c.maxBytes == |n|
    ensures var s := State([map[], map[first := m]], 0, false);
            StoreSpec(c, s, stem, n, {}) == (State([map[first := m][Active(stem) := n]], |n|, false), Done)
  {
  }
}
