/** The on-disk message queue of internal/durablequeue/queue.go, on unix semantics.

    A directory is seen by the process as a map from names to contents. Changes reach the disk in order: after a crash
    the directory is as it was after some prefix of the changes made since the last successful directory flush. Every
    I/O call may fail; a failed call has no effect. */
module DurableQueue {
  import opened Common

  /** A message: its identity, the time stamp `PutReceived` manages, and everything else. */
  datatype Raw = Raw(tenant: string, message: string, receivedAt: int, rest: seq<byte>)

  /** The JSON encoding is only asked to keep the identity and the time stamp. */
  datatype Codec = Codec(marshal: Raw -> Option<seq<byte>>, unmarshal: seq<byte> -> Option<Raw>)

  ghost predicate KeepsIdentity(codec: Codec) {
    forall r :: codec.marshal(r).Some? ==>
      var back := codec.unmarshal(codec.marshal(r).value);
      back.Some? && back.value.tenant == r.tenant && back.value.message == r.message
      && back.value.receivedAt == r.receivedAt
  }

  /** A file stem: the hash of an identity, taken to be injective, or a name no message has. */
  datatype Stem = OfMessage(tenant: string, message: string) | Foreign(name: string)

  datatype Name = Active(stem: Stem) | Rejected(stem: Stem) | Corrupt(stem: Stem)

  type Dir = map<Name, seq<byte>>

  const ENTRY_LIMIT: nat := 1_048_576

  function QueueName(raw: Raw): Stem {
    OfMessage(raw.tenant, raw.message)
  }

  datatype Config = Config(maxBytes: int, maxItems: int, codec: Codec)

  /** `history[0]` is on disk for certain; the last element is what the process sees. */
  datatype State = State(history: seq<Dir>, used: int, closed: bool)

  predicate HasHistory(s: State) {
    s.history != []
  }

  function Visible(s: State): Dir
    requires HasHistory(s)
  {
    s.history[|s.history| - 1]
  }

  function Changed(s: State, d: Dir): State {
    s.(history := s.history + [d])
  }

  function Flushed(s: State): State
    requires HasHistory(s)
  {
    s.(history := [Visible(s)])
  }

  datatype IO =
    | ReadStamp | LstatRejected | LstatCorrupt | ReadOld | ReadDir | WriteTemp | Rename | SyncDir | StatAfter
    | ReadEntry | Stat | Remove

  datatype Outcome = Done | NoIdentity | Closed | Quarantined | CannotEncode | TooLarge | Conflict | Full | Failed

  // ---------- what each operation does to the state ----------

  /** The directory flush that ends most operations. */
  function FlushSpec(s: State, faults: set<IO>): (State, Outcome)
    requires HasHistory(s)
  {
    if SyncDir in faults then (s, Failed) else (Flushed(s), Done)
  }

  /** The message as it will be stored: `PutReceived` keeps the first time of reception. */
  function StampSpec(c: Config, d: Dir, raw: Raw, stamp: bool, now: int, faults: set<IO>): Result<Raw, Outcome> {
    if !stamp then Ok(raw)
    else if ReadStamp in faults then Err(Failed)
    else if Active(QueueName(raw)) in d then
      match c.codec.unmarshal(d[Active(QueueName(raw))])
      case None => Err(Quarantined)
      case Some(saved) => Ok(raw.(receivedAt := saved.receivedAt))
    else Ok(raw.(receivedAt := now))
  }

  function EncodeSpec(c: Config, raw: Raw): Result<seq<byte>, Outcome> {
    match c.codec.marshal(raw)
    case None => Err(CannotEncode)
    case Some(b) => if |b| > ENTRY_LIMIT then Err(TooLarge) else Ok(b)
  }

  /** The atomic write of a new entry, with the accounting on both ways out. */
  function WriteSpec(s: State, name: Name, b: seq<byte>, faults: set<IO>): (State, Outcome)
    requires HasHistory(s)
  {
    if WriteTemp in faults || Rename in faults then (s, Failed)
    else
      var t := Changed(s, Visible(s)[name := b]);
      if SyncDir !in faults then (Flushed(t).(used := s.used + |b|), Done)
      else if StatAfter !in faults then (t.(used := s.used + |b|), Failed)
      else (t, Failed)
  }

  function StoreSpec(c: Config, s: State, stem: Stem, b: seq<byte>, faults: set<IO>): (State, Outcome)
    requires HasHistory(s)
  {
    var d := Visible(s);
    if LstatRejected in faults then (s, Failed)
    else if Rejected(stem) in d then (s, Quarantined)
    else if LstatCorrupt in faults then (s, Failed)
    else if Corrupt(stem) in d then (s, Quarantined)
    else if ReadOld in faults then (s, Failed)
    else if Active(stem) in d then if d[Active(stem)] != b then (s, Conflict) else FlushSpec(s, faults)
    else if ReadDir in faults then (s, Failed)
    else if |d| >= c.maxItems || s.used + |b| > c.maxBytes then (s, Full)
    else WriteSpec(s, Active(stem), b, faults)
  }

  function PutSpec(c: Config, s: State, raw: Raw, stamp: bool, now: int, faults: set<IO>): (State, Outcome)
    requires HasHistory(s)
  {
    if raw.tenant == "" || raw.message == "" then (s, NoIdentity)
    else if s.closed then (s, Closed)
    else
      match StampSpec(c, Visible(s), raw, stamp, now, faults)
      case Err(e) => (s, e)
      case Ok(stamped) =>
        match EncodeSpec(c, stamped)
        case Err(e) => (s, e)
        case Ok(b) => StoreSpec(c, s, QueueName(raw), b, faults)
  }

  /** An entry that can be handed out under its own name. */
  predicate Wholesome(codec: Codec, stem: Stem, b: seq<byte>) {
    && |b| <= ENTRY_LIMIT
    && codec.unmarshal(b).Some?
    && var raw := codec.unmarshal(b).value; raw.tenant != "" && raw.message != "" && QueueName(raw) == stem
  }

  /** `first` is the active entry that sorts first, if there is any; which one that is stays open. */
  ghost predicate SortsFirst(d: Dir, first: Option<Stem>) {
    match first
    case Some(stem) => Active(stem) in d
    case None => forall n :: n in d ==> !n.Active?
  }

  function NextSpec(c: Config, s: State, first: Option<Stem>, faults: set<IO>): (State, Result<Option<Raw>, Outcome>)
    requires HasHistory(s) && SortsFirst(Visible(s), first)
  {
    var d := Visible(s);
    if s.closed then (s, Err(Closed))
    else if ReadDir in faults then (s, Err(Failed))
    else if first.None? then (s, Ok(None))
    else if ReadEntry in faults then (s, Err(Failed))
    else
      var stem, b := first.value, d[Active(first.value)];
      if Wholesome(c.codec, stem, b) then (s, Ok(c.codec.unmarshal(b)))
      else if LstatCorrupt in faults || Corrupt(stem) in d || Rename in faults then (s, Err(Failed))
      else
        var t := Changed(s, (d - {Active(stem)})[Corrupt(stem) := b]);
        if SyncDir in faults then (t, Err(Failed)) else (Flushed(t), Err(Quarantined))
  }

  function AckSpec(s: State, raw: Raw, faults: set<IO>): (State, Outcome)
    requires HasHistory(s)
  {
    var d, name := Visible(s), Active(QueueName(raw));
    if s.closed then (s, Closed)
    else if Stat in faults then (s, Failed)
    else if name !in d then (s, Done)
    else if Remove in faults then (s, Failed)
    else FlushSpec(Changed(s, d - {name}).(used := s.used - |d[name]|), faults)
  }

  function Moved(d: Dir, source: Name, target: Name): Dir
    requires source in d
  {
    (d - {source})[target := d[source]]
  }

  function RejectSpec(s: State, raw: Raw, faults: set<IO>): (State, Outcome)
    requires HasHistory(s)
  {
    var d, stem := Visible(s), QueueName(raw);
    if s.closed then (s, Closed)
    else if Rename in faults || Active(stem) !in d then (s, Failed)
    else FlushSpec(Changed(s, Moved(d, Active(stem), Rejected(stem))), faults)
  }

  /** The rejected entries of the listing, renamed one by one; a failing existence test does not stop the rename. */
  function RetryFrom(s: State, listing: seq<Stem>, unstatable: set<Stem>, stuck: set<Stem>): (State, bool)
    requires HasHistory(s)
    ensures HasHistory(RetryFrom(s, listing, unstatable, stuck).0)
    decreases listing
  {
    if listing == [] then (s, true)
    else
      var d, stem := Visible(s), listing[0];
      if (stem !in unstatable && Active(stem) in d) || stem in stuck || Rejected(stem) !in d then (s, false)
      else RetryFrom(Changed(s, Moved(d, Rejected(stem), Active(stem))), listing[1..], unstatable, stuck)
  }

  function RetrySpec(s: State, listing: seq<Stem>, unstatable: set<Stem>, stuck: set<Stem>, faults: set<IO>)
    : (State, Outcome)
    requires HasHistory(s)
  {
    if s.closed then (s, Closed)
    else if ReadDir in faults then (s, Failed)
    else
      var (t, all) := RetryFrom(s, listing, unstatable, stuck);
      if all then FlushSpec(t, faults) else (t, Failed)
  }

  ghost function Total(d: Dir): nat {
    if d == map[] then 0 else var n :| n in d; |d[n]| + Total(d - {n})
  }

  /** Opening the queue again, after the machine lost all but the first `kept` changes if `crash` says so. */
  ghost function ReopenSpec(s: State, crash: Option<nat>): State
    requires HasHistory(s) && (crash.Some? ==> crash.value < |s.history|)
  {
    var h := if crash.Some? then [s.history[crash.value]] else s.history;
    State(h, Total(h[|h| - 1]), false)
  }

  /** Adding up file sizes does not depend on the order. */
  lemma {:induction false} TotalWithout(d: Dir, n: Name)
    requires n in d
    ensures Total(d) == |d[n]| + Total(d - {n})
    decreases |d|
  {
    var m :| m in d && Total(d) == |d[m]| + Total(d - {m});
    if m != n {
      TotalWithout(d - {m}, n);
      TotalWithout(d - {n}, m);
      assert d - {m} - {n} == d - {n} - {m};
    }
  }

  // ---------- the queue ----------

  /** The queue; its directory is part of the object. */
  class Queue {
    const config: Config
    var history: seq<Dir>
    var used: int
    var closed: bool

    ghost predicate Valid()
      reads this
    {
      history != []
    }

    function Now(): State
      reads this
    {
      State(history, used, closed)
    }

    constructor (config: Config, history: seq<Dir>)
      requires history != []
      ensures Valid() && this.config == config && Now() == State(history, 0, false)
    {
      this.config, this.history, this.used, this.closed := config, history, 0, false;
    }

    /** `unreadable`: listing the directory or inspecting an entry fails; `locked`: another process has the queue. */
    static method OpenQueue(config: Config, history: seq<Dir>, locked: bool, unreadable: bool)
      returns (q: Option<Queue>)
      requires history != []
      ensures q.Some? <==> config.maxBytes >= 1 && config.maxItems >= 1 && !locked && !unreadable
      ensures q.Some? ==> fresh(q.value) && q.value.Valid() && q.value.config == config
      ensures q.Some? ==> q.value.Now() == ReopenSpec(State(history, 0, true), None)
    {
      if config.maxBytes < 1 || config.maxItems < 1 || locked || unreadable {
        return None;
      }
      var queue := new Queue(config, history);
      var entries := history[|history| - 1];
      while entries != map[]
        invariant queue.Now() == State(history, queue.used, false)
        invariant queue.used + Total(entries) == Total(history[|history| - 1])
        decreases |entries|
      {
        var n :| n in entries;
        TotalWithout(entries, n);
        queue.used := queue.used + |entries[n]|;
        entries := entries - {n};
      }
      return Some(queue);
    }

    method Close()
      requires Valid()
      modifies this`closed
      ensures Valid() && Now() == old(Now()).(closed := true)
    {
      closed := true;
    }

    method SyncDirectory(faults: set<IO>) returns (r: Outcome)
      requires Valid()
      modifies this`history
      ensures Valid() && (Now(), r) == FlushSpec(old(Now()), faults)
    {
      if SyncDir in faults {
        return Failed;
      }
      history := [history[|history| - 1]];
      return Done;
    }

    method Put(raw: Raw, stamp: bool, now: int, faults: set<IO>) returns (r: Outcome)
      requires Valid()
      modifies this
      ensures Valid() && (Now(), r) == PutSpec(config, old(Now()), raw, stamp, now, faults)
    {
      if raw.tenant == "" || raw.message == "" {
        return NoIdentity;
      }
      if closed {
        return Closed;
      }
      var d, stem, stamped := history[|history| - 1], QueueName(raw), raw;
      if stamp {
        if ReadStamp in faults {
          return Failed;
        }
        if Active(stem) in d {
          var saved := config.codec.unmarshal(d[Active(stem)]);
          if saved.None? {
            return Quarantined;
          }
          stamped := raw.(receivedAt := saved.value.receivedAt);
        } else {
          stamped := raw.(receivedAt := now);
        }
      }
      var encoded := config.codec.marshal(stamped);
      if encoded.None? {
        return CannotEncode;
      }
      if |encoded.value| > ENTRY_LIMIT {
        return TooLarge;
      }
      r := Store(stem, encoded.value, faults);
    }

    method Store(stem: Stem, b: seq<byte>, faults: set<IO>) returns (r: Outcome)
      requires Valid()
      modifies this
      ensures Valid() && closed == old(closed)
      ensures (Now(), r) == StoreSpec(config, old(Now()), stem, b, faults)
    {
      var d := history[|history| - 1];
      if LstatRejected in faults { return Failed; }
      if Rejected(stem) in d { return Quarantined; }
      if LstatCorrupt in faults { return Failed; }
      if Corrupt(stem) in d { return Quarantined; }
      if ReadOld in faults { return Failed; }
      if Active(stem) in d {
        if d[Active(stem)] != b { return Conflict; }
        r := SyncDirectory(faults);
        return;
      }
      if ReadDir in faults { return Failed; }
      if |d| >= config.maxItems || used + |b| > config.maxBytes { return Full; }
      r := AtomicFile(Active(stem), b, faults);
      if r != Done {
        if StatAfter !in faults && Active(stem) in history[|history| - 1] {
          used := used + |history[|history| - 1][Active(stem)]|;
        }
        return;
      }
      used := used + |b|;
    }

    /** The temporary file is not an entry; only the rename shows. */
    method AtomicFile(name: Name, b: seq<byte>, faults: set<IO>) returns (r: Outcome)
      requires Valid()
      modifies this`history
      ensures Valid() && (r == Done || r == Failed)
      ensures WriteTemp in faults || Rename in faults ==> r == Failed && Now() == old(Now())
      ensures !(WriteTemp in faults || Rename in faults) ==>
        (Now(), r) == FlushSpec(Changed(old(Now()), Visible(old(Now()))[name := b]), faults)
    {
      if WriteTemp in faults || Rename in faults {
        return Failed;
      }
      history := history + [history[|history| - 1][name := b]];
      r := SyncDirectory(faults);
    }

    method Next(first: Option<Stem>, faults: set<IO>) returns (r: Result<Option<Raw>, Outcome>)
      requires Valid() && SortsFirst(history[|history| - 1], first)
      modifies this`history
      ensures Valid() && (Now(), r) == NextSpec(config, old(Now()), first, faults)
    {
      if closed { return Err(Closed); }
      if ReadDir in faults { return Err(Failed); }
      if first.None? { return Ok(None); }
      if ReadEntry in faults { return Err(Failed); }
      var d, stem := history[|history| - 1], first.value;
      var b := d[Active(stem)];
      var raw := config.codec.unmarshal(b);
      if |b| > ENTRY_LIMIT || raw.None? || raw.value.tenant == "" || raw.value.message == "" ||
         QueueName(raw.value) != stem {
        if LstatCorrupt in faults || Corrupt(stem) in d || Rename in faults { return Err(Failed); }
        history := history + [(d - {Active(stem)})[Corrupt(stem) := b]];
        var flushed := SyncDirectory(faults);
        return Err(if flushed == Done then Quarantined else Failed);
      }
      return Ok(raw);
    }

    method Ack(raw: Raw, faults: set<IO>) returns (r: Outcome)
      requires Valid()
      modifies this
      ensures Valid() && (Now(), r) == AckSpec(old(Now()), raw, faults)
    {
      if closed { return Closed; }
      var d, name := history[|history| - 1], Active(QueueName(raw));
      if Stat in faults { return Failed; }
      if name !in d { return Done; }
      if Remove in faults { return Failed; }
      history := history + [d - {name}];
      used := used - |d[name]|;
      r := SyncDirectory(faults);
    }

    method Reject(raw: Raw, faults: set<IO>) returns (r: Outcome)
      requires Valid()
      modifies this`history
      ensures Valid() && (Now(), r) == RejectSpec(old(Now()), raw, faults)
    {
      if closed { return Closed; }
      var d, stem := history[|history| - 1], QueueName(raw);
      if Rename in faults || Active(stem) !in d { return Failed; }
      history := history + [(d - {Active(stem)})[Rejected(stem) := d[Active(stem)]]];
      r := SyncDirectory(faults);
    }

    method RetryRejected(listing: seq<Stem>, unstatable: set<Stem>, stuck: set<Stem>, faults: set<IO>)
      returns (r: Outcome)
      requires Valid()
      modifies this`history
      ensures Valid() && (Now(), r) == RetrySpec(old(Now()), listing, unstatable, stuck, faults)
    {
      if closed { return Closed; }
      if ReadDir in faults { return Failed; }
      for i := 0 to |listing|
        invariant Valid()
        invariant RetryFrom(Now(), listing[i..], unstatable, stuck) ==
                  RetryFrom(old(Now()), listing, unstatable, stuck)
      {
        var d, stem := history[|history| - 1], listing[i];
        assert listing[i..][0] == stem && listing[i..][1..] == listing[i + 1..];
        if stem !in unstatable && Active(stem) in d { return Failed; }
        if stem in stuck || Rejected(stem) !in d { return Failed; }
        history := history + [(d - {Rejected(stem)})[Active(stem) := d[Rejected(stem)]]];
      }
      r := SyncDirectory(faults);
    }
  }
}
