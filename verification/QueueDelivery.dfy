/** What becomes of one message of the durable queue: it is stored, handed out, set aside, taken back or removed. The
    lemmas name the directory and the answer outright. */
module QueueDelivery {
  import opened Common
  import opened DurableQueue
  import opened QueueRuns

  // ---------- storing ----------

  function NameOf(raw: Raw): Name {
    Active(OfMessage(raw.tenant, raw.message))
  }

  /** What a message looks like in the queue: the first reception fixes its time stamp. */
  function AsStored(c: Config, d: Dir, raw: Raw, stamp: bool, now: int): Option<Raw> {
    if !stamp then Some(raw)
    else if NameOf(raw) !in d then Some(raw.(receivedAt := now))
    else
      match c.codec.unmarshal(d[NameOf(raw)])
      case None => None
      case Some(saved) => Some(raw.(receivedAt := saved.receivedAt))
  }

  /** The bytes a message comes to, if it has an identity, can be encoded and is small enough. */
  function Encoding(c: Config, d: Dir, raw: Raw, stamp: bool, now: int): Option<seq<byte>> {
    var stored := AsStored(c, d, raw, stamp, now);
    if raw.tenant == "" || raw.message == "" || stored.None? then None
    else
      match c.codec.marshal(stored.value)
      case None => None
      case Some(b) => if |b| <= 1_048_576 then Some(b) else None
  }

  predicate HasRoom(c: Config, s: State, b: seq<byte>)
    requires HasHistory(s)
  {
    |Visible(s)| < c.maxItems && s.used + |b| <= c.maxBytes
  }

  /** Without I/O failures a `Put` into an open queue succeeds exactly for a message that is new and has room, or is there
      already with the same bytes. A new one is then the only difference, and a refusal leaves everything. */
  lemma PutSucceedsExactlyWhen(c: Config, s: State, raw: Raw, stamp: bool, now: int)
    requires HasHistory(s) && !s.closed
    ensures
      var d, stem, name := Visible(s), OfMessage(raw.tenant, raw.message), NameOf(raw);
      var (t, outcome) := PutSpec(c, s, raw, stamp, now, {});
      match Encoding(c, d, raw, stamp, now)
      case None => outcome != Done && t == s
      case Some(b) =>
        if Rejected(stem) in d || Corrupt(stem) in d then outcome == Quarantined && t == s
        else if name in d then
          if d[name] == b then outcome == Done && t == s.(history := [d]) else outcome == Conflict && t == s
        else if HasRoom(c, s, b) then outcome == Done && t == State([d[name := b]], s.used + |b|, false)
        else outcome == Full && t == s
  {
  }

  // ---------- handing out ----------

  /** An entry that lies under the name of its own message, and can be read. */
  predicate Sound(c: Config, stem: Stem, b: seq<byte>) {
    && |b| <= 1_048_576
    && match c.codec.unmarshal(b)
       case None => false
       case Some(raw) => raw.tenant != "" && raw.message != "" && stem == OfMessage(raw.tenant, raw.message)
  }

  /** A secured entry whose turn it is comes back: the message decoded from its bytes, with its own identity. */
  lemma NextHandsOut(c: Config, s: State, stem: Stem, b: seq<byte>, faults: set<IO>)
    requires Secured(c, s, stem, b) && Active(stem) in Visible(s) && !s.closed
    requires ReadDir !in faults && ReadEntry !in faults
    ensures
      var (t, answer) := NextSpec(c, s, Some(stem), faults);
      && t == s && answer.Ok? && answer.value.Some? && answer.value == c.codec.unmarshal(b)
      && stem == OfMessage(answer.value.value.tenant, answer.value.value.message)
  {
    assert OnePlace(Visible(s)) && Holds(Visible(s), stem, b);
  }

  /** The queue calls itself empty exactly if it is open, can be listed and holds no active entry. */
  lemma EmptyExactlyWhen(c: Config, s: State, first: Option<Stem>, faults: set<IO>)
    requires HasHistory(s) && SortsFirst(Visible(s), first)
    ensures
      NextSpec(c, s, first, faults).1 == Ok(None) <==>
      !s.closed && ReadDir !in faults && forall stem :: Active(stem) !in Visible(s)
  {
    if first.Some? {
      assert Active(first.value) in Visible(s);
    }
  }

  /** What `Next` hands out is sound, and is the entry it found. */
  lemma OnlySoundIsHandedOut(c: Config, s: State, first: Option<Stem>, faults: set<IO>)
    requires HasHistory(s) && SortsFirst(Visible(s), first)
    ensures
      var (t, answer) := NextSpec(c, s, first, faults);
      answer.Ok? && answer.value.Some? ==>
        && t == s && first.Some? && Sound(c, first.value, Visible(s)[Active(first.value)])
        && answer.value == c.codec.unmarshal(Visible(s)[Active(first.value)])
  {
  }

  /** An unsound entry ends as exactly its bytes in the quarantine of its name, and nothing else changes. */
  lemma UnsoundIsSetAside(c: Config, s: State, stem: Stem)
    requires HasHistory(s) && !s.closed && Active(stem) in Visible(s)
    requires !Sound(c, stem, Visible(s)[Active(stem)]) && Corrupt(stem) !in Visible(s)
    ensures
      var d := Visible(s);
      var (t, answer) := NextSpec(c, s, Some(stem), {});
      && answer == Err(Quarantined) && t.used == s.used && !t.closed && |t.history| == 1
      && var e := t.history[0];
         && Active(stem) !in e && Corrupt(stem) in e && e[Corrupt(stem)] == d[Active(stem)]
         && forall n :: n != Active(stem) && n != Corrupt(stem) ==> (n in e <==> n in d) && (n in d ==> e[n] == d[n])
  {
  }

  /** From reception to delivery: a new message with room is stored; whatever happens then, short of its own `Ack`, the
      queue hands it out when its turn comes, under the identity and with the reception time it was stored with. */
  lemma ReceivedIsDelivered(c: Config, s: State, raw: Raw, now: int, ops: seq<Op>)
    requires Orderly(s) && KeepsIdentity(c.codec) && !s.closed
    requires NameOf(raw) !in Visible(s)
    requires
      var stem := OfMessage(raw.tenant, raw.message);
      Rejected(stem) !in Visible(s) && Corrupt(stem) !in Visible(s)
    requires
      var encoding := Encoding(c, Visible(s), raw, true, now);
      encoding.Some? && HasRoom(c, s, encoding.value)
    requires Spares(c, Exec(c, s, Put(raw, true, now, {})), ops, OfMessage(raw.tenant, raw.message))
    ensures OutcomeOf(c, s, Put(raw, true, now, {})) == Done
    ensures
      var stem := OfMessage(raw.tenant, raw.message);
      var t := ExecAll(c, Exec(c, s, Put(raw, true, now, {})), ops, stem);
      && HasHistory(t)
      && (!t.closed && Active(stem) in Visible(t) ==>
            var answer := NextSpec(c, t, Some(stem), {}).1;
            && answer.Ok? && answer.value.Some?
            && answer.value.value.tenant == raw.tenant && answer.value.value.message == raw.message
            && answer.value.value.receivedAt == now
            && answer.value == c.codec.unmarshal(c.codec.marshal(raw.(receivedAt := now)).value))
  {
    hide Spares, ExecAll, NextSpec, Wholesome, PutSpec;
    var op, stem := Put(raw, true, now, {}), OfMessage(raw.tenant, raw.message);
    var b := Encoding(c, Visible(s), raw, true, now).value;
    PutSucceedsExactlyWhen(c, s, raw, true, now);
    PutIsDurable(c, s, op);
    AcceptedMessageSurvives(c, Exec(c, s, op), ops, stem, b);
    var t := ExecAll(c, Exec(c, s, op), ops, stem);
    if !t.closed && Active(stem) in Visible(t) {
      NextHandsOut(c, t, stem, b, {});
    }
  }

  // ---------- removing, setting aside, taking back ----------

  /** `Ack` takes away the one entry, gives its bytes back to the limit, and the second time finds nothing to do. */
  lemma AckRemoves(c: Config, s: State, raw: Raw)
    requires HasHistory(s) && !s.closed && NameOf(raw) in Visible(s)
    ensures
      var d, (t, outcome) := Visible(s), AckSpec(s, raw, {});
      && outcome == Done && |t.history| == 1 && !t.closed && t.used == s.used - |d[NameOf(raw)]|
      && NameOf(raw) !in t.history[0]
      && (forall n :: n != NameOf(raw) ==> (n in t.history[0] <==> n in d) && (n in d ==> t.history[0][n] == d[n]))
      && AckSpec(t, raw, {}) == (t, Done)
  {
  }

  /** A rejected message lies aside with its bytes, and `Put` refuses its identity; an operator's retry brings the
      directory back as it was. */
  lemma RejectionIsUndone(c: Config, s: State, raw: Raw)
    requires Orderly(s) && !s.closed && NameOf(raw) in Visible(s)
    ensures
      var d, stem, (t, outcome) := Visible(s), OfMessage(raw.tenant, raw.message), RejectSpec(s, raw, {});
      && outcome == Done && |t.history| == 1 && !t.closed && t.used == s.used
      && NameOf(raw) !in t.history[0] && Rejected(stem) in t.history[0]
      && t.history[0][Rejected(stem)] == d[NameOf(raw)]
      && (forall stamp, now ::
            PutSpec(c, t, raw, stamp, now, {}).0 == t && PutSpec(c, t, raw, stamp, now, {}).1 != Done)
      && RetrySpec(t, [stem], {}, {}, {}) == (State([d], s.used, false), Done)
  {
    var d, stem, t := Visible(s), OfMessage(raw.tenant, raw.message), RejectSpec(s, raw, {}).0;
    assert OnePlace(d);
    forall stamp, now
      ensures PutSpec(c, t, raw, stamp, now, {}).0 == t && PutSpec(c, t, raw, stamp, now, {}).1 != Done
    {
      PutSucceedsExactlyWhen(c, t, raw, stamp, now);
    }
    assert Moved(t.history[0], Rejected(stem), Active(stem)) == d;
    assert RetryFrom(t, [stem], {}, {}) == RetryFrom(Changed(t, d), [], {}, {});
  }
}
