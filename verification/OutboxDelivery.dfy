/** What one ingest comes to when its calls work and no other task comes between: `IngestRaw` of internal/core/engine.go
    from every state that a run can reach. */
module OutboxDelivery {
  import opened Common
  import opened Outbox

  /** Where a task gets by `n` calls that all work, with no other task in between. */
  function Worked(s: Store, pc: Pc, n: nat, backend: Backend, now: nat): (Store, Pc)
    decreases n
  {
    if n == 0 then (s, pc)
    else
      var (t, next) := Called(s, pc, Works, backend, now, "", true);
      Worked(t, next, n - 1, backend, now)
  }

  lemma {:induction false} WorkedIsARun(run: seq<Step>, t: Task, n: nat, backend: Backend, now: nat)
    requires After(run).Some? && t in After(run).value.tasks
    ensures
      var s := After(run).value;
      var (store, pc) := Worked(s.store, s.tasks[t], n, backend, now);
      After(run + seq(n, _ => Call(t, Works, backend, now, "", true))) == Some(State(store, s.tasks[t := pc]))
    decreases n
  {
    hide Called;
    var step, s := Call(t, Works, backend, now, "", true), After(run).value;
    if n == 0 {
      assert run + seq(0, _ => step) == run && s.tasks[t := s.tasks[t]] == s.tasks;
    } else {
      var longer, u := Do(run, s, step);
      WorkedIsARun(longer, t, n - 1, backend, now);
      var (store, pc) := Worked(u.store, u.tasks[t], n - 1, backend, now);
      assert u.tasks[t := pc] == s.tasks[t := pc];
      assert Worked(s.store, s.tasks[t], n, backend, now) == (store, pc);
      assert longer + seq(n - 1, _ => step) == run + seq(n, _ => step);
    }
  }

  /** The message that is to stand for a key: the one reserved, or else this one. */
  function Standing(s: Store, raw: Raw): Raw {
    if raw.key in s.reservations then s.reservations[raw.key] else raw
  }

  predicate WasPublished(s: Store, key: Key) {
    key in s.index && s.index[key].publishedAt != 0
  }

  /** A key seen for the first time, or whose earlier ingest got no further than the archive. */
  lemma NewKeyIsPublished(s: Store, raw: Raw, backend: Backend, now: nat)
    requires StoreSane(s) && raw.key !in s.index && SameMessage(Standing(s, raw), raw)
    ensures
      var first := Standing(s, raw);
      Worked(s, Looking(raw), 6, backend, now) ==
      (Store(s.reservations[raw.key := first], s.archive[(backend, raw.key) := first],
             s.index[raw.key := Index(raw.product, raw.device, raw.payload, backend, now, "")], s.bus + [first]),
       Done(Some(first), true))
  {
    hide StoreSane, Canonical, Called;
    var first := Standing(s, raw);
    var s1 := s.(reservations := s.reservations[raw.key := first]);
    var s2 := s1.(archive := s1.archive[(backend, raw.key) := first]);
    var s3 := s2.(index := s2.index[raw.key := Index(raw.product, raw.device, raw.payload, backend, 0, "")]);
    var s4 := s3.(bus := s3.bus + [first]);
    var s5 := s4.(index := s4.index[raw.key := Index(raw.product, raw.device, raw.payload, backend, now, "")]);
    StandingHasKey(s, raw);
    UpToIndexing(s, raw, backend, now, s1, s2);
    FromIndexing(s2, raw, first, backend, now, s3, s4, s5);
    OneCall(s, Looking(raw), 6, backend, now, s, Reserving(raw));
    OneCall(s, Reserving(raw), 5, backend, now, s1, Archiving(first));
    OneCall(s1, Archiving(first), 4, backend, now, s2, Indexing(first, backend));
    OneCall(s2, Indexing(first, backend), 3, backend, now, s3, Publishing(first, Some(first)));
    OneCall(s3, Publishing(first, Some(first)), 2, backend, now, s4, Marking(first, Some(first)));
    OneCall(s4, Marking(first, Some(first)), 1, backend, now, s5, Done(Some(first), true));
    assert Worked(s5, Done(Some(first), true), 0, backend, now) == (s5, Done(Some(first), true));
    assert s5.index == s.index[raw.key := Index(raw.product, raw.device, raw.payload, backend, now, "")];
  }

  lemma StandingHasKey(s: Store, raw: Raw)
    requires StoreSane(s)
    ensures Standing(s, raw).key == raw.key
  {
  }

  lemma UpToIndexing(s: Store, raw: Raw, backend: Backend, now: nat, s1: Store, s2: Store)
    requires StoreSane(s) && raw.key !in s.index && SameMessage(Standing(s, raw), raw)
    requires s1 == s.(reservations := s.reservations[raw.key := Standing(s, raw)])
    requires s2 == s1.(archive := s1.archive[(backend, raw.key) := Standing(s, raw)])
    ensures Called(s, Looking(raw), Works, backend, now, "", true) == (s, Reserving(raw))
    ensures Called(s, Reserving(raw), Works, backend, now, "", true) == (s1, Archiving(Standing(s, raw)))
    ensures Called(s1, Archiving(Standing(s, raw)), Works, backend, now, "", true) ==
            (s2, Indexing(Standing(s, raw), backend))
  {
    var first := Standing(s, raw);
    assert first.(payload := raw.payload) == first && first.key == raw.key;
    if raw.key in s.reservations {
      assert s.reservations[raw.key := first] == s.reservations && s1 == s;
    }
    if (backend, raw.key) in s.archive {
      assert Canonical(s, s.archive[(backend, raw.key)]);
      assert s1.archive[(backend, raw.key) := first] == s1.archive && s2 == s1;
    }
  }

  lemma FromIndexing(
    s2: Store, raw: Raw, first: Raw, backend: Backend, now: nat, s3: Store, s4: Store, s5: Store)
    requires raw.key !in s2.index && SameMessage(first, raw) && first.key == raw.key
    requires s3 == s2.(index := s2.index[raw.key := Index(raw.product, raw.device, raw.payload, backend, 0, "")])
    requires s4 == s3.(bus := s3.bus + [first])
    requires s5 == s4.(index := s4.index[raw.key := Index(raw.product, raw.device, raw.payload, backend, now, "")])
    ensures Called(s2, Indexing(first, backend), Works, backend, now, "", true) == (s3, Publishing(first, Some(first)))
    ensures Called(s3, Publishing(first, Some(first)), Works, backend, now, "", true) == (s4, Marking(first, Some(first)))
    ensures Called(s4, Marking(first, Some(first)), Works, backend, now, "", true) == (s5, Done(Some(first), true))
  {
  }

  lemma OneCall(s: Store, pc: Pc, n: nat, backend: Backend, now: nat, t: Store, next: Pc)
    requires n > 0 && Called(s, pc, Works, backend, now, "", true) == (t, next)
    ensures Worked(s, pc, n, backend, now) == Worked(t, next, n - 1, backend, now)
  {
  }

  lemma Settled(s: Store, pc: Pc, n: nat, backend: Backend, now: nat)
    requires pc.Done?
    ensures Worked(s, pc, n, backend, now) == (s, pc)
    decreases n
  {
    if n > 0 {
      Settled(s, pc, n - 1, backend, now);
    }
  }

  /** A row stands for the message reserved under its key. */
  lemma RowOfStanding(s: Store, raw: Raw)
    requires StoreSane(s) && raw.key in s.index
    ensures Standing(s, raw).key == raw.key && Indexes(s.index[raw.key], Standing(s, raw))
    ensures (s.index[raw.key].backend, raw.key) in s.archive
    ensures s.archive[(s.index[raw.key].backend, raw.key)] == Standing(s, raw)
  {
    assert Canonical(s, s.archive[(s.index[raw.key].backend, raw.key)]);
  }

  /** A retransmission finds the row: pending, it publishes what was reserved; published, it does nothing more. */
  lemma KnownKeyIsPublished(s: Store, raw: Raw, backend: Backend, now: nat)
    requires StoreSane(s) && raw.key in s.index && Indexes(s.index[raw.key], raw)
    ensures
      var row := s.index[raw.key];
      Worked(s, Looking(raw), 6, backend, now) ==
      if row.publishedAt != 0 then (s, Done(Some(raw), true))
      else
        (s.(index := s.index[raw.key := row.(publishedAt := now, lastError := "")], bus := s.bus + [Standing(s, raw)]),
         Done(Some(raw), true))
  {
    RowOfStanding(s, raw);
    hide StoreSane, Canonical, Standing;
    var row, first := s.index[raw.key], Standing(s, raw);
    if row.publishedAt != 0 {
      OneCall(s, Looking(raw), 6, backend, now, s, Done(Some(raw), true));
      Settled(s, Done(Some(raw), true), 5, backend, now);
    } else {
      var s1 := s.(bus := s.bus + [first]);
      var s2 := s1.(index := s1.index[raw.key := row.(publishedAt := now, lastError := "")]);
      OneCall(s, Looking(raw), 6, backend, now, s, Reading(raw.key, row, Some(raw)));
      OneCall(s, Reading(raw.key, row, Some(raw)), 5, backend, now, s, Publishing(first, Some(raw)));
      OneCall(s, Publishing(first, Some(raw)), 4, backend, now, s1, Marking(first, Some(raw)));
      OneCall(s1, Marking(first, Some(raw)), 3, backend, now, s2, Done(Some(raw), true));
      Settled(s2, Done(Some(raw), true), 2, backend, now);
    }
  }

  /** Another message under the key is refused, and nothing changes. */
  lemma OtherMessageIsRefused(s: Store, raw: Raw, backend: Backend, now: nat)
    requires StoreSane(s) && !SameMessage(Standing(s, raw), raw)
    ensures Worked(s, Looking(raw), 6, backend, now) == (s, Done(Some(raw), false))
  {
    if raw.key in s.index {
      RowOfStanding(s, raw);
      OneCall(s, Looking(raw), 6, backend, now, s, Failed(Some(raw)));
      Settled(s, Failed(Some(raw)), 5, backend, now);
    } else {
      OneCall(s, Looking(raw), 6, backend, now, s, Reserving(raw));
      OneCall(s, Reserving(raw), 5, backend, now, s, Failed(Some(raw)));
      Settled(s, Failed(Some(raw)), 4, backend, now);
    }
  }

  /** What stands under a key after an ingest that succeeded: the message first reserved, archived, indexed and marked. */
  predicate StandsPublished(s: Store, key: Key, first: Raw) {
    && key in s.reservations && s.reservations[key] == first
    && key in s.index && Indexes(s.index[key], first) && s.index[key].publishedAt != 0
    && (s.index[key].backend, key) in s.archive && s.archive[(s.index[key].backend, key)] == first
  }

  lemma IngestEnds(s: Store, raw: Raw, backend: Backend, now: nat)
    requires StoreSane(s) && now != 0
    ensures
      var first, (t, pc) := Standing(s, raw), Worked(s, Looking(raw), 6, backend, now);
      && pc.Done? && (pc.ok <==> SameMessage(first, raw))
      && (!pc.ok ==> t == s)
      && (pc.ok ==>
            && StandsPublished(t, raw.key, first)
            && t.bus == s.bus + (if WasPublished(s, raw.key) then [] else [first])
            && (!WasPublished(s, raw.key) ==> t.index[raw.key].publishedAt == now))
      && (forall k :: k != raw.key && k in s.index ==> k in t.index && t.index[k] == s.index[k])
  {
    var first := Standing(s, raw);
    if !SameMessage(first, raw) {
      OtherMessageIsRefused(s, raw, backend, now);
    } else if raw.key in s.index {
      RowOfStanding(s, raw);
      KnownKeyIsPublished(s, raw, backend, now);
      assert raw.key in s.reservations by { RowIsReserved(s, raw.key); }
    } else {
      NewKeyIsPublished(s, raw, backend, now);
    }
  }

  lemma RowIsReserved(s: Store, key: Key)
    requires StoreSane(s) && key in s.index
    ensures key in s.reservations
  {
    assert Canonical(s, s.archive[(s.index[key].backend, key)]);
  }

  /** From every reachable state an undisturbed ingest succeeds if and only if no other message is reserved under its key.
      Then the message first reserved is archived, indexed and marked, and it has gone out once more exactly if it was not
      published before; a refused message changes nothing. */
  lemma IngestPublishesExactlyWhen(run: seq<Step>, t: Task, raw: Raw, backend: Backend, now: nat)
    returns (longer: seq<Step>)
    requires After(run).Some? && t !in After(run).value.tasks && now != 0
    ensures longer == run + [Ingest(t, raw)] + seq(6, _ => Call(t, Works, backend, now, "", true))
    ensures After(longer).Some? && t in After(longer).value.tasks && After(longer).value.tasks[t].Done?
    ensures
      var before, s, ok := After(run).value.store, After(longer).value.store, After(longer).value.tasks[t].ok;
      var first := if raw.key in before.reservations then before.reservations[raw.key] else raw;
      && (ok <==> first.payload == raw.payload && first.product == raw.product && first.device == raw.device)
      && (!ok ==> s == before)
      && (ok ==>
            && StandsPublished(s, raw.key, first)
            && s.bus == before.bus + (if WasPublished(before, raw.key) then [] else [first])
            && (!WasPublished(before, raw.key) ==> s.index[raw.key].publishedAt == now))
      && (forall k :: k != raw.key && k in before.index ==> k in s.index && s.index[k] == before.index[k])
  {
    hide Worked, Called, StandsPublished, WasPublished, StoreSane, TaskSane;
    RunKeepsInv(run);
    var s := After(run).value;
    var started, u := Do(run, s, Ingest(t, raw));
    WorkedIsARun(started, t, 6, backend, now);
    IngestEnds(s.store, raw, backend, now);
    longer := started + seq(6, _ => Call(t, Works, backend, now, "", true));
  }

  // ---------- the pending list ----------

  /** A bus that refuses a message leaves its row pending or published as it was, with the error noted. */
  lemma FailureIsNoted(run: seq<Step>, t: Task, fault: Fault, backend: Backend, now: nat, error: string)
    requires After(run).Some? && t in After(run).value.tasks && After(run).value.tasks[t].Publishing?
    requires fault != Works && error != ""
    ensures
      var before, key := After(run).value.store, After(run).value.tasks[t].message.key;
      var failed := Apply(After(run).value, Call(t, fault, backend, now, error, true));
      && key in before.index && failed.Some?
      && failed.value.tasks[t] == Done(After(run).value.tasks[t].caller, false)
      && failed.value.store.index == before.index[key := before.index[key].(lastError := error)]
  {
    RunKeepsInv(run);
    assert TaskSane(After(run).value.store, After(run).value.tasks[t]);
  }

  lemma CallKeepsPublished(
    s: Store, pc: Pc, fault: Fault, backend: Backend, now: nat, error: string, noted: bool, key: Key)
    requires WasPublished(s, key) && now != 0 && error != ""
    ensures WasPublished(Called(s, pc, fault, backend, now, error, noted).0, key)
  {
  }

  /** The clock shows a time and an error says something. */
  predicate Sensible(step: Step) {
    step.Call? ==> step.now != 0 && step.error != ""
  }

  /** Once published, a row never comes back to the pending list, whatever fails. */
  lemma {:induction false} PublishedStaysPublished(run: seq<Step>, k: nat, key: Key)
    requires After(run).Some? && k <= |run| && forall i :: 0 <= i < |run| ==> Sensible(run[i])
    ensures After(run[..k]).Some?
    ensures WasPublished(After(run[..k]).value.store, key) ==> WasPublished(After(run).value.store, key)
    decreases |run|
  {
    hide Called, WasPublished;
    if k == |run| {
      assert run[..k] == run;
    } else {
      var shorter, step := run[..|run| - 1], run[|run| - 1];
      PublishedStaysPublished(shorter, k, key);
      assert shorter[..k] == run[..k];
      var s := After(shorter).value;
      if step.Call? && WasPublished(s.store, key) {
        CallKeepsPublished(s.store, s.tasks[step.t], step.fault, step.backend, step.now, step.error, step.noted, key);
      }
    }
  }
}
