/** Commands on a listener session: `Command`, `frame` and `close` of internal/protocolruntime/listeners.go.

    Each step is what one goroutine does under the session lock, or one choice of the waiting `select`. Goroutines
    interleave freely. `log` is a history that the code does not keep. */
module SessionCommand {
  import opened Common

  type Call = nat
  type Id = string

  datatype Result = Acknowledged(at: nat) | SessionClosed

  datatype Event = Wrote(c: Call, id: Id) | Ingested(id: Id) | TimedOut(c: Call)

  /** Where a command goroutine is: waiting in `select`, done with it, running its deferred functions, gone. */
  datatype Phase =
    | Waiting(id: Id)      // in the select
    | Expired(id: Id)      // chose the timeout, must close the session
    | Unlisting(id: Id)    // deferred: delete the pending entry
    | Leaving              // deferred: clear the busy flag
    | Gone

  /** `sent[c]` is everything ever sent on the channel of call `c`, which has room for one value. */
  datatype State = State(
    closed: bool, busy: bool, pending: map<Id, Call>, phase: map<Call, Phase>, sent: map<Call, seq<Result>>,
    log: seq<Event>)

  datatype Step =
    | Command(c: Call, id: Id)               // written, and waiting if `id` is not empty
    | CommandFails(c: Call)                  // refused after the busy flag was set, or the write failed
    | Frame(id: Id, matches: bool)           // an ingested frame; `matches`: it reaches the pending entry
    | Close
    | Receive(c: Call)
    | TimeOut(c: Call)
    | SawClosed(c: Call)                     // `close` has returned to the expired call
    | Unlist(c: Call)
    | Leave(c: Call)

  function Initial(): State {
    State(false, false, map[], map[], map[], [])
  }

  function At(s: State, c: Call): Phase {
    if c in s.phase then s.phase[c] else Gone
  }

  function On(sent: map<Call, seq<Result>>, c: Call): seq<Result> {
    if c in sent then sent[c] else []
  }

  function Sent(s: State, c: Call): seq<Result> {
    On(s.sent, c)
  }

  /** Every call in `calls` gets the closing error. */
  function Answered(sent: map<Call, seq<Result>>, calls: set<Call>): map<Call, seq<Result>> {
    sent + map c | c in calls :: On(sent, c) + [SessionClosed]
  }

  /** The guard of `Command` under the session lock. */
  predicate MayStart(s: State, c: Call) {
    c !in s.phase && !s.closed && !s.busy && s.pending == map[]
  }

  function Apply(s: State, step: Step): Option<State> {
    match step
    case Command(c, id) =>
      if !MayStart(s, c) then None
      else
        var t := s.(busy := true, log := s.log + [Wrote(c, id)]);
        Some(if id == "" then t.(phase := s.phase[c := Leaving])
             else t.(pending := s.pending[id := c], phase := s.phase[c := Waiting(id)]))
    case CommandFails(c) =>
      if !MayStart(s, c) then None else Some(s.(busy := true, phase := s.phase[c := Leaving]))
    case Frame(id, matches) =>
      if s.closed then None
      else
        var t := s.(log := s.log + [Ingested(id)]);
        if id != "" && id in s.pending && matches then
          var c := s.pending[id];
          Some(t.(pending := s.pending - {id}, sent := s.sent[c := Sent(s, c) + [Acknowledged(|s.log|)]]))
        else Some(t)
    case Close =>
      if s.closed then None
      else
        Some(s.(closed := true, pending := map[], sent := Answered(s.sent, s.pending.Values)))
    case Receive(c) =>
      if At(s, c).Waiting? && Sent(s, c) != [] then Some(s.(phase := s.phase[c := Unlisting(s.phase[c].id)])) else None
    case TimeOut(c) =>
      if At(s, c).Waiting? then
        Some(s.(phase := s.phase[c := Expired(s.phase[c].id)], log := s.log + [TimedOut(c)]))
      else None
    case SawClosed(c) =>
      if At(s, c).Expired? && s.closed then Some(s.(phase := s.phase[c := Unlisting(s.phase[c].id)])) else None
    case Unlist(c) =>
      if At(s, c).Unlisting? then
        var id := s.phase[c].id;
        Some(s.(phase := s.phase[c := Leaving],
                pending := if id in s.pending && s.pending[id] == c then s.pending - {id} else s.pending))
      else None
    case Leave(c) =>
      if At(s, c).Leaving? then Some(s.(busy := false, phase := s.phase[c := Gone])) else None
  }

  function After(run: seq<Step>): Option<State> {
    if run == [] then Some(Initial())
    else
      match After(run[..|run| - 1])
      case None => None
      case Some(s) => Apply(s, run[|run| - 1])
  }

  // ---------- the invariant ----------

  /** Call `c` wrote the bytes of a command with correlation id `id` before moment `before` of the history. */
  ghost predicate Written(log: seq<Event>, c: Call, id: Id, before: nat) {
    exists i :: 0 <= i < before && i < |log| && log[i] == Wrote(c, id)
  }

  ghost predicate Active(s: State, c: Call) {
    c in s.phase && !s.phase[c].Gone?
  }

  /** The busy flag belongs to exactly one call. */
  ghost predicate OneActive(s: State) {
    && (forall c :: Active(s, c) ==> s.busy)
    && (forall b, c :: Active(s, b) && Active(s, c) ==> b == c)
  }

  ghost predicate PendingSane(s: State, id: Id)
    requires id in s.pending
  {
    var c := s.pending[id];
    && c in s.phase && (s.phase[c] == Waiting(id) || s.phase[c] == Expired(id))
    && Sent(s, c) == [] && Written(s.log, c, id, |s.log|) && id != ""
  }

  ghost predicate PendingOk(s: State) {
    && (s.closed ==> s.pending == map[])
    && (forall id :: id in s.pending ==> PendingSane(s, id))
    && (forall a, b :: a in s.pending && b in s.pending ==> a == b)
  }

  /** A call in the select is still listed, or its result is already in the channel. */
  ghost predicate WaitingSane(s: State, c: Call)
    requires At(s, c).Waiting?
  {
    var id := s.phase[c].id;
    (id in s.pending && s.pending[id] == c) || Sent(s, c) != []
  }

  ghost predicate AnswerSane(s: State, c: Call, r: Result) {
    r.Acknowledged? ==> r.at < |s.log| && s.log[r.at].Ingested? && Written(s.log, c, s.log[r.at].id, r.at)
  }

  ghost predicate SentSane(s: State, c: Call) {
    |Sent(s, c)| <= 1 && (Sent(s, c) != [] ==> c in s.phase && AnswerSane(s, c, Sent(s, c)[0]))
  }

  /** A frame ingested after moment `k` was handed to nobody but `c`. */
  ghost predicate NobodyElse(s: State, k: nat, c: Call) {
    forall d, r :: r in Sent(s, d) && r.Acknowledged? && r.at > k ==> d == c
  }

  /** After a timeout nothing more is written: either the session is closed or its call still holds it. */
  ghost predicate TimeoutSane(s: State, k: nat)
    requires k < |s.log| && s.log[k].TimedOut?
  {
    && (forall i :: k < i < |s.log| ==> !s.log[i].Wrote?)
    && (s.closed || At(s, s.log[k].c).Expired?)
    && NobodyElse(s, k, s.log[k].c)
  }

  ghost predicate Inv(s: State) {
    && OneActive(s)
    && PendingOk(s)
    && (forall c :: At(s, c).Waiting? ==> WaitingSane(s, c))
    && (forall c :: SentSane(s, c))
    && (forall k :: 0 <= k < |s.log| && s.log[k].TimedOut? ==> TimeoutSane(s, k))
  }

  lemma NothingActive(s: State, c: Call)
    requires Inv(s) && MayStart(s, c)
    ensures forall d :: !Active(s, d)
    ensures Sent(s, c) == []
  {
    assert SentSane(s, c);
  }

  lemma LogGrows(s: State, step: Step)
    requires Apply(s, step).Some?
    ensures s.log <= Apply(s, step).value.log
    ensures |Apply(s, step).value.log| <= |s.log| + 1
  {
  }

  lemma WrittenStays(log: seq<Event>, later: seq<Event>, c: Call, id: Id, n: nat, m: nat)
    requires Written(log, c, id, n) && log <= later && n <= m
    ensures Written(later, c, id, m)
  {
  }

  lemma StepKeepsOneActive(s: State, step: Step)
    requires Inv(s) && Apply(s, step).Some?
    ensures OneActive(Apply(s, step).value)
  {
    var t := Apply(s, step).value;
    match step
    case Command(c, id) =>
      NothingActive(s, c);
      assert forall d :: Active(t, d) ==> d == c || Active(s, d);
    case CommandFails(c) =>
      NothingActive(s, c);
      assert forall d :: Active(t, d) ==> d == c || Active(s, d);
    case Frame(id, matches) => assert forall d :: Active(t, d) ==> Active(s, d);
    case Close => assert forall d :: Active(t, d) ==> Active(s, d);
    case _ =>
      var c := step.c;
      assert Active(s, c);
      assert forall d :: Active(t, d) ==> Active(s, d);
  }

  lemma StepKeepsPending(s: State, step: Step)
    requires Inv(s) && Apply(s, step).Some?
    ensures PendingOk(Apply(s, step).value)
  {
    var t := Apply(s, step).value;
    LogGrows(s, step);
    if step.Command? {
      NothingActive(s, step.c);
      if step.id != "" {
        assert t.log[|s.log|] == Wrote(step.c, step.id);
        assert PendingSane(t, step.id);
      }
    } else {
      assert forall id :: id in t.pending ==> id in s.pending && t.pending[id] == s.pending[id];
      forall id | id in t.pending
        ensures PendingSane(t, id)
      {
        PendingStays(s, step, id);
      }
    }
  }

  lemma PendingStays(s: State, step: Step, id: Id)
    requires Inv(s) && Apply(s, step).Some? && !step.Command?
    requires id in s.pending && id in Apply(s, step).value.pending
    requires s.pending[id] == Apply(s, step).value.pending[id]
    ensures PendingSane(Apply(s, step).value, id)
  {
    hide Written;
    var t, c := Apply(s, step).value, s.pending[id];
    LogGrows(s, step);
    assert PendingSane(s, id);
    WrittenStays(s.log, t.log, c, id, |s.log|, |t.log|);
  }

  lemma StepKeepsWaiting(s: State, step: Step, c: Call)
    requires Inv(s) && Apply(s, step).Some? && At(Apply(s, step).value, c).Waiting?
    ensures WaitingSane(Apply(s, step).value, c)
  {
    var t := Apply(s, step).value;
    if At(s, c).Waiting? {
      assert WaitingSane(s, c);
    }
  }

  lemma StepKeepsSent(s: State, step: Step, c: Call)
    requires Inv(s) && Apply(s, step).Some?
    ensures SentSane(Apply(s, step).value, c)
  {
    hide Written;
    var t := Apply(s, step).value;
    LogGrows(s, step);
    assert SentSane(s, c);
    if Sent(t, c) == Sent(s, c) {
      if Sent(s, c) != [] && Sent(s, c)[0].Acknowledged? {
        var at := Sent(s, c)[0].at;
        WrittenStays(s.log, t.log, c, s.log[at].id, at, at);
      }
    } else if step.Frame? {
      assert PendingSane(s, step.id);
      assert t.log[|s.log|] == Ingested(step.id);
      WrittenStays(s.log, t.log, c, step.id, |s.log|, |s.log|);
    } else {
      var id :| id in s.pending && s.pending[id] == c;
      assert PendingSane(s, id);
    }
  }

  /** Only a frame hands out a success, and only to the call that is pending. */
  lemma NewAnswers(s: State, step: Step, c: Call, r: Result)
    requires Inv(s) && Apply(s, step).Some?
    requires r in Sent(Apply(s, step).value, c) && r.Acknowledged?
    ensures r in Sent(s, c) || (!s.closed && Active(s, c) && r.at == |s.log|)
  {
    if step.Frame? && step.id in s.pending {
      assert PendingSane(s, step.id);
    }
  }

  lemma StepKeepsTimeout(s: State, step: Step, k: nat)
    requires Inv(s) && Apply(s, step).Some?
    requires k < |Apply(s, step).value.log| && Apply(s, step).value.log[k].TimedOut?
    ensures TimeoutSane(Apply(s, step).value, k)
  {
    hide SentSane, PendingSane, WaitingSane, Written;
    var t := Apply(s, step).value;
    LogGrows(s, step);
    if k < |s.log| {
      assert TimeoutSane(s, k);
      var c := s.log[k].c;
      forall d, r | r in Sent(t, d) && r.Acknowledged? && r.at > k
        ensures d == c
      {
        NewAnswers(s, step, d, r);
        assert !s.closed ==> Active(s, c);
      }
      assert !s.closed ==> Active(s, c);
    } else {
      forall d, r | r in Sent(t, d) && r.Acknowledged?
        ensures r.at <= k
      {
        assert SentSane(s, d);
        SentIsPast(s, d, r);
      }
    }
  }

  lemma SentIsPast(s: State, d: Call, r: Result)
    requires SentSane(s, d) && r in Sent(s, d) && r.Acknowledged?
    ensures r.at < |s.log|
  {
  }

  /** A step of any goroutine keeps the invariant. */
  lemma StepKeepsInv(s: State, step: Step)
    requires Inv(s) && Apply(s, step).Some?
    ensures Inv(Apply(s, step).value)
  {
    hide OneActive, PendingOk, WaitingSane, SentSane, TimeoutSane, Apply;
    var t := Apply(s, step).value;
    StepKeepsOneActive(s, step);
    StepKeepsPending(s, step);
    forall c | At(t, c).Waiting? ensures WaitingSane(t, c) { StepKeepsWaiting(s, step, c); }
    forall c ensures SentSane(t, c) { StepKeepsSent(s, step, c); }
    forall k | 0 <= k < |t.log| && t.log[k].TimedOut? ensures TimeoutSane(t, k) { StepKeepsTimeout(s, step, k); }
  }

  lemma {:induction false} RunKeepsInv(run: seq<Step>)
    requires After(run).Some?
    ensures Inv(After(run).value)
  {
    hide Inv, Apply;
    if run == [] {
      InitialInv();
    } else {
      RunKeepsInv(run[..|run| - 1]);
      StepKeepsInv(After(run[..|run| - 1]).value, run[|run| - 1]);
    }
  }

  lemma InitialInv()
    ensures Inv(Initial())
  {
  }

  // ---------- what every run guarantees ----------

  /** At most one command is outstanding, and its call has received nothing yet. */
  lemma OneOutstandingCommand(run: seq<Step>)
    requires After(run).Some?
    ensures |After(run).value.pending| <= 1
    ensures forall id :: id in After(run).value.pending ==> Sent(After(run).value, After(run).value.pending[id]) == []
  {
    var s := After(run).value;
    RunKeepsInv(run);
    forall id | id in s.pending
      ensures Sent(s, s.pending[id]) == []
    {
      assert PendingSane(s, id);
    }
    if |s.pending| > 0 {
      var id :| id in s.pending;
      assert s.pending.Keys == {id};
    }
  }

  /** The channel of a call holds one value, and every send of every step finds it empty: a send never blocks. */
  lemma SendNeverBlocks(run: seq<Step>, step: Step, c: Call)
    requires After(run + [step]).Some?
    ensures
      After(run).Some?
      && (Sent(After(run + [step]).value, c) == Sent(After(run).value, c)
          || (Sent(After(run).value, c) == [] && |Sent(After(run + [step]).value, c)| == 1))
  {
    assert (run + [step])[..|run|] == run;
    var s, t := After(run).value, After(run + [step]).value;
    RunKeepsInv(run);
    RunKeepsInv(run + [step]);
    assert SentSane(s, c) && SentSane(t, c);
    SentOnlyGrows(s, step, c);
  }

  lemma SentOnlyGrows(s: State, step: Step, c: Call)
    requires Apply(s, step).Some?
    ensures Sent(s, c) <= Sent(Apply(s, step).value, c)
  {
  }

  /** A success comes from a frame that was ingested after the same call wrote a command with the same id. */
  lemma SuccessFollowsTheCommand(run: seq<Step>, c: Call, r: Result)
    requires After(run).Some? && r in Sent(After(run).value, c) && r.Acknowledged?
    ensures AnswersItsCommand(After(run).value.log, c, r)
  {
    RunKeepsInv(run);
    hide After, Apply, OneActive, PendingOk, WaitingSane, TimeoutSane;
    SentAnswers(After(run).value, c, r);
  }

  ghost predicate AnswersItsCommand(log: seq<Event>, c: Call, r: Result)
    requires r.Acknowledged?
  {
    && r.at < |log| && log[r.at].Ingested?
    && exists i :: 0 <= i < r.at && log[i] == Wrote(c, log[r.at].id)
  }

  lemma SentAnswers(s: State, c: Call, r: Result)
    requires SentSane(s, c) && r in Sent(s, c) && r.Acknowledged?
    ensures AnswersItsCommand(s.log, c, r)
  {
  }

  /** After a timeout the session writes no further command, and a late reply reaches no other call. */
  lemma LateRepliesSatisfyNobodyElse(run: seq<Step>, k: nat)
    requires After(run).Some? && k < |After(run).value.log| && After(run).value.log[k].TimedOut?
    ensures
      var s := After(run).value;
      && (forall i :: k < i < |s.log| ==> !s.log[i].Wrote?)
      && (forall d, r :: r in Sent(s, d) && r.Acknowledged? && r.at > k ==> d == s.log[k].c)
  {
    RunKeepsInv(run);
    assert TimeoutSane(After(run).value, k);
  }

  /** A closed session leaves no call waiting: its result or the closing error is already in the channel. */
  lemma CloseWakesEveryWaiter(run: seq<Step>, c: Call)
    requires After(run).Some? && After(run).value.closed && At(After(run).value, c).Waiting?
    ensures Apply(After(run).value, Receive(c)).Some?
  {
    RunKeepsInv(run);
    assert WaitingSane(After(run).value, c);
  }

  /** One call cannot end twice: its phases only move forward, so a call that timed out never reads a result. */
  lemma TimedOutCallReadsNothing(s: State, step: Step, c: Call)
    requires Apply(s, step).Some? && c in s.phase && !s.phase[c].Waiting?
    ensures !At(Apply(s, step).value, c).Waiting? && c in Apply(s, step).value.phase && step != Receive(c)
  {
  }

  // ---------- the session object ----------

  lemma AnswerOneMore(sent: map<Call, seq<Result>>, calls: set<Call>, c: Call)
    requires c !in calls
    ensures Answered(sent, calls)[c := On(Answered(sent, calls), c) + [SessionClosed]] == Answered(sent, calls + {c})
  {
  }

  lemma AnswerNobody(sent: map<Call, seq<Result>>)
    ensures Answered(sent, {}) == sent
  {
  }

  ghost predicate Distinct(pending: map<Id, Call>) {
    forall a, b :: a in pending && b in pending && pending[a] == pending[b] ==> a == b
  }

  lemma TakeOne(all: set<Call>, pending: map<Id, Call>, id: Id)
    requires id in pending && Distinct(pending) && pending.Values <= all
    ensures pending[id] !in all - pending.Values
    ensures all - pending.Values + {pending[id]} == all - (pending - {id}).Values
    ensures (pending - {id}).Values <= all && Distinct(pending - {id})
  {
    assert forall a :: a in pending && a != id ==> a in pending - {id} && (pending - {id})[a] == pending[a];
    assert pending.Values == (pending - {id}).Values + {pending[id]};
  }

  lemma ApplyClose(s: State)
    requires !s.closed
    ensures Apply(s, Close) == Some(s.(closed := true, pending := map[], sent := Answered(s.sent, s.pending.Values)))
  {
  }

  /** The listener session. Each method is what runs under the session lock; `sent` and `log` stand for its effects
      on the channels, the connection and the store, `phase` for the goroutines that wait. */
  class ListenerSession {
    var closed: bool
    var commandBusy: bool
    var pending: map<Id, Call>
    var sent: map<Call, seq<Result>>
    ghost var phase: map<Call, Phase>
    var log: seq<Event>

    ghost function View(): State
      reads this
    {
      State(closed, commandBusy, pending, phase, sent, log)
    }

    constructor ()
      ensures View() == Initial()
    {
      closed, commandBusy, pending, sent, phase, log := false, false, map[], map[], map[], [];
    }

    /** A fresh call either starts waiting, fails after it took the busy flag, or is refused without a trace. */
    method Command(c: Call, id: Id, encodes: bool, writes: bool) returns (wrote: bool)
      requires c !in phase
      modifies this
      ensures wrote <==> old(MayStart(View(), c)) && encodes && writes
      ensures wrote ==> Some(View()) == Apply(old(View()), Step.Command(c, id))
      ensures !wrote && old(MayStart(View(), c)) ==> Some(View()) == Apply(old(View()), CommandFails(c))
      ensures !old(MayStart(View(), c)) ==> View() == old(View())
    {
      wrote := false;
      if closed || commandBusy || |pending| > 0 {
        return;
      }
      assert pending == map[];
      commandBusy := true;
      phase := phase[c := Leaving];
      if !encodes {
        return;
      }
      if id != "" {
        pending := pending[id := c];
      }
      if !writes {
        pending := pending - {id};
        assert pending == map[];
        return;
      }
      wrote := true;
      log := log + [Wrote(c, id)];
      if id != "" {
        phase := phase[c := Waiting(id)];
        assert phase == old(phase)[c := Waiting(id)];
      }
    }

    /** The end of `frame`: the frame is stored, and the pending call with its correlation id gets the answer. */
    method Frame(id: Id, matches: bool)
      requires !closed
      modifies this
      ensures Some(View()) == Apply(old(View()), Step.Frame(id, matches))
    {
      var now := |log|;
      log := log + [Ingested(id)];
      if id in pending && id != "" && matches {
        var c := pending[id];
        pending := pending - {id};
        Deliver(c, Acknowledged(now));
      }
    }

    method Deliver(c: Call, r: Result)
      modifies this`sent
      ensures sent == old(sent)[c := On(old(sent), c) + [r]]
    {
      sent := sent[c := (if c in sent then sent[c] else []) + [r]];
    }

    /** `close` runs once; it answers every pending call with an error and unlists it. */
    method Close()
      requires !closed && Distinct(pending)
      modifies this
      ensures Some(View()) == Apply(old(View()), Step.Close)
    {
      hide Distinct, Answered, On, Apply;
      ApplyClose(View());
      closed := true;
      ghost var all := pending.Values;
      AnswerNobody(sent);
      assert all - pending.Values == {};
      while pending != map[]
        modifies `sent, `pending
        invariant Distinct(pending) && pending.Values <= all
        invariant sent == Answered(old(sent), all - pending.Values)
        decreases |pending|
      {
        var id :| id in pending;
        TakeOne(all, pending, id);
        AnswerOneMore(old(sent), all - pending.Values, pending[id]);
        Deliver(pending[id], SessionClosed);
        pending := pending - {id};
      }
      assert all - pending.Values == all;
    }
  }
}
