/** Runs of the lease protocol: any number of nodes, any interleaving, lost replies, slow calls, late timers.

    The environment says how late a timer may fire, how long a successful `Claim` call may take, and whether
    a release may still reach the database after its call has returned. Two nodes never execute at once in any run
    exactly when these fit into the gap between the local deadline and the database lease. */
module LeaseProtocol {
  import opened Common
  import opened Lease

  datatype Env = Env(timerLag: nat, claimLimit: nat, lateReleases: bool)

  /** What a node is waiting for; `Run` and `Claim` share a mutex, so one call at a time. */
  datatype Pending =
    | Idle
    | Acquiring(start: Time, renewal: bool, reply: Option<Reply>)
    | Releasing(token: int, done: bool)

  datatype NodeState = NodeState(held: Option<Held>, call: Pending)

  datatype State = State(now: Time, row: Option<Row>, nodes: map<Node, NodeState>, late: set<(Node, int)>)

  datatype Step =
    | TimePasses(to: Time)
    | Touch(n: Node)
    | BeginClaim(n: Node)
    | BeginRenew(n: Node)
    | DatabaseAcquires(n: Node)
    | EndAcquire(n: Node, lost: bool)
    | BeginRelease(n: Node, stopping: bool)
    | DatabaseReleases(n: Node)
    | EndRelease(n: Node)
    | TimerFires(n: Node)
    | Cancel(n: Node)              // the parent context ends
    | Crash(n: Node)
    | AbandonedAcquire(n: Node)    // an acquire whose caller has given up takes effect
    | AbandonedRelease(n: Node, token: int)

  function Initial(): State {
    State(0, None, map[], {})
  }

  function Of(s: State, n: Node): NodeState {
    if n in s.nodes then s.nodes[n] else NodeState(None, Idle)
  }

  function With(s: State, n: Node, x: NodeState): State {
    s.(nodes := s.nodes[n := x])
  }

  /** A session executes until its context is cancelled. */
  predicate Executing(s: State, n: Node) {
    Of(s, n).held.Some? && Of(s, n).held.value.live
  }

  /** The latest moment an armed timer fires; a deadline already past fires at once, up to the lag. */
  function FiresBy(env: Env, h: Held): Time {
    (if h.deadline >= h.armedAt then h.deadline else h.armedAt) + env.timerLag
  }

  predicate MayPass(env: Env, s: State, to: Time) {
    s.now <= to && forall n :: n in s.nodes && Executing(s, n) ==> to <= FiresBy(env, Of(s, n).held.value)
  }

  /** The state after a step, if the step can happen. */
  function Apply(env: Env, s: State, step: Step): Option<State> {
    match step
    case TimePasses(to) =>
      if MayPass(env, s, to) then Some(s.(now := to)) else None
    case Touch(n) =>
      if Executing(s, n) && Of(s, n).call.Idle? then
        Some(With(s, n, Of(s, n).(held := Some(Of(s, n).held.value.(touched := s.now)))))
      else None
    case BeginClaim(n) =>
      if !Executing(s, n) && Of(s, n).call.Idle? then
        Some(With(s, n, Of(s, n).(call := Acquiring(s.now, false, None))))
      else None
    case BeginRenew(n) =>
      if Of(s, n).held.Some? && Of(s, n).call.Idle? && !MustGo(Of(s, n).held.value, s.now) then
        Some(With(s, n, Of(s, n).(call := Acquiring(s.now, true, None))))
      else None
    case DatabaseAcquires(n) =>
      var x := Of(s, n);
      if x.call.Acquiring? && x.call.reply.None? then
        var row := Acquired(s.row, n, s.now);
        if row.None? then Some(With(s, n, x.(call := x.call.(reply := Some(Denied)))))
        else Some(With(s, n, x.(call := x.call.(reply := Some(Granted(row.value.token))))).(row := row))
      else None
    case EndAcquire(n, lost) =>
      var x := Of(s, n);
      if !x.call.Acquiring? || (x.call.reply.None? && !lost) then None
      else if !lost && x.call.reply.value.Granted?
              && s.now - x.call.start > (if x.call.renewal then RENEW_TIMEOUT + env.timerLag else env.claimLimit) then None
      else
        var reply := if lost then Failed else x.call.reply.value;
        if x.call.renewal then
          if x.held.None? then None
          else Some(With(s, n, NodeState(RenewAnswered(x.held.value, reply, x.call.start, s.now), Idle)))
        else Some(With(s, n, NodeState(ClaimAnswered(x.held, reply, x.call.start, s.now), Idle)))
    case BeginRelease(n, stopping) =>
      var x := Of(s, n);
      if x.held.Some? && x.call.Idle? && (stopping || MustGo(x.held.value, s.now)) then
        Some(With(s, n, NodeState(Some(x.held.value.(live := false)), Releasing(x.held.value.token, false))))
      else None
    case DatabaseReleases(n) =>
      var x := Of(s, n);
      if x.call.Releasing? && !x.call.done then
        Some(With(s, n, x.(call := x.call.(done := true))).(row := Released(s.row, n, x.call.token)))
      else None
    case EndRelease(n) =>
      var x := Of(s, n);
      if x.call.Releasing? then
        Some(With(s, n, NodeState(None, Idle)).(late := s.late + Unsent(env, n, x.call)))
      else None
    case TimerFires(n) =>
      if Executing(s, n) && s.now >= Of(s, n).held.value.deadline then
        Some(With(s, n, Of(s, n).(held := Some(Of(s, n).held.value.(live := false)))))
      else None
    case Cancel(n) =>
      if Executing(s, n) then Some(With(s, n, Of(s, n).(held := Some(Of(s, n).held.value.(live := false))))) else None
    case Crash(n) =>
      Some(With(s, n, NodeState(None, Idle)).(late := s.late + Unsent(env, n, Of(s, n).call)))
    case AbandonedAcquire(n) =>
      var row := Acquired(s.row, n, s.now);
      Some(if row.Some? then s.(row := row) else s)
    case AbandonedRelease(n, token) =>
      if (n, token) in s.late then Some(s.(row := Released(s.row, n, token), late := s.late - {(n, token)})) else None
  }

  /** A release given up on that the environment may still deliver. */
  function Unsent(env: Env, n: Node, call: Pending): set<(Node, int)> {
    if env.lateReleases && call.Releasing? && !call.done then {(n, call.token)} else {}
  }

  /** The state at the end of a run, if the run is possible. */
  function After(env: Env, run: seq<Step>): Option<State> {
    if run == [] then Some(Initial())
    else
      match After(env, run[..|run| - 1])
      case None => None
      case Some(s) => Apply(env, s, run[|run| - 1])
  }

  // ---------- the invariant ----------

  predicate Exclusive(s: State) {
    forall m, n :: m in s.nodes && n in s.nodes && Executing(s, m) && Executing(s, n) ==> m == n
  }

  /** The local deadline of `n` ends before the database lease that backs it. */
  predicate Backed(env: Env, s: State, n: Node) {
    var held := Of(s, n).held;
    && held.Some? && s.row.Some? && s.row.value.owner == n && s.row.value.token == held.value.token
    && s.now <= FiresBy(env, held.value) < s.row.value.expiresAt
  }

  /** A grant on its way back still holds in the database, unless it is already a lease old. */
  predicate GrantHolds(s: State, n: Node) {
    var c := Of(s, n).call;
    && c.Acquiring? && c.reply.Some? && c.reply.value.Granted?
    && (s.now < c.start + TTL ==>
          s.row.Some? && s.row.value.owner == n && s.row.value.token == c.reply.value.token
          && s.row.value.expiresAt >= c.start + TTL)
  }

  predicate RowSane(s: State) {
    s.row.Some? ==> s.row.value.token >= 1 && s.row.value.expiresAt <= s.now + TTL
  }

  predicate NodeSane(env: Env, s: State, n: Node) {
    var x := Of(s, n);
    && (Executing(s, n) ==> Backed(env, s, n) && !x.call.Releasing?)
    && (x.call.Acquiring? ==> x.call.start <= s.now && (x.call.renewal || !Executing(s, n)))
    && (x.call.Acquiring? && x.call.reply.Some? && x.call.reply.value.Granted? ==> GrantHolds(s, n))
  }

  predicate Inv(env: Env, s: State) {
    && 0 <= s.now && RowSane(s) && s.late == {}
    && forall n :: n in s.nodes ==> NodeSane(env, s, n)
  }

  /** The slack between the local deadline and the lease covers the environment. */
  predicate Safe(env: Env) {
    && !env.lateReleases
    && env.timerLag + (if env.claimLimit <= LOCAL_DEADLINE then LOCAL_DEADLINE else env.claimLimit) < TTL
  }

  lemma InvIsExclusive(env: Env, s: State)
    requires Inv(env, s)
    ensures Exclusive(s)
  {
  }

  /** Nodes that take no part in a step are unaffected as long as the row only changes hands when it is free. */
  predicate RowKept(s: State, t: State, n: Node) {
    && t.now == s.now
    && (s.row.Some? && s.row.value.expiresAt > s.now && s.row.value.owner != n ==> t.row == s.row)
    && (t.row.Some? ==> t.row.value.token >= 1 && t.row.value.expiresAt <= t.now + TTL)
  }

  lemma OthersStaySane(env: Env, s: State, t: State, n: Node)
    requires Inv(env, s) && RowKept(s, t, n)
    requires forall m :: m != n ==> Of(t, m) == Of(s, m) && (m in t.nodes <==> m in s.nodes)
    ensures forall m :: m in t.nodes && m != n ==> NodeSane(env, t, m)
  {
  }

  lemma RowChangesHandsFairly(env: Env, s: State, step: Step)
    requires Inv(env, s) && Apply(env, s, step).Some? && !step.TimePasses? && !step.AbandonedRelease?
    ensures RowKept(s, Apply(env, s, step).value, step.n)
  {
  }

  /** A grant that came back in time backs the session it starts or prolongs. */
  lemma AnswerIsBacked(env: Env, s: State, n: Node, lost: bool)
    requires Safe(env) && Inv(env, s) && Apply(env, s, EndAcquire(n, lost)).Some?
    ensures NodeSane(env, Apply(env, s, EndAcquire(n, lost)).value, n)
  {
  }

  lemma ActorStaysSane(env: Env, s: State, step: Step)
    requires Safe(env) && Inv(env, s) && Apply(env, s, step).Some? && !step.TimePasses? && !step.AbandonedRelease?
    ensures NodeSane(env, Apply(env, s, step).value, step.n)
  {
    if step.EndAcquire? {
      AnswerIsBacked(env, s, step.n, step.lost);
    } else if step.n in s.nodes {
      assert NodeSane(env, s, step.n);
    }
  }

  lemma StepKeepsInv(env: Env, s: State, step: Step)
    requires Safe(env) && Inv(env, s) && Apply(env, s, step).Some?
    ensures Inv(env, Apply(env, s, step).value)
  {
    var t := Apply(env, s, step).value;
    if step.TimePasses? {
      forall n | n in t.nodes
        ensures NodeSane(env, t, n)
      {
        assert NodeSane(env, s, n);
      }
    } else if !step.AbandonedRelease? {
      RowChangesHandsFairly(env, s, step);
      ActorStaysSane(env, s, step);
      OthersStaySane(env, s, t, step.n);
    }
  }

  lemma {:induction false} RunKeepsInv(env: Env, run: seq<Step>)
    requires Safe(env) && After(env, run).Some?
    ensures Inv(env, After(env, run).value)
  {
    if run != [] {
      RunKeepsInv(env, run[..|run| - 1]);
      StepKeepsInv(env, After(env, run[..|run| - 1]).value, run[|run| - 1]);
    }
  }

  // ---------- mutual exclusion, exactly ----------

  lemma Do(env: Env, run: seq<Step>, s: State, step: Step) returns (longer: seq<Step>, t: State)
    requires After(env, run) == Some(s) && Apply(env, s, step).Some?
    ensures longer == run + [step] && t == Apply(env, s, step).value && After(env, longer) == Some(t)
  {
    longer, t := run + [step], Apply(env, s, step).value;
    assert longer[..|run|] == run;
  }

  /** Node `n` claims at once what is free or its own. */
  lemma ClaimsAtOnce(env: Env, before: seq<Step>, s: State, n: Node) returns (run: seq<Step>, t: State)
    requires After(env, before) == Some(s)
    requires !Executing(s, n) && Of(s, n).call == Idle && (Free(s.row, s.now) || s.row.value.owner == n)
    ensures After(env, run) == Some(t)
    ensures var row := Acquired(s.row, n, s.now);
            var held := Held(row.value.token, s.now + LOCAL_DEADLINE, s.now, s.now, true);
            t.now == s.now && t.row == row && t.late == s.late
            && t.nodes == s.nodes[n := NodeState(Some(held), Idle)]
  {
    run, t := Do(env, before, s, BeginClaim(n));
    run, t := Do(env, run, t, DatabaseAcquires(n));
    run, t := Do(env, run, t, EndAcquire(n, false));
  }

  /** Without the slack, a session outlives its lease and the other node gets in. */
  lemma LateTimerOverlaps(env: Env) returns (run: seq<Step>)
    requires !Safe(env) && !env.lateReleases
    ensures After(env, run).Some? && !Exclusive(After(env, run).value)
  {
    var d := if env.claimLimit <= TTL then env.claimLimit else TTL;
    var s;
    run, s := Do(env, [], Initial(), BeginClaim(0));
    run, s := Do(env, run, s, DatabaseAcquires(0));
    run, s := Do(env, run, s, TimePasses(d));
    run, s := Do(env, run, s, EndAcquire(0, false));
    run, s := Do(env, run, s, TimePasses(TTL));
    run, s := ClaimsAtOnce(env, run, s, 1);
    assert Executing(s, 0) && Executing(s, 1);
  }

  /** A release that lands after its node has claimed again, with the same token, frees a lease in use. */
  lemma LateReleaseOverlaps(env: Env) returns (run: seq<Step>)
    requires env.lateReleases
    ensures After(env, run).Some? && !Exclusive(After(env, run).value)
  {
    var s;
    run, s := ClaimsAtOnce(env, [], Initial(), 0);
    run, s := Do(env, run, s, TimePasses(TOUCH_LIMIT + 1));
    run, s := Do(env, run, s, BeginRelease(0, false));
    run, s := Do(env, run, s, EndRelease(0));
    run, s := ClaimsAtOnce(env, run, s, 0);
    run, s := Do(env, run, s, AbandonedRelease(0, 1));
    run, s := ClaimsAtOnce(env, run, s, 1);
    assert Executing(s, 0) && Executing(s, 1);
  }

  /** In every run at most one node executes, if and only if the slack covers the environment. */
  lemma ExclusiveExactlyWhenSafe(env: Env)
    ensures (forall run :: After(env, run).Some? ==> Exclusive(After(env, run).value)) <==> Safe(env)
    ensures
      Safe(env) <==>
      !env.lateReleases && env.timerLag + (if env.claimLimit <= 8_000 then 8_000 else env.claimLimit) < 10_000
  {
    if Safe(env) {
      forall run | After(env, run).Some?
        ensures Exclusive(After(env, run).value)
      {
        RunKeepsInv(env, run);
        InvIsExclusive(env, After(env, run).value);
      }
    } else if env.lateReleases {
      var run := LateReleaseOverlaps(env);
    } else {
      var run := LateTimerOverlaps(env);
    }
  }

  // ---------- what a renewal is for ----------

  /** A renewal that is lost, denied or answered with another token ends the session. */
  lemma LostRenewalEnds(env: Env, run: seq<Step>, n: Node, lost: bool)
    requires After(env, run).Some? && After(env, run + [EndAcquire(n, lost)]).Some?
    requires Of(After(env, run).value, n).call.Acquiring? && Of(After(env, run).value, n).call.renewal
    requires
      var x := Of(After(env, run).value, n);
      lost || x.held.None? || x.call.reply != Some(Granted(x.held.value.token))
    ensures !Executing(After(env, run + [EndAcquire(n, lost)]).value, n)
  {
    assert (run + [EndAcquire(n, lost)])[..|run|] == run;
  }

  predicate Concerns(step: Step, n: Node) {
    match step
    case TimePasses(_) => false
    case AbandonedAcquire(_) => false
    case AbandonedRelease(_, _) => false
    case _ => step.n == n
  }

  /** A continuation in which `n` only uses its session, and its timer may fire; it leads to `end`. */
  ghost predicate Undisturbed(env: Env, s: State, run: seq<Step>, n: Node, end: State)
    decreases |run|
  {
    if run == [] then end == s
    else
      && (Concerns(run[0], n) ==> run[0].Touch? || run[0].TimerFires?)
      && Apply(env, s, run[0]).Some? && Undisturbed(env, Apply(env, s, run[0]).value, run[1..], n, end)
  }

  lemma {:induction false} TimeOnlyPasses(env: Env, s: State, run: seq<Step>, n: Node, end: State)
    requires Undisturbed(env, s, run, n, end)
    ensures s.now <= end.now
    decreases |run|
  {
    if run != [] {
      StepKeepsTime(env, s, run[0]);
      TimeOnlyPasses(env, Apply(env, s, run[0]).value, run[1..], n, end);
    }
  }

  lemma StepKeepsTime(env: Env, s: State, step: Step)
    requires Apply(env, s, step).Some?
    ensures s.now <= Apply(env, s, step).value.now
  {
  }

  predicate HeldUntil(s: State, n: Node, token: int, deadline: Time) {
    Executing(s, n) && Of(s, n).held.value.token == token && Of(s, n).held.value.deadline == deadline
  }

  lemma StepKeepsHeld(env: Env, s: State, step: Step, n: Node, token: int, deadline: Time)
    requires HeldUntil(s, n, token, deadline) && Apply(env, s, step).Some?
    requires Concerns(step, n) ==> step.Touch? || (step.TimerFires? && s.now < deadline)
    ensures HeldUntil(Apply(env, s, step).value, n, token, deadline)
  {
  }

  lemma {:induction false} HeldUntilDeadline(
    env: Env, s: State, run: seq<Step>, n: Node, end: State, token: int, deadline: Time)
    requires HeldUntil(s, n, token, deadline) && Undisturbed(env, s, run, n, end) && end.now < deadline
    ensures HeldUntil(end, n, token, deadline)
    decreases |run|
  {
    hide Apply, HeldUntil, Concerns;
    if run != [] {
      TimeOnlyPasses(env, s, run, n, end);
      StepKeepsHeld(env, s, run[0], n, token, deadline);
      HeldUntilDeadline(env, Apply(env, s, run[0]).value, run[1..], n, end, token, deadline);
    }
  }

  /** A renewal answered with the token of a live session keeps it executing until 8 s after the renewal was started,
      whatever the other nodes and the database do. */
  lemma RenewalKeepsExecuting(env: Env, run: seq<Step>, n: Node, more: seq<Step>, end: State)
    requires After(env, run).Some? && After(env, run + [EndAcquire(n, false)]).Some?
    requires Of(After(env, run).value, n).call.Acquiring? && Of(After(env, run).value, n).call.renewal
    requires Executing(After(env, run).value, n)
    requires
      var x := Of(After(env, run).value, n);
      x.call.reply == Some(Granted(x.held.value.token))
    requires Undisturbed(env, After(env, run + [EndAcquire(n, false)]).value, more, n, end)
    requires end.now < Of(After(env, run).value, n).call.start + LOCAL_DEADLINE
    ensures
      var x := Of(After(env, run).value, n);
      HeldUntil(end, n, x.held.value.token, x.call.start + LOCAL_DEADLINE)
  {
    assert (run + [EndAcquire(n, false)])[..|run|] == run;
    var x := Of(After(env, run).value, n);
    var t := After(env, run + [EndAcquire(n, false)]).value;
    HeldUntilDeadline(env, t, more, n, end, x.held.value.token, x.call.start + LOCAL_DEADLINE);
  }

  /** So does the grant of a claim. */
  lemma ClaimKeepsExecuting(env: Env, run: seq<Step>, n: Node, more: seq<Step>, end: State)
    requires After(env, run).Some? && After(env, run + [EndAcquire(n, false)]).Some?
    requires Of(After(env, run).value, n).call.Acquiring? && !Of(After(env, run).value, n).call.renewal
    requires
      var reply := Of(After(env, run).value, n).call.reply;
      reply.Some? && reply.value.Granted?
    requires Undisturbed(env, After(env, run + [EndAcquire(n, false)]).value, more, n, end)
    requires end.now < Of(After(env, run).value, n).call.start + LOCAL_DEADLINE
    ensures
      var call := Of(After(env, run).value, n).call;
      HeldUntil(end, n, call.reply.value.token, call.start + LOCAL_DEADLINE)
  {
    assert (run + [EndAcquire(n, false)])[..|run|] == run;
    var call := Of(After(env, run).value, n).call;
    var t := After(env, run + [EndAcquire(n, false)]).value;
    HeldUntilDeadline(env, t, more, n, end, call.reply.value.token, call.start + LOCAL_DEADLINE);
  }

  /** An undisturbed renewal of an executing session is granted with the session's own token, in every run. */
  lemma RenewalSucceeds(env: Env, run: seq<Step>, n: Node)
    requires Safe(env) && After(env, run).Some? && Executing(After(env, run).value, n)
    requires Of(After(env, run).value, n).call == Idle
    requires !MustGo(Of(After(env, run).value, n).held.value, After(env, run).value.now)
    ensures
      var s := After(env, run).value;
      var longer := run + [BeginRenew(n), DatabaseAcquires(n), EndAcquire(n, false)];
      After(env, longer).Some?
      && HeldUntil(After(env, longer).value, n, Of(s, n).held.value.token, s.now + LOCAL_DEADLINE)
  {
    RunKeepsInv(env, run);
    var s := After(env, run).value;
    assert NodeSane(env, s, n);
    var longer, t := Do(env, run, s, BeginRenew(n));
    longer, t := Do(env, longer, t, DatabaseAcquires(n));
    longer, t := Do(env, longer, t, EndAcquire(n, false));
    assert longer == run + [BeginRenew(n), DatabaseAcquires(n), EndAcquire(n, false)];
  }

  // ---------- fencing ----------

  function Token(row: Option<Row>): int {
    if row.Some? then row.value.token else 0
  }

  lemma TokenGrowsWithOwner(env: Env, s: State, step: Step)
    requires Apply(env, s, step).Some?
    ensures var t := Apply(env, s, step).value;
            && Token(s.row) <= Token(t.row) <= Token(s.row) + 1 && (s.row.Some? ==> t.row.Some?)
            && (s.row.Some? && s.row.value.owner != t.row.value.owner ==> Token(s.row) < Token(t.row))
  {
  }

  lemma {:induction false} TokensAlongRun(env: Env, run: seq<Step>, k: nat)
    requires k <= |run| && After(env, run).Some?
    ensures After(env, run[..k]).Some?
    ensures var s, t := After(env, run[..k]).value, After(env, run).value;
            && Token(s.row) <= Token(t.row) && (s.row.Some? ==> t.row.Some?)
            && (s.row.Some? && s.row.value.owner != t.row.value.owner ==> Token(s.row) < Token(t.row))
  {
    if k == |run| {
      assert run[..k] == run;
    } else {
      var init := run[..|run| - 1];
      TokensAlongRun(env, init, k);
      assert init[..k] == run[..k];
      TokenGrowsWithOwner(env, After(env, init).value, run[|run| - 1]);
    }
  }

  /** Sessions that execute later in a run never carry a smaller token, and another node's carries a larger one. */
  lemma SuccessorsAreFenced(env: Env, run: seq<Step>, k: nat, m: Node, n: Node)
    requires Safe(env) && k <= |run| && After(env, run).Some? && After(env, run[..k]).Some?
    requires Executing(After(env, run[..k]).value, m) && Executing(After(env, run).value, n)
    ensures var a := Of(After(env, run[..k]).value, m).held.value.token;
            var b := Of(After(env, run).value, n).held.value.token;
            a <= b && (m != n ==> a < b)
  {
    RunKeepsInv(env, run);
    RunKeepsInv(env, run[..k]);
    TokensAlongRun(env, run, k);
    assert NodeSane(env, After(env, run[..k]).value, m) && NodeSane(env, After(env, run).value, n);
  }

  /** What `Validate` reads: an unexpired lease with this node's name and the token it holds (zero if it holds none). */
  predicate Validates(s: State, n: Node) {
    var held := Of(s, n).held;
    && s.row.Some? && s.row.value.expiresAt > s.now && s.row.value.owner == n
    && s.row.value.token == if held.Some? then held.value.token else 0
  }

  /** At that moment no other node executes; and an executing node always validates. */
  lemma ValidateFences(env: Env, run: seq<Step>, n: Node)
    requires Safe(env) && After(env, run).Some?
    ensures var s := After(env, run).value;
            && (Validates(s, n) ==> Of(s, n).held.Some? && forall m :: Executing(s, m) ==> m == n)
            && (Executing(s, n) ==> Validates(s, n))
  {
    RunKeepsInv(env, run);
    var s := After(env, run).value;
    assert forall m :: Executing(s, m) ==> m in s.nodes && NodeSane(env, s, m);
  }
}
