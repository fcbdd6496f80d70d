/** How a command on a listener session comes to its end: answered, timed out, or sent without asking for an answer;
    `Command` of internal/protocolruntime/listeners.go. */
module SessionCompletion {
  import opened Common
  import opened SessionCommand

  /** The session takes a command. */
  predicate Ready(s: State) {
    !s.closed && !s.busy && s.pending == map[]
  }

  lemma Do(run: seq<Step>, s: State, step: Step) returns (longer: seq<Step>, t: State)
    requires After(run) == Some(s) && Apply(s, step).Some?
    ensures longer == run + [step] && After(longer) == Some(t) && Apply(s, step) == Some(t)
  {
    longer, t := run + [step], Apply(s, step).value;
    assert longer[..|run|] == run;
  }

  /** Frames that do not answer the command with this correlation id. */
  predicate Unrelated(frames: seq<Step>, id: Id) {
    forall i :: 0 <= i < |frames| ==> frames[i].Frame? && (frames[i].id != id || !frames[i].matches)
  }

  lemma {:induction false} UnrelatedChangeNothing(run: seq<Step>, s: State, c: Call, id: Id, frames: seq<Step>)
    returns (t: State)
    requires After(run) == Some(s) && !s.closed && s.pending == map[id := c] && Unrelated(frames, id)
    ensures After(run + frames) == Some(t) && t == s.(log := t.log)
    decreases |frames|
  {
    if frames == [] {
      t := s;
      assert run + [] == run;
    } else {
      var longer, u := Do(run, s, frames[0]);
      t := UnrelatedChangeNothing(longer, u, c, id, frames[1..]);
      assert longer + frames[1..] == run + frames;
    }
  }

  /** The call in the select is handed the matching frame and runs its deferred functions. */
  lemma AnswerIsReturned(run: seq<Step>, s: State, c: Call, id: Id) returns (t: State)
    requires After(run) == Some(s) && !s.closed && s.pending == map[id := c] && id != ""
    requires At(s, c) == Waiting(id) && Sent(s, c) == []
    ensures After(run + [Frame(id, true), Receive(c), Unlist(c), Leave(c)]) == Some(t)
    ensures !t.closed && !t.busy && t.pending == map[] && At(t, c) == Gone
    ensures Sent(t, c) == [Acknowledged(|s.log|)] && t.log == s.log + [Ingested(id)]
  {
    var longer;
    longer, t := Do(run, s, Frame(id, true));
    longer, t := Do(longer, t, Receive(c));
    longer, t := Do(longer, t, Unlist(c));
    longer, t := Do(longer, t, Leave(c));
    assert longer == run + [Frame(id, true), Receive(c), Unlist(c), Leave(c)];
  }

  /** A ready session takes any new call, and the first matching frame is its result, whatever other frames come before it.
      The call returns it, once, and the session is ready again. */
  lemma MatchingReplyCompletes(run: seq<Step>, c: Call, id: Id, frames: seq<Step>)
    requires After(run).Some? && Ready(After(run).value) && c !in After(run).value.phase
    requires id != "" && Unrelated(frames, id)
    ensures
      var longer := run + [Command(c, id)] + frames + [Frame(id, true), Receive(c), Unlist(c), Leave(c)];
      After(longer).Some? &&
      var t := After(longer).value;
      && Ready(t) && At(t, c) == Gone
      && |Sent(t, c)| == 1 && Sent(t, c)[0].Acknowledged? && Sent(t, c)[0].at < |t.log|
      && t.log[Sent(t, c)[0].at] == Ingested(id)
  {
    RunKeepsInv(run);
    NothingActive(After(run).value, c);
    hide Inv;
    var longer, s := Do(run, After(run).value, Command(c, id));
    s := UnrelatedChangeNothing(longer, s, c, id, frames);
    hide Apply;
    s := AnswerIsReturned(longer + frames, s, c, id);
    assert longer + frames == run + [Command(c, id)] + frames;
  }

  /** A command without a correlation id, or one that fails before it is listed, waits for nothing. */
  lemma UncorrelatedReturns(run: seq<Step>, c: Call)
    requires After(run).Some? && Ready(After(run).value) && c !in After(run).value.phase
    ensures After(run + [Command(c, ""), Leave(c)]).Some? && Ready(After(run + [Command(c, ""), Leave(c)]).value)
    ensures After(run + [CommandFails(c), Leave(c)]).Some? && Ready(After(run + [CommandFails(c), Leave(c)]).value)
  {
    var longer, s := Do(run, After(run).value, Command(c, ""));
    longer, s := Do(longer, s, Leave(c));
    assert longer == run + [Command(c, ""), Leave(c)];
    longer, s := Do(run, After(run).value, CommandFails(c));
    longer, s := Do(longer, s, Leave(c));
    assert longer == run + [CommandFails(c), Leave(c)];
  }

  /** A waiting call that was sent nothing is listed, and only listed calls are answered by `close`. */
  lemma CloseAnswersTheWaiting(s: State, c: Call)
    requires Inv(s) && At(s, c).Waiting?
    ensures On(Answered(s.sent, s.pending.Values), c) == if Sent(s, c) == [] then [SessionClosed] else Sent(s, c)
  {
    hide OneActive, SentSane, TimeoutSane;
    assert WaitingSane(s, c);
    if c in s.pending.Values {
      var id :| id in s.pending && s.pending[id] == c;
      assert PendingSane(s, id);
    } else {
      assert s.phase[c].id in s.pending ==> s.pending[s.phase[c].id] != c;
    }
  }

  /** The call on its way out of a closed session. */
  lemma LeavesClosed(run: seq<Step>, s: State, c: Call) returns (t: State)
    requires After(run) == Some(s) && s.closed && s.pending == map[] && At(s, c).Expired?
    ensures After(run + [SawClosed(c), Unlist(c), Leave(c)]) == Some(t)
    ensures t == s.(busy := false, phase := s.phase[c := Gone])
  {
    var longer;
    longer, t := Do(run, s, SawClosed(c));
    longer, t := Do(longer, t, Unlist(c));
    longer, t := Do(longer, t, Leave(c));
    assert longer == run + [SawClosed(c), Unlist(c), Leave(c)];
  }

  /** From every reachable state a waiting call can time out. It closes the session and leaves it without a trace: no
      pending entry, and a call that nothing was sent to has been sent the closing error, which it no longer reads. */
  lemma TimeoutCloses(run: seq<Step>, c: Call)
    requires After(run).Some? && At(After(run).value, c).Waiting? && !After(run).value.closed
    ensures
      var longer := run + [TimeOut(c), Close] + [SawClosed(c), Unlist(c), Leave(c)];
      After(longer).Some? &&
      var s, t := After(run).value, After(longer).value;
      && t.closed && !t.busy && t.pending == map[] && At(t, c) == Gone
      && Sent(t, c) == if Sent(s, c) == [] then [SessionClosed] else Sent(s, c)
  {
    RunKeepsInv(run);
    var s := After(run).value;
    CloseAnswersTheWaiting(s, c);
    hide Inv, Answered;
    var longer, t := Do(run, s, TimeOut(c));
    longer, t := Do(longer, t, Close);
    assert longer == run + [TimeOut(c), Close];
    assert Sent(t, c) == On(Answered(s.sent, s.pending.Values), c);
    hide Apply;
    t := LeavesClosed(longer, t, c);
  }
}
