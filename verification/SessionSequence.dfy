/** Late replies across the sessions that one remote address has, one after the other: internal/protocolruntime/listeners.go,
    where a timeout closes the session (`Command`) and the next datagram or connection from the address opens another
    (`receiveUDP`, `accept`). */
module SessionSequence {
  import opened Common
  import opened SessionCommand

  /** The runs of the sessions, in order; all but the last are closed. */
  ghost predicate Sequence(runs: seq<seq<Step>>) {
    && (forall g :: 0 <= g < |runs| ==> After(runs[g]).Some?)
    && (forall g :: 0 <= g < |runs| - 1 ==> After(runs[g]).value.closed)
  }

  ghost function End(runs: seq<seq<Step>>, g: nat): State
    requires Sequence(runs) && g < |runs|
  {
    After(runs[g]).value
  }

  /** The command that a frame answers: a call of one of the sessions. */
  datatype Origin = Origin(session: nat, call: Call)

  /** The `k`-th event of session `g` is a frame that answers the command of `o`, with its correlation id. A connection
      only carries answers to its own commands; a datagram may answer a command of an earlier session. */
  ghost predicate Answers(runs: seq<seq<Step>>, g: nat, k: nat, o: Origin, datagrams: bool)
    requires Sequence(runs) && g < |runs|
  {
    var log := End(runs, g).log;
    && k < |log| && log[k].Ingested? && o.session <= g
    && (if o.session == g then Written(log, o.call, log[k].id, k)
        else datagrams && Written(End(runs, o.session).log, o.call, log[k].id, |End(runs, o.session).log|))
  }

  /** The command had timed out before the frame came. */
  ghost predicate Late(runs: seq<seq<Step>>, g: nat, k: nat, o: Origin)
    requires Sequence(runs) && g < |runs| && o.session <= g
  {
    var log := End(runs, o.session).log;
    exists i :: 0 <= i < |log| && (o.session == g ==> i < k) && log[i] == TimedOut(o.call)
  }

  /** The frame is handed to call `d` of session `g` as its success. */
  ghost predicate Satisfies(runs: seq<seq<Step>>, g: nat, k: nat, d: Call)
    requires Sequence(runs) && g < |runs|
  {
    Acknowledged(k) in Sent(End(runs, g), d)
  }

  /** Some later session writes a command with the correlation id of a command that timed out in an earlier one. */
  ghost predicate Reuses(runs: seq<seq<Step>>, g: nat, d: Call, o: Origin)
    requires Sequence(runs) && g < |runs| && o.session < g
  {
    exists id, n :: Written(End(runs, o.session).log, o.call, id, |End(runs, o.session).log|) && Written(End(runs, g).log, d, id, n)
  }

  /** A late reply reaches no call but its own within its session. On connections that is all; by datagram it can only
      reach a call of a later session that reuses the correlation id. */
  lemma LateReplyNeedsReuse(runs: seq<seq<Step>>, g: nat, k: nat, o: Origin, d: Call, datagrams: bool)
    requires Sequence(runs) && g < |runs| && Answers(runs, g, k, o, datagrams) && Late(runs, g, k, o)
    requires Satisfies(runs, g, k, d)
    ensures o.session == g ==> d == o.call
    ensures o.session < g ==> datagrams && Reuses(runs, g, d, o)
  {
    hide Apply, After, Inv;
    var log := End(runs, g).log;
    if o.session == g {
      var i :| 0 <= i < |log| && i < k && log[i] == TimedOut(o.call);
      LateRepliesSatisfyNobodyElse(runs[g], i);
    } else {
      SuccessFollowsTheCommand(runs[g], d, Acknowledged(k));
      assert Written(log, d, log[k].id, k);
    }
  }

  /** So on connections a late reply never satisfies another call, in whatever session. */
  lemma ConnectionsTakeNoLateReply(runs: seq<seq<Step>>, g: nat, k: nat, o: Origin, d: Call)
    requires Sequence(runs) && g < |runs| && Answers(runs, g, k, o, false) && Late(runs, g, k, o)
    requires Satisfies(runs, g, k, d)
    ensures o == Origin(g, d)
  {
    LateReplyNeedsReuse(runs, g, k, o, d, false);
  }

  lemma StartsEmpty() returns (run: seq<Step>)
    ensures run == [] && After(run) == Some(Initial())
  {
    run := [];
  }

  lemma Do(run: seq<Step>, s: State, step: Step) returns (longer: seq<Step>, t: State)
    requires After(run) == Some(s) && Apply(s, step).Some?
    ensures longer == run + [step] && After(longer) == Some(t) && Apply(s, step) == Some(t)
  {
    longer, t := run + [step], Apply(s, step).value;
    assert longer[..|run|] == run;
  }

  /** By datagram a reused id is enough: the late reply to a command of the closed session acknowledges the command of the
      new one. */
  lemma ReusedIdTakesLateReply(c: Call, d: Call, id: Id) returns (runs: seq<seq<Step>>)
    requires id != ""
    ensures runs == [[Command(c, id), TimeOut(c), Close], [Command(d, id), Frame(id, true)]]
    ensures Sequence(runs)
    ensures Answers(runs, 1, 1, Origin(0, c), true) && Late(runs, 1, 1, Origin(0, c)) && Satisfies(runs, 1, 1, d)
  {
    hide After;
    var first := StartsEmpty();
    var second := StartsEmpty();
    var s, t;
    first, s := Do(first, Initial(), Command(c, id));
    first, s := Do(first, s, TimeOut(c));
    first, s := Do(first, s, Close);
    second, t := Do(second, Initial(), Command(d, id));
    second, t := Do(second, t, Frame(id, true));
    assert first == [Command(c, id), TimeOut(c), Close] && second == [Command(d, id), Frame(id, true)];
    runs := [first, second];
    assert After(runs[0]) == Some(s) && After(runs[1]) == Some(t);
    assert s.log == [Wrote(c, id), TimedOut(c)] && t.log == [Wrote(d, id), Ingested(id)];
    assert Written(s.log, c, id, |s.log|) by { assert s.log[0] == Wrote(c, id); }
    assert Late(runs, 1, 1, Origin(0, c)) by { assert s.log[1] == TimedOut(c); }
    assert Sent(t, d) == [Acknowledged(1)];
  }
}
