/** Session takeover and connection reports: internal/protocolruntime/connections.go, and `frame` and `close` of
    internal/protocolruntime/listeners.go. */
module Connections {
  import opened Common

  type Device = string
  type Host = nat
  type Session = nat

  // ---------- reference-counted reports ----------

  /** The count per device, and every edge handed to the reporter, oldest first. */
  datatype Book = Book(counts: map<Device, int>, edges: seq<(Device, bool)>)

  function Count(b: Book, d: Device): int {
    if d in b.counts then b.counts[d] else 0
  }

  /** `reportConnection`: only the first session of a device is reported up, only the last one down. */
  function Reported(b: Book, d: Device, connected: bool): Book {
    var n := Count(b, d);
    if connected then
      Book(b.counts[d := n + 1], if n > 0 then b.edges else b.edges + [(d, true)])
    else if n <= 0 then b
    else if n > 1 then b.(counts := b.counts[d := n - 1])
    else Book(b.counts - {d}, b.edges + [(d, false)])
  }

  class Reporter {
    var connectionCounts: map<Device, int>
    var edges: seq<(Device, bool)>

    ghost function View(): Book
      reads this
    {
      Book(connectionCounts, edges)
    }

    constructor ()
      ensures View() == Book(map[], [])
    {
      connectionCounts, edges := map[], [];
    }

    method ReportConnection(d: Device, connected: bool)
      modifies this
      ensures View() == Reported(old(View()), d, connected)
    {
      var n := if d in connectionCounts then connectionCounts[d] else 0;
      if connected {
        connectionCounts := connectionCounts[d := n + 1];
        if n > 0 {
          return;
        }
      } else {
        if n <= 0 {
          return;
        }
        if n > 1 {
          connectionCounts := connectionCounts[d := n - 1];
          return;
        }
        connectionCounts := connectionCounts - {d};
      }
      edges := edges + [(d, connected)];
    }
  }

  /** The last edge of `d`, false if there is none. */
  function LastEdge(edges: seq<(Device, bool)>, d: Device): bool {
    if edges == [] then false
    else if edges[|edges| - 1].0 == d then edges[|edges| - 1].1
    else LastEdge(edges[..|edges| - 1], d)
  }

  /** The edges of `d` are up, down, up, ... */
  predicate Alternating(edges: seq<(Device, bool)>, d: Device) {
    edges == []
    || (Alternating(edges[..|edges| - 1], d)
        && (edges[|edges| - 1].0 == d ==> edges[|edges| - 1].1 != LastEdge(edges[..|edges| - 1], d)))
  }

  // ---------- sessions ----------

  /** `Registering` and `Framing` hold the session lock; the last three are the stages of `close`. */
  datatype Phase =
    | Anonymous
    | Registering(device: Device)   // reported up, not yet in the table
    | Idle(device: Device)
    | Framing(device: Device)       // a later frame, past its check that the session is still current
    | Closed(device: Device)        // "" if it never identified
    | Unlisted(device: Device)
    | Done

  datatype Peer = Peer(host: Host, phase: Phase)

  /** `doomed`: the sessions another one ordered to close. */
  datatype State = State(
    peers: map<Session, Peer>, identified: map<(Host, Device), Session>, book: Book, doomed: set<Session>)

  datatype Step =
    | Accept(s: Session, h: Host)
    | Identify(s: Session, d: Device)
    | Recheck(s: Session)
    | Register(s: Session)
    | Abort(s: Session)            // a frame fails between its check and the table update
    | Close(s: Session)
    | Unlist(s: Session)
    | ReportDown(s: Session)

  function Initial(): State {
    State(map[], map[], Book(map[], []), {})
  }

  function Move(st: State, s: Session, p: Phase): State
    requires s in st.peers
  {
    st.(peers := st.peers[s := st.peers[s].(phase := p)])
  }

  function Apply(st: State, step: Step): Option<State> {
    if step.Accept? then
      if step.s in st.peers then None else Some(st.(peers := st.peers[step.s := Peer(step.h, Anonymous)]))
    else if step.s !in st.peers then None
    else
      var s, h, p := step.s, st.peers[step.s].host, st.peers[step.s].phase;
      match step
      case Identify(_, d) =>
        if p.Anonymous? && d != "" then
          Some(Move(st, s, Registering(d)).(book := Reported(st.book, d, true)))
        else None
      case Recheck(_) =>
        if p.Idle? && (h, p.device) in st.identified && st.identified[(h, p.device)] == s then
          Some(Move(st, s, Framing(p.device)))
        else None
      case Register(_) =>
        if p.Registering? || p.Framing? then
          var k := (h, p.device);
          Some(Move(st, s, Idle(p.device)).(
               identified := st.identified[k := s],
               doomed := if k in st.identified && st.identified[k] != s then st.doomed + {st.identified[k]} else st.doomed))
        else None
      case Abort(_) =>
        if p.Framing? then Some(Move(st, s, Idle(p.device))) else None
      case Close(_) =>
        if p.Anonymous? then Some(Move(st, s, Closed("")))
        else if p.Idle? then Some(Move(st, s, Closed(p.device)))
        else None
      case Unlist(_) =>
        if p.Closed? then
          var k := (h, p.device);
          Some(Move(st, s, Unlisted(p.device)).(
               identified := if k in st.identified && st.identified[k] == s then st.identified - {k} else st.identified))
        else None
      case ReportDown(_) =>
        if p.Unlisted? then
          Some(Move(st, s, Done).(book := if p.device != "" then Reported(st.book, p.device, false) else st.book))
        else None
  }

  function After(run: seq<Step>): Option<State> {
    if run == [] then Some(Initial())
    else
      match After(run[..|run| - 1])
      case None => None
      case Some(s) => Apply(s, run[|run| - 1])
  }

  // ---------- the invariant ----------

  /** The session has been reported up for `d` and not yet down. */
  predicate Counts(p: Peer, d: Device) {
    match p.phase
    case Anonymous | Done => false
    case _ => p.phase.device == d
  }

  function Present(st: State, d: Device): set<Session> {
    set s | s in st.peers && Counts(st.peers[s], d)
  }

  predicate MayBeListed(p: Peer, h: Host, d: Device) {
    p.host == h && (p.phase == Idle(d) || p.phase == Framing(d) || p.phase == Closed(d))
  }

  ghost predicate BookSane(st: State, d: Device) {
    && Count(st.book, d) == |Present(st, d)|
    && (d in st.book.counts <==> Present(st, d) != {})
    && Alternating(st.book.edges, d)
    && LastEdge(st.book.edges, d) == (Present(st, d) != {})
  }

  ghost predicate TableSane(st: State) {
    forall h, d :: (h, d) in st.identified ==>
                     st.identified[(h, d)] in st.peers && MayBeListed(st.peers[st.identified[(h, d)]], h, d)
  }

  ghost predicate Inv(st: State) {
    TableSane(st) && forall d :: d != "" ==> BookSane(st, d)
  }

  /** One more or one less session is counted exactly as one report up or down. */
  lemma ReportFollows(b: Book, d: Device, e: Device, before: set<Session>, after: set<Session>, s: Session, up: bool)
    requires Count(b, e) == |before| && (e in b.counts <==> before != {})
    requires Alternating(b.edges, e) && LastEdge(b.edges, e) == (before != {})
    requires d != e ==> after == before
    requires d == e && up ==> s !in before && after == before + {s}
    requires d == e && !up ==> s in before && after == before - {s}
    ensures
      var c := Reported(b, d, up);
      && Count(c, e) == |after| && (e in c.counts <==> after != {})
      && Alternating(c.edges, e) && LastEdge(c.edges, e) == (after != {})
  {
  }

  lemma StepKeepsTable(st: State, step: Step)
    requires TableSane(st) && Apply(st, step).Some?
    ensures TableSane(Apply(st, step).value)
  {
    hide Reported;
  }

  /** What a step does to the sessions counted for `d`. */
  lemma StepMovesPresence(st: State, step: Step, d: Device)
    requires Apply(st, step).Some? && d != ""
    ensures
      var before, after := Present(st, d), Present(Apply(st, step).value, d);
      if step == Identify(step.s, d) then step.s !in before && after == before + {step.s}
      else if step == ReportDown(step.s) && Counts(st.peers[step.s], d) then step.s in before && after == before - {step.s}
      else after == before
  {
    hide Reported;
  }

  lemma StepKeepsBook(st: State, step: Step, d: Device)
    requires BookSane(st, d) && Apply(st, step).Some? && d != ""
    ensures BookSane(Apply(st, step).value, d)
  {
    hide Reported, Alternating, LastEdge, Count;
    var t := Apply(st, step).value;
    StepMovesPresence(st, step, d);
    if step.Identify? {
      ReportFollows(st.book, step.d, d, Present(st, d), Present(t, d), step.s, true);
    } else if step.ReportDown? && st.peers[step.s].phase.device != "" {
      ReportFollows(st.book, st.peers[step.s].phase.device, d, Present(st, d), Present(t, d), step.s, false);
    }
  }

  /** A step of any session keeps the invariant. */
  lemma StepKeepsInv(st: State, step: Step)
    requires Inv(st) && Apply(st, step).Some?
    ensures Inv(Apply(st, step).value)
  {
    hide Apply, BookSane, TableSane;
    StepKeepsTable(st, step);
    forall d | d != ""
      ensures BookSane(Apply(st, step).value, d)
    {
      StepKeepsBook(st, step, d);
    }
  }

  lemma {:induction false} RunKeepsInv(run: seq<Step>)
    requires After(run).Some?
    ensures Inv(After(run).value)
  {
    hide Apply;
    if run == [] {
    } else {
      RunKeepsInv(run[..|run| - 1]);
      StepKeepsInv(After(run[..|run| - 1]).value, run[|run| - 1]);
    }
  }

  // ---------- what every run guarantees ----------

  /** The count of a device is the number of its sessions reported up and not yet down, and it is never zero in the map. */
  lemma CountIsExact(run: seq<Step>, d: Device)
    requires After(run).Some? && d != ""
    ensures Count(After(run).value.book, d) == |Present(After(run).value, d)|
    ensures d in After(run).value.book.counts <==> exists s :: s in Present(After(run).value, d)
  {
    RunKeepsInv(run);
    assert BookSane(After(run).value, d);
  }

  /** The reported edges of a device alternate, starting with up, and the last one tells whether it has a session. */
  lemma EdgesAlternate(run: seq<Step>, d: Device)
    requires After(run).Some? && d != ""
    ensures Alternating(After(run).value.book.edges, d)
    ensures LastEdge(After(run).value.book.edges, d) <==> Present(After(run).value, d) != {}
  {
    RunKeepsInv(run);
    assert BookSane(After(run).value, d);
  }

  /** The stages of closing `s` leave every table entry of another session alone, and afterwards `s` has none. */
  lemma ClosingRemovesOnlyItself(run: seq<Step>, s: Session, k: (Host, Device))
    requires After(run + [Unlist(s)]).Some?
    ensures
      var before, after := After(run).value.identified, After(run + [Unlist(s)]).value.identified;
      && (k in before && before[k] != s ==> k in after && after[k] == before[k])
      && (k in after ==> k in before && after[k] == before[k] && after[k] != s)
  {
    assert (run + [Unlist(s)])[..|run|] == run;
    RunKeepsInv(run);
    assert k == (k.0, k.1);
  }

  /** A table entry belongs to a session of that listener and device that has not left the table by closing. */
  lemma EntriesHaveOwners(run: seq<Step>, h: Host, d: Device)
    requires After(run).Some? && (h, d) in After(run).value.identified
    ensures
      var st := After(run).value;
      var s := st.identified[(h, d)];
      s in st.peers && st.peers[s].host == h && (st.peers[s].phase in {Idle(d), Framing(d), Closed(d)})
  {
    RunKeepsInv(run);
  }

  lemma OwnerIsNotDone(st: State, k: (Host, Device))
    requires TableSane(st) && k in st.identified
    ensures st.identified[k] in st.peers && !st.peers[st.identified[k]].phase.Done?
  {
  }

  /** When every session is gone, nothing is left behind. */
  lemma DrainedMeansEmpty(run: seq<Step>)
    requires After(run).Some?
    requires forall s :: s in After(run).value.peers ==> After(run).value.peers[s].phase.Done?
    ensures After(run).value.identified == map[]
    ensures forall d :: d != "" ==> d !in After(run).value.book.counts && !LastEdge(After(run).value.book.edges, d)
  {
    RunKeepsInv(run);
    var st := After(run).value;
    if k :| k in st.identified {
      OwnerIsNotDone(st, k);
      assert false;
    }
    forall d | d != ""
      ensures d !in st.book.counts && !LastEdge(st.book.edges, d)
    {
      assert BookSane(st, d);
      assert Present(st, d) == {};
    }
  }

  // ---------- takeover ----------

  /** `s` has the device on its listener, and nobody has ordered it to close. */
  predicate Owns(st: State, s: Session, h: Host, d: Device) {
    (h, d) in st.identified && st.identified[(h, d)] == s && s !in st.doomed
  }

  /** No other session of the listener is about to write the table entry of the device. */
  ghost predicate Alone(st: State, s: Session, h: Host, d: Device) {
    forall x :: x in st.peers && x != s && st.peers[x].host == h ==>
                  st.peers[x].phase != Registering(d) && st.peers[x].phase != Framing(d)
  }

  /** `s` closes, or another session of the listener identifies as the device: a takeover may then end. */
  predicate Ends(st: State, step: Step, s: Session, h: Host, d: Device) {
    || step == Close(s) || step == Unlist(s)
    || (step.Identify? && step.d == d && step.s != s && step.s in st.peers && st.peers[step.s].host == h)
  }

  /** A continuation in which nothing ends the takeover of `s`, and the state it leads to. */
  ghost predicate Continues(st: State, run: seq<Step>, s: Session, h: Host, d: Device, end: State)
    decreases |run|
  {
    if run == [] then end == st
    else
      !Ends(st, run[0], s, h, d) && Apply(st, run[0]).Some? && Continues(Apply(st, run[0]).value, run[1..], s, h, d, end)
  }

  lemma StepKeepsTakeover(st: State, step: Step, s: Session, h: Host, d: Device)
    requires TableSane(st) && Owns(st, s, h, d) && Alone(st, s, h, d)
    requires Apply(st, step).Some? && !Ends(st, step, s, h, d)
    ensures Owns(Apply(st, step).value, s, h, d) && Alone(Apply(st, step).value, s, h, d)
  {
    hide Reported;
    assert MayBeListed(st.peers[s], h, d);
  }

  lemma {:induction false} TakeoverLasts(st: State, run: seq<Step>, s: Session, h: Host, d: Device, end: State)
    requires TableSane(st) && Owns(st, s, h, d) && Alone(st, s, h, d) && Continues(st, run, s, h, d, end)
    ensures Owns(end, s, h, d)
    decreases |run|
  {
    hide Apply, Owns, Alone, Ends, TableSane;
    if run == [] {
    } else {
      StepKeepsTakeover(st, run[0], s, h, d);
      StepKeepsTable(st, run[0]);
      TakeoverLasts(Apply(st, run[0]).value, run[1..], s, h, d, end);
    }
  }

  /** A session in the middle of its frame takes the device from its owner and orders it to close. */
  lemma BusySessionTakesOver(st: State, s: Session, x: Session, h: Host, d: Device) returns (end: State)
    requires Owns(st, s, h, d) && x in st.peers && x != s && st.peers[x].host == h
    requires st.peers[x].phase == Registering(d) || st.peers[x].phase == Framing(d)
    ensures Continues(st, [Register(x)], s, h, d, end)
    ensures (h, d) in end.identified && end.identified[(h, d)] == x && s in end.doomed
  {
    end := Apply(st, Register(x)).value;
    assert Continues(end, [], s, h, d, end);
  }

  /** Every continuation keeps the device with `s`, until `s` closes or another session identifies. */
  ghost predicate Lasting(st: State, s: Session, h: Host, d: Device) {
    forall run, end :: Continues(st, run, s, h, d, end) ==> Owns(end, s, h, d)
  }

  /** In every reachable state the takeover of an owner lasts if and only if no frame of another session of the listener
      is between its check and its table update. */
  lemma TakeoverLastsExactlyWhenAlone(before: seq<Step>, s: Session, h: Host, d: Device)
    requires After(before).Some? && Owns(After(before).value, s, h, d)
    ensures Lasting(After(before).value, s, h, d) <==> Alone(After(before).value, s, h, d)
  {
    RunKeepsInv(before);
    var st := After(before).value;
    hide After, Apply;
    if Alone(st, s, h, d) {
      forall run, end | Continues(st, run, s, h, d, end)
        ensures Owns(end, s, h, d)
      {
        TakeoverLasts(st, run, s, h, d, end);
      }
    }
    if x :| x in st.peers && x != s && st.peers[x].host == h
            && (st.peers[x].phase == Registering(d) || st.peers[x].phase == Framing(d)) {
      var end := BusySessionTakesOver(st, s, x, h, d);
      var run := [Register(x)];
      assert Continues(st, run, s, h, d, end);
    }
  }

  lemma RegisterOwns(st: State, s: Session)
    requires Apply(st, Register(s)).Some? && s !in st.doomed
    ensures
      var t, h, d := Apply(st, Register(s)).value, st.peers[s].host, st.peers[s].phase.device;
      Owns(t, s, h, d) && (Alone(t, s, h, d) <==> Alone(st, s, h, d))
  {
    var t, h, d := Apply(st, Register(s)).value, st.peers[s].host, st.peers[s].phase.device;
    assert forall x :: x != s ==> (x in t.peers <==> x in st.peers) && (x in st.peers ==> t.peers[x] == st.peers[x]);
  }

  /** The table update of a session makes it the owner; this takeover lasts if and only if no frame of another session
      of the listener was then between its check and its own update. */
  lemma TakeoverBegins(before: seq<Step>, s: Session)
    requires After(before + [Register(s)]).Some? && After(before).Some? && s !in After(before).value.doomed
    requires Apply(After(before).value, Register(s)).Some?
    ensures
      var st, t := After(before).value, After(before + [Register(s)]).value;
      var h, d := st.peers[s].host, st.peers[s].phase.device;
      Owns(t, s, h, d) && (Lasting(t, s, h, d) <==> Alone(st, s, h, d))
  {
    assert (before + [Register(s)])[..|before|] == before;
    var st := After(before).value;
    RegisterOwns(st, s);
    TakeoverLastsExactlyWhenAlone(before + [Register(s)], s, st.peers[s].host, st.peers[s].phase.device);
  }

  lemma Do(run: seq<Step>, st: State, step: Step) returns (longer: seq<Step>, t: State)
    requires After(run) == Some(st) && Apply(st, step).Some?
    ensures longer == run + [step] && After(longer) == Some(t) && Apply(st, step) == Some(t)
  {
    longer, t := run + [step], Apply(st, step).value;
    assert longer[..|run|] == run;
  }

  /** The old session's frame writes it back after a takeover, and both are ordered to close. */
  lemma LateFrameUndoesTakeover(h: Host, d: Device) returns (run: seq<Step>)
    requires d != ""
    ensures After(run).Some? && After(run).value.doomed == {0, 1} && After(run).value.identified == map[(h, d) := 0]
    ensures run == [Accept(0, h), Identify(0, d), Register(0), Recheck(0),
                    Accept(1, h), Identify(1, d), Register(1), Register(0)]
  {
    hide Reported, After;
    var st;
    run := StartsEmpty();
    run, st := Arrives(run, Initial(), 0, h, d);
    run, st := Do(run, st, Recheck(0));
    run, st := Arrives(run, st, 1, h, d);
    run, st := Do(run, st, Register(0));
  }

  lemma StartsEmpty() returns (run: seq<Step>)
    ensures run == [] && After(run) == Some(Initial())
  {
    run := [];
  }

  /** A session connects, identifies and takes the table entry. */
  lemma Arrives(run: seq<Step>, st: State, s: Session, h: Host, d: Device) returns (longer: seq<Step>, t: State)
    requires After(run) == Some(st) && s !in st.peers && d != ""
    ensures longer == run + [Accept(s, h), Identify(s, d), Register(s)] && After(longer) == Some(t)
    ensures t.peers == st.peers[s := Peer(h, Idle(d))] && t.identified == st.identified[(h, d) := s]
    ensures t.book == Reported(st.book, d, true)
    ensures t.doomed == if (h, d) in st.identified && st.identified[(h, d)] != s
                        then st.doomed + {st.identified[(h, d)]} else st.doomed
  {
    hide Reported, After;
    longer, t := Do(run, st, Accept(s, h));
    longer, t := Do(longer, t, Identify(s, d));
    longer, t := Do(longer, t, Register(s));
  }

  /** The session closes, leaves the table and is reported down. */
  lemma Departs(run: seq<Step>, st: State, s: Session, h: Host, d: Device) returns (longer: seq<Step>, t: State)
    requires After(run) == Some(st) && s in st.peers && st.peers[s] == Peer(h, Idle(d)) && d != ""
    ensures longer == run + [Close(s), Unlist(s), ReportDown(s)] && After(longer) == Some(t)
    ensures t.identified == if (h, d) in st.identified && st.identified[(h, d)] == s then st.identified - {(h, d)}
                            else st.identified
    ensures t.book == Reported(st.book, d, false)
  {
    hide Reported, After;
    longer, t := Do(run, st, Close(s));
    longer, t := Do(longer, t, Unlist(s));
    longer, t := Do(longer, t, ReportDown(s));
  }

  /** From every reachable state a new session can come and go. While it is there it counts as one more and holds the
      device; afterwards the count is what it was, and it has been reported, up and down, exactly if it was the only one. */
  lemma SessionComesAndGoes(run: seq<Step>, s: Session, h: Host, d: Device)
    requires After(run).Some? && s !in After(run).value.peers && d != ""
    ensures
      var up := run + [Accept(s, h), Identify(s, d), Register(s)];
      After(up).Some? &&
      var st, t := After(run).value, After(up).value;
      && (h, d) in t.identified && t.identified[(h, d)] == s
      && Count(t.book, d) == Count(st.book, d) + 1 && LastEdge(t.book.edges, d)
    ensures
      var longer := run + [Accept(s, h), Identify(s, d), Register(s)] + [Close(s), Unlist(s), ReportDown(s)];
      After(longer).Some? &&
      var st, t := After(run).value, After(longer).value;
      && (h, d) !in t.identified && Count(t.book, d) == Count(st.book, d)
      && t.book.edges == st.book.edges + (if Count(st.book, d) == 0 then [(d, true), (d, false)] else [])
  {
    RunKeepsInv(run);
    var st := After(run).value;
    assert BookSane(st, d);
    var up, t := Arrives(run, st, s, h, d);
    RunKeepsInv(up);
    assert BookSane(t, d) && Present(t, d) != {} by { assert s in Present(t, d); }
    var longer, u := Departs(up, t, s, h, d);
    hide After, Apply, Inv;
    assert u.book.edges == st.book.edges + (if Count(st.book, d) == 0 then [(d, true), (d, false)] else []);
  }
}
