/** Alarms of device components: internal/model/component.go, `ApplyComponentAlarm` of
    internal/adapters/memory/component.go and `SetAlarmStatus` of internal/core/engine.go. */
module ComponentAlarm {
  import opened Common

  type Key = string       // tenant, device and the rule id made of alarm type and component
  type AlarmId = string
  type MessageId = string

  datatype Status = Missing | Active | Acked | Recovered | Closed | Suppressed

  datatype Alarm = Alarm(
    id: AlarmId, rule: Key, status: Status, trigger: MessageId, lastTriggeredAt: int, triggerCount: int,
    recoveredAt: int, name: string, location: string, details: string)

  /** What one message says about one component and alarm type. */
  datatype Observation = Observation(timestamp: int, id: MessageId, active: bool)

  /** The last accepted observation, with the alarm it led to and the event it caused. */
  datatype Watermark = Watermark(seen: Observation, alarm: AlarmId, event: string)

  const NO_ALARM := Alarm("", "", Missing, "", 0, 0, 0, "", "", "")
  const NO_WATERMARK := Watermark(Observation(0, "", false), "", "")

  predicate Open(a: Alarm) {
    a.status == Active || a.status == Acked
  }

  predicate Supersedes(next: Observation, was: Observation) {
    if next.timestamp < was.timestamp || (next.id == was.id && was.id != "") then false
    else next.timestamp != was.timestamp || (!was.active && next.active)
  }

  function Transition(candidate: Alarm, was: Alarm, active: bool): (Alarm, string) {
    if active then
      if Open(was) then
        (was.(lastTriggeredAt := candidate.lastTriggeredAt, triggerCount := was.triggerCount + 1,
              trigger := candidate.trigger, details := candidate.details,
              name := if candidate.name != "" then candidate.name else was.name,
              location := if candidate.location != "" then candidate.location else was.location), "")
      else (candidate, "raised")
    else if Open(was) then (was.(status := Recovered, recoveredAt := candidate.lastTriggeredAt), "recovered")
    else (was, "")
  }

  // ---------- the repository ----------

  datatype Repo = Repo(watermarks: map<Key, Watermark>, alarms: map<AlarmId, Alarm>)

  function Previous(r: Repo, k: Key): Watermark {
    if k in r.watermarks then r.watermarks[k] else NO_WATERMARK
  }

  function Lookup(r: Repo, a: AlarmId): Alarm {
    if a in r.alarms then r.alarms[a] else NO_ALARM
  }

  predicate Replays(o: Observation, was: Observation) {
    o.id == was.id && o.timestamp == was.timestamp
  }

  function Applied(r: Repo, candidate: Alarm, o: Observation): (Repo, string) {
    var previous := Previous(r, candidate.rule);
    var was := Lookup(r, previous.alarm);
    if Replays(o, previous.seen) then (r, previous.event)
    else if !Supersedes(o, previous.seen) then (r, "")
    else
      var (alarm, event) := Transition(candidate, was, o.active);
      (Repo(r.watermarks[candidate.rule := Watermark(o, alarm.id, event)],
            if alarm.id != "" then r.alarms[alarm.id := alarm] else r.alarms),
       event)
  }

  class Repository {
    var componentAlarms: map<Key, Watermark>
    var alarms: map<AlarmId, Alarm>

    ghost function View(): Repo
      reads this
    {
      Repo(componentAlarms, alarms)
    }

    constructor ()
      ensures View() == Repo(map[], map[])
    {
      componentAlarms, alarms := map[], map[];
    }

    method ApplyComponentAlarm(candidate: Alarm, o: Observation) returns (saved: Alarm, event: string)
      modifies this
      ensures (View(), event) == Applied(old(View()), candidate, o)
      ensures saved == Lookup(View(), Previous(View(), candidate.rule).alarm)
              || (saved.id == "" && Previous(View(), candidate.rule).alarm == "")
    {
      var previous := if candidate.rule in componentAlarms then componentAlarms[candidate.rule] else NO_WATERMARK;
      var was := if previous.alarm in alarms then alarms[previous.alarm] else NO_ALARM;
      if o.id == previous.seen.id && o.timestamp == previous.seen.timestamp {
        return was, previous.event;
      }
      if !Supersedes(o, previous.seen) {
        return was, "";
      }
      var (alarm, e) := Transition(candidate, was, o.active);
      if alarm.id != "" {
        alarms := alarms[alarm.id := alarm];
      }
      componentAlarms := componentAlarms[candidate.rule := Watermark(o, alarm.id, e)];
      return alarm, e;
    }
  }

  // ---------- the watermark is a join ----------

  /** Order by time, and an active state above a normal one of the same time. */
  predicate Below(a: Observation, b: Observation) {
    a.timestamp < b.timestamp || (a.timestamp == b.timestamp && (a.active ==> b.active))
  }

  predicate SameRank(a: Observation, b: Observation) {
    a.timestamp == b.timestamp && a.active == b.active
  }

  function Join(a: Observation, b: Observation): Observation {
    if Below(b, a) then a else b
  }

  /** One observation moves the watermark to the larger of the two, if and only if it is not larger and at the same time
      stopped by carrying the watermark's own message id. */
  lemma StepIsJoinExactlyWhen(r: Repo, candidate: Alarm, o: Observation)
    ensures
      var w := Previous(r, candidate.rule).seen;
      var v := Previous(Applied(r, candidate, o).0, candidate.rule).seen;
      SameRank(v, Join(w, o)) <==> Below(o, w) || (o.id != w.id || (o.id == "" && o.timestamp != w.timestamp))
  {
  }

  datatype Seen = Seen(key: Key, o: Observation)

  /** The largest observation of `k`, in the order of arrival among equals. */
  function Largest(log: seq<Seen>, k: Key): Observation {
    if log == [] then NO_WATERMARK.seen
    else
      var before, last := Largest(log[..|log| - 1], k), log[|log| - 1];
      if last.key == k then Join(before, last.o) else before
  }

  /** A message id stands for one time and one flag per component and alarm type, and times are positive. */
  ghost predicate Consistent(log: seq<Seen>) {
    && (forall i :: 0 <= i < |log| ==> log[i].o.timestamp > 0)
    && (forall i, j :: 0 <= i < |log| && 0 <= j < |log| && log[i].key == log[j].key && log[i].o.id == log[j].o.id ==>
                         SameRank(log[i].o, log[j].o))
  }

  // ---------- runs ----------

  /** Operators read an alarm and write it back with another status. Video fusion reads active alarms and writes them back
      as active, with a confirmation added. In between anything may happen. */
  datatype Step =
    | Observe(candidate: Alarm, o: Observation)
    | Fetch(writer: nat, alarm: AlarmId)
    | Write(writer: nat, status: Status)

  /** `log` and `events` are the history: every observation, and every event that was not a replay. */
  datatype State = State(repo: Repo, fetched: map<nat, Alarm>, log: seq<Seen>, events: seq<(Key, string)>)

  function Initial(): State {
    State(Repo(map[], map[]), map[], [], [])
  }

  predicate MayWrite(s: State, writer: nat, status: Status) {
    writer in s.fetched && s.fetched[writer].id in s.repo.alarms
    && (if status == Acked || status == Active then s.fetched[writer].status == Active
        else status == Closed || status == Suppressed)
  }

  function Apply(s: State, step: Step): Option<State> {
    match step
    case Observe(c, o) =>
      // the engine gives every candidate a new id
      if c.id == "" || c.id in s.repo.alarms || c.status != Active || o.timestamp <= 0 then None
      else
        var (repo, event) := Applied(s.repo, c, o);
        var caused := event != "" && !Replays(o, Previous(s.repo, c.rule).seen);
        Some(State(repo, s.fetched, s.log + [Seen(c.rule, o)], if caused then s.events + [(c.rule, event)] else s.events))
    case Fetch(p, a) =>
      if a !in s.repo.alarms then None else Some(s.(fetched := s.fetched[p := s.repo.alarms[a]]))
    case Write(p, status) =>
      if !MayWrite(s, p, status) then None
      else
        var a := s.fetched[p].(status := status);
        Some(s.(repo := s.repo.(alarms := s.repo.alarms[a.id := a]), fetched := s.fetched - {p}))
  }

  function After(run: seq<Step>): Option<State> {
    if run == [] then Some(Initial())
    else
      match After(run[..|run| - 1])
      case None => None
      case Some(s) => Apply(s, run[|run| - 1])
  }

  // ---------- convergence ----------

  predicate InLog(log: seq<Seen>, k: Key, o: Observation) {
    Seen(k, o) in log
  }

  lemma {:induction false} LargestIsLargest(log: seq<Seen>, k: Key)
    ensures forall o :: InLog(log, k, o) ==> Below(o, Largest(log, k))
    ensures Largest(log, k) == NO_WATERMARK.seen || InLog(log, k, Largest(log, k))
  {
    if log == [] {
    } else {
      var shorter := log[..|log| - 1];
      LargestIsLargest(shorter, k);
      var last := log[|log| - 1];
      assert log == shorter + [last];
      assert forall o :: InLog(log, k, o) <==> InLog(shorter, k, o) || last == Seen(k, o);
    }
  }

  /** The watermark is an observation that was made, and the largest of them. */
  ghost predicate WatermarkSane(s: State, k: Key) {
    && SameRank(Previous(s.repo, k).seen, Largest(s.log, k))
    && (Previous(s.repo, k).seen == NO_WATERMARK.seen || InLog(s.log, k, Previous(s.repo, k).seen))
  }

  /** A watermark changes only to the observation just made, and ends as the larger of the two. */
  lemma ObserveJoins(s: State, c: Alarm, o: Observation)
    requires Apply(s, Observe(c, o)).Some?
    requires WatermarkSane(s, c.rule) && Consistent(s.log + [Seen(c.rule, o)])
    ensures
      var w, v := Previous(s.repo, c.rule).seen, Previous(Apply(s, Observe(c, o)).value.repo, c.rule).seen;
      SameRank(v, Join(w, o)) && (v == w || v == o)
  {
    var log, w := s.log + [Seen(c.rule, o)], Previous(s.repo, c.rule).seen;
    hide Largest;
    StepIsJoinExactlyWhen(s.repo, c, o);
    if w != NO_WATERMARK.seen && w.id == o.id {
      var i :| 0 <= i < |s.log| && s.log[i] == Seen(c.rule, w);
      assert log[i] == Seen(c.rule, w) && log[|s.log|] == Seen(c.rule, o);
    }
  }

  lemma LargestNext(log: seq<Seen>, next: Seen, k: Key)
    ensures
      Largest(log + [next], k) == if next.key == k then Join(Largest(log, k), next.o) else Largest(log, k)
  {
    assert (log + [next])[..|log|] == log;
  }

  lemma ObserveLogs(s: State, c: Alarm, o: Observation, k: Key)
    requires Apply(s, Observe(c, o)).Some?
    ensures
      var t := Apply(s, Observe(c, o)).value;
      t.log == s.log + [Seen(c.rule, o)] && (k != c.rule ==> Previous(t.repo, k) == Previous(s.repo, k))
  {
  }

  lemma ObserveKeepsWatermark(s: State, c: Alarm, o: Observation, k: Key)
    requires Apply(s, Observe(c, o)).Some? && WatermarkSane(s, k)
    requires Consistent(s.log + [Seen(c.rule, o)])
    ensures WatermarkSane(Apply(s, Observe(c, o)).value, k)
  {
    hide Apply, Consistent, InLog, Largest, Previous;
    var next := Seen(c.rule, o);
    ObserveLogs(s, c, o, k);
    LargestNext(s.log, next, k);
    LogMore(s.log, next, k);
    if k == c.rule {
      ObserveJoins(s, c, o);
    }
  }

  lemma LogMore(log: seq<Seen>, next: Seen, k: Key)
    ensures forall p :: InLog(log, k, p) ==> InLog(log + [next], k, p)
    ensures InLog(log + [next], next.key, next.o)
  {
    assert (log + [next])[|log|] == Seen(next.key, next.o);
  }

  lemma ConsistentPrefix(a: seq<Seen>, b: seq<Seen>)
    requires Consistent(b) && a <= b
    ensures Consistent(a)
  {
  }

  lemma LogGrows(s: State, step: Step)
    requires Apply(s, step).Some?
    ensures s.log <= Apply(s, step).value.log
  {
  }

  /** After every run whose message ids are consistent, the watermark is the largest observation. */
  lemma {:induction false} WatermarkIsLargest(run: seq<Step>, k: Key)
    requires After(run).Some? && Consistent(After(run).value.log)
    ensures WatermarkSane(After(run).value, k)
  {
    hide Applied, Consistent;
    if run == [] {
    } else {
      var s, step := After(run[..|run| - 1]).value, run[|run| - 1];
      LogGrows(s, step);
      ConsistentPrefix(s.log, After(run).value.log);
      WatermarkIsLargest(run[..|run| - 1], k);
      if step.Observe? {
        ObserveKeepsWatermark(s, step.candidate, step.o, k);
      }
    }
  }

  /** Two runs that saw the same observations of a component, in any order and any number of times and with any operator
      actions between them, end with the same time and state. */
  lemma OrderAndRepetitionDoNotMatter(a: seq<Step>, b: seq<Step>, k: Key)
    requires After(a).Some? && Consistent(After(a).value.log)
    requires After(b).Some? && Consistent(After(b).value.log)
    requires forall o :: InLog(After(a).value.log, k, o) <==> InLog(After(b).value.log, k, o)
    ensures SameRank(Previous(After(a).value.repo, k).seen, Previous(After(b).value.repo, k).seen)
  {
    WatermarkIsLargest(a, k);
    WatermarkIsLargest(b, k);
    hide Apply, After, InLog;
    LargestIsLargest(After(a).value.log, k);
    LargestIsLargest(After(b).value.log, k);
    LoggedIsLater(After(a).value.log, k);
    LoggedIsLater(After(b).value.log, k);
  }

  lemma LoggedIsLater(log: seq<Seen>, k: Key)
    requires Consistent(log)
    ensures forall o :: InLog(log, k, o) ==> o.timestamp > 0
  {
  }

  /** Without consistent ids the order decides: a later state under an id already seen is lost. */
  lemma ReusedIdIsLost(c: Alarm, d: Alarm, k: Key)
    requires c.rule == k && d.rule == k && c.id != "" && d.id != "" && c.id != d.id
    ensures
      var early, late := Observation(1, "m", false), Observation(2, "m", true);
      var empty := Repo(map[], map[]);
      && Previous(Applied(Applied(empty, c, early).0, d, late).0, k).seen == early
      && Previous(Applied(Applied(empty, d, late).0, c, early).0, k).seen == late
  {
  }

  // ---------- replays ----------

  /** Applying the same observation again changes nothing and reports the same event, also after a crash in between. */
  lemma ReplayRepeatsTheEvent(r: Repo, c: Alarm, d: Alarm, o: Observation)
    requires c.rule == d.rule && Previous(Applied(r, c, o).0, c.rule).seen == o
    ensures Applied(Applied(r, c, o).0, d, o) == (Applied(r, c, o).0, Previous(Applied(r, c, o).0, c.rule).event)
    ensures Supersedes(o, Previous(r, c.rule).seen) && !Replays(o, Previous(r, c.rule).seen) ==>
              Applied(Applied(r, c, o).0, d, o).1 == Applied(r, c, o).1
  {
  }

  // ---------- lifecycle ----------

  /** `a` is the alarm of a component that is now active. */
  predicate Current(s: State, a: Alarm) {
    Previous(s.repo, a.rule).alarm == a.id && Previous(s.repo, a.rule).seen.active
  }

  /** A copy that was active is written back, acknowledged or still active, although the alarm is not current by now. */
  predicate Reopens(s: State, step: Step) {
    step.Write? && (step.status == Acked || step.status == Active)
    && step.writer in s.fetched && !Current(s, s.fetched[step.writer])
  }

  /** A current alarm is closed or suppressed by hand. */
  predicate Shuts(s: State, step: Step) {
    step.Write? && step.status != Acked && step.status != Active
    && step.writer in s.fetched && Current(s, s.fetched[step.writer])
  }

  ghost predicate NeverReopens(run: seq<Step>) {
    forall i :: 0 <= i < |run| && After(run[..i]).Some? ==> !Reopens(After(run[..i]).value, run[i])
  }

  ghost predicate NeverShuts(run: seq<Step>) {
    forall i :: 0 <= i < |run| && After(run[..i]).Some? ==> !Shuts(After(run[..i]).value, run[i])
  }

  /** The last event of `k` that was not a replay, "" if there is none. */
  function LastEvent(events: seq<(Key, string)>, k: Key): string {
    if events == [] then ""
    else if events[|events| - 1].0 == k then events[|events| - 1].1
    else LastEvent(events[..|events| - 1], k)
  }

  /** The events of `k` are raised, recovered, raised, ... */
  predicate Alternating(events: seq<(Key, string)>, k: Key) {
    events == []
    || (Alternating(events[..|events| - 1], k)
        && var last := events[|events| - 1];
           last.0 == k ==>
             if LastEvent(events[..|events| - 1], k) == "raised" then last.1 == "recovered" else last.1 == "raised")
  }

  ghost predicate AlarmsSane(s: State) {
    && "" !in s.repo.alarms
    && (forall a :: a in s.repo.alarms ==> s.repo.alarms[a].id == a)
    && (forall p :: p in s.fetched ==> s.fetched[p].id in s.repo.alarms
                                       && s.repo.alarms[s.fetched[p].id].rule == s.fetched[p].rule)
    && (forall k :: k in s.repo.watermarks && s.repo.watermarks[k].alarm != "" ==>
                      s.repo.watermarks[k].alarm in s.repo.alarms && s.repo.alarms[s.repo.watermarks[k].alarm].rule == k)
  }

  /** An open alarm is the current one of its component, and the component is active. */
  ghost predicate OpenSane(s: State) {
    forall a :: a in s.repo.alarms && Open(s.repo.alarms[a]) ==>
                  var w := Previous(s.repo, s.repo.alarms[a].rule);
                  w.alarm == a && w.seen.active
  }

  /** An active component has an open alarm. */
  ghost predicate ActiveSane(s: State, k: Key) {
    var w := Previous(s.repo, k);
    w.seen.active ==> w.alarm in s.repo.alarms && Open(s.repo.alarms[w.alarm])
  }

  /** Each open alarm belongs to an active component and each active component has its alarm open. */
  ghost predicate InStep(s: State) {
    OpenSane(s) && forall k :: ActiveSane(s, k)
  }

  ghost predicate EventsSane(s: State, k: Key) {
    Alternating(s.events, k) && (LastEvent(s.events, k) == "raised" <==> Previous(s.repo, k).seen.active)
  }

  /** What an accepted observation does to the alarm that the watermark names. */
  lemma TransitionFacts(c: Alarm, was: Alarm, active: bool)
    requires c.status == Active && c.id != ""
    ensures
      var (alarm, event) := Transition(c, was, active);
      && (Open(alarm) <==> active)
      && (event == "raised" <==> active && !Open(was)) && (event == "recovered" <==> !active && Open(was))
      && (event == "" <==> active == Open(was))
      && alarm.id == (if active && !Open(was) then c.id else was.id)
      && alarm.rule == (if active && !Open(was) then c.rule else was.rule)
  {
  }

  /** An observation newer than the watermark raises an alarm, repeats it, or recovers it. A repetition leaves the status,
      so an acknowledgement stands; a recovery bears the time of the observation. */
  lemma NewerObservationDecides(s: State, c: Alarm, o: Observation)
    requires AlarmsSane(s) && Apply(s, Observe(c, o)).Some?
    requires o.timestamp > Previous(s.repo, c.rule).seen.timestamp
    requires o.id == "" || o.id != Previous(s.repo, c.rule).seen.id
    ensures
      var r, (t, event) := s.repo, Applied(s.repo, c, o);
      var was := Lookup(r, Previous(r, c.rule).alarm);
      var alarm := Lookup(t, Previous(t, c.rule).alarm);
      && Previous(t, c.rule).seen == o && Previous(t, c.rule).event == event
      && (forall a :: a in r.alarms && a != alarm.id ==> a in t.alarms && t.alarms[a] == r.alarms[a])
      && if was.status == Active || was.status == Acked then
           if o.active then
             && event == "" && alarm.id == was.id && alarm.rule == was.rule && alarm.status == was.status
             && alarm.recoveredAt == was.recoveredAt && alarm.triggerCount == was.triggerCount + 1
             && alarm.lastTriggeredAt == c.lastTriggeredAt && alarm.trigger == c.trigger && alarm.details == c.details
             && alarm.name == (if c.name == "" then was.name else c.name)
             && alarm.location == (if c.location == "" then was.location else c.location)
           else event == "recovered" && alarm == was.(status := Recovered, recoveredAt := c.lastTriggeredAt)
         else if o.active then event == "raised" && alarm == c
         else event == "" && alarm == was
  {
  }

  lemma ObserveKeepsAlarms(s: State, c: Alarm, o: Observation)
    requires AlarmsSane(s) && Apply(s, Observe(c, o)).Some?
    ensures AlarmsSane(Apply(s, Observe(c, o)).value)
  {
    hide Transition, Supersedes, Replays;
    TransitionFacts(c, Lookup(s.repo, Previous(s.repo, c.rule).alarm), o.active);
  }

  lemma StepKeepsAlarms(s: State, step: Step)
    requires AlarmsSane(s) && Apply(s, step).Some?
    ensures AlarmsSane(Apply(s, step).value)
  {
    hide Applied;
    if step.Observe? {
      ObserveKeepsAlarms(s, step.candidate, step.o);
    }
  }

  lemma ObserveKeepsOpen(s: State, c: Alarm, o: Observation)
    requires AlarmsSane(s) && OpenSane(s) && Apply(s, Observe(c, o)).Some?
    ensures OpenSane(Apply(s, Observe(c, o)).value)
  {
    hide Transition, Supersedes, Replays;
    TransitionFacts(c, Lookup(s.repo, Previous(s.repo, c.rule).alarm), o.active);
  }

  /** From a state in which open alarms are current, a step leads to such a state if and only if it does not write an
      open copy over an alarm that is not current. */
  lemma StepKeepsOpenExactlyWhen(s: State, step: Step)
    requires AlarmsSane(s) && OpenSane(s) && Apply(s, step).Some?
    ensures OpenSane(Apply(s, step).value) <==> !Reopens(s, step)
  {
    hide Applied;
    if step.Observe? {
      ObserveKeepsOpen(s, step.candidate, step.o);
    } else if step.Write? {
      WriteKeepsOpenExactlyWhen(s, step.writer, step.status);
    }
  }

  lemma WriteKeepsOpenExactlyWhen(s: State, p: nat, status: Status)
    requires AlarmsSane(s) && OpenSane(s) && Apply(s, Write(p, status)).Some?
    ensures OpenSane(Apply(s, Write(p, status)).value) <==> !Reopens(s, Write(p, status))
  {
    var t, a := Apply(s, Write(p, status)).value, s.fetched[p].id;
    assert t.repo.alarms[a] == s.fetched[p].(status := status);
    assert forall b :: b != a && b in t.repo.alarms ==> b in s.repo.alarms && t.repo.alarms[b] == s.repo.alarms[b];
  }

  /** An observation causes the event that turns the component from what its watermark said to what it says now. */
  lemma ObserveFacts(s: State, c: Alarm, o: Observation)
    requires AlarmsSane(s) && Apply(s, Observe(c, o)).Some?
    requires Previous(s.repo, c.rule).seen.active <==> Open(Lookup(s.repo, Previous(s.repo, c.rule).alarm))
    ensures
      var t := Apply(s, Observe(c, o)).value;
      var before, after := Previous(s.repo, c.rule).seen.active, Previous(t.repo, c.rule).seen.active;
      && t.events == (if before == after then s.events else s.events + [(c.rule, if after then "raised" else "recovered")])
      && (after <==> Open(Lookup(t.repo, Previous(t.repo, c.rule).alarm)))
  {
    hide Transition, Supersedes, Replays;
    TransitionFacts(c, Lookup(s.repo, Previous(s.repo, c.rule).alarm), o.active);
  }

  lemma ObserveLeavesOthers(s: State, c: Alarm, o: Observation, k: Key)
    requires AlarmsSane(s) && Apply(s, Observe(c, o)).Some? && k != c.rule
    ensures
      var t := Apply(s, Observe(c, o)).value;
      && Previous(t.repo, k) == Previous(s.repo, k)
      && Lookup(t.repo, Previous(t.repo, k).alarm) == Lookup(s.repo, Previous(s.repo, k).alarm)
  {
    hide Transition, Supersedes, Replays;
    TransitionFacts(c, Lookup(s.repo, Previous(s.repo, c.rule).alarm), o.active);
  }

  /** One more event, which either belongs to another component or turns `k` around. */
  lemma EventsFollow(events: seq<(Key, string)>, more: seq<(Key, string)>, k: Key, e: Key, up: bool)
    requires Alternating(events, k) && more == events + [(e, if up then "raised" else "recovered")]
    requires e == k ==> (LastEvent(events, k) == "raised" <==> !up)
    ensures Alternating(more, k)
    ensures LastEvent(more, k) == if e == k then (if up then "raised" else "recovered") else LastEvent(events, k)
  {
  }

  lemma CurrentIsOpen(s: State, k: Key)
    requires AlarmsSane(s) && OpenSane(s) && ActiveSane(s, k)
    ensures Previous(s.repo, k).seen.active <==> Open(Lookup(s.repo, Previous(s.repo, k).alarm))
  {
  }

  lemma ObserveKeepsActive(s: State, c: Alarm, o: Observation, k: Key)
    requires AlarmsSane(s) && InStep(s) && Apply(s, Observe(c, o)).Some?
    ensures ActiveSane(Apply(s, Observe(c, o)).value, k)
  {
    hide Apply, AlarmsSane, OpenSane;
    assert ActiveSane(s, k) && ActiveSane(s, c.rule);
    CurrentIsOpen(s, c.rule);
    CurrentIsOpen(s, k);
    ObserveFacts(s, c, o);
    if k != c.rule {
      ObserveLeavesOthers(s, c, o, k);
    }
  }

  lemma WriteKeepsActiveExactlyWhen(s: State, p: nat, status: Status)
    requires AlarmsSane(s) && InStep(s) && Apply(s, Write(p, status)).Some?
    ensures (forall k :: ActiveSane(Apply(s, Write(p, status)).value, k)) <==> !Shuts(s, Write(p, status))
  {
    var t, a := Apply(s, Write(p, status)).value, s.fetched[p];
    assert t.repo.alarms[a.id] == a.(status := status);
    if Shuts(s, Write(p, status)) {
      assert !ActiveSane(t, a.rule);
    } else {
      forall k
        ensures ActiveSane(t, k)
      {
        assert ActiveSane(s, k);
      }
    }
  }

  /** Components and open alarms stay in step through a step if and only if it neither writes an open copy over an alarm
      that is not current nor closes one that is. */
  lemma StepKeepsInStepExactlyWhen(s: State, step: Step)
    requires AlarmsSane(s) && InStep(s) && Apply(s, step).Some?
    ensures InStep(Apply(s, step).value) <==> !Reopens(s, step) && !Shuts(s, step)
  {
    StepKeepsOpenExactlyWhen(s, step);
    hide Applied, OpenSane, AlarmsSane;
    match step
    case Observe(c, o) =>
      forall k
        ensures ActiveSane(Apply(s, step).value, k)
      {
        ObserveKeepsActive(s, c, o, k);
      }
    case Write(p, status) => WriteKeepsActiveExactlyWhen(s, p, status);
    case Fetch(_, _) => assert forall k :: ActiveSane(s, k) ==> ActiveSane(Apply(s, step).value, k);
  }

  lemma ObserveKeepsEvents(s: State, c: Alarm, o: Observation, k: Key)
    requires AlarmsSane(s) && InStep(s) && EventsSane(s, k) && EventsSane(s, c.rule) && Apply(s, Observe(c, o)).Some?
    ensures EventsSane(Apply(s, Observe(c, o)).value, k)
  {
    var t := Apply(s, Observe(c, o)).value;
    assert ActiveSane(s, c.rule);
    CurrentIsOpen(s, c.rule);
    ObserveFacts(s, c, o);
    if k != c.rule {
      ObserveLeavesOthers(s, c, o, k);
    }
    hide Apply, Alternating, LastEvent, OpenSane, AlarmsSane;
    if t.events != s.events {
      EventsFollow(s.events, t.events, k, c.rule, Previous(t.repo, c.rule).seen.active);
    }
  }

  lemma StepKeepsEvents(s: State, step: Step, k: Key)
    requires AlarmsSane(s) && InStep(s) && EventsSane(s, k) && Apply(s, step).Some?
    requires step.Observe? ==> EventsSane(s, step.candidate.rule)
    ensures EventsSane(Apply(s, step).value, k)
  {
    hide Applied, Alternating, LastEvent, InStep, AlarmsSane;
    if step.Observe? {
      ObserveKeepsEvents(s, step.candidate, step.o, k);
    }
  }

  lemma {:induction false} RunKeepsAlarms(run: seq<Step>)
    requires After(run).Some?
    ensures AlarmsSane(After(run).value)
  {
    hide Apply;
    if run == [] {
    } else {
      RunKeepsAlarms(run[..|run| - 1]);
      StepKeepsAlarms(After(run[..|run| - 1]).value, run[|run| - 1]);
    }
  }

  /** Every prefix of a possible run is possible, and one step leads from each to the next. */
  lemma {:induction false} Prefixes(run: seq<Step>, i: nat)
    requires After(run).Some? && i < |run|
    ensures After(run[..i]).Some? && After(run[..i + 1]).Some?
    ensures Apply(After(run[..i]).value, run[i]) == After(run[..i + 1])
    decreases |run|
  {
    hide Apply;
    var shorter := run[..|run| - 1];
    assert run[..|run|] == run;
    if i < |shorter| {
      Prefixes(shorter, i);
      assert shorter[..i] == run[..i] && shorter[..i + 1] == run[..i + 1];
    }
  }

  lemma {:induction false} RunKeepsOpen(run: seq<Step>, i: nat)
    requires After(run).Some? && NeverReopens(run) && i <= |run|
    ensures After(run[..i]).Some? && OpenSane(After(run[..i]).value)
    decreases i
  {
    hide Apply, Reopens;
    if i == 0 {
    } else {
      Prefixes(run, i - 1);
      RunKeepsOpen(run, i - 1);
      RunKeepsAlarms(run[..i - 1]);
      hide After;
      StepKeepsOpenExactlyWhen(After(run[..i - 1]).value, run[i - 1]);
    }
  }

  lemma {:induction false} RunKeepsInStep(run: seq<Step>, i: nat)
    requires After(run).Some? && NeverReopens(run) && NeverShuts(run) && i <= |run|
    ensures After(run[..i]).Some? && InStep(After(run[..i]).value)
    decreases i
  {
    hide Apply, Reopens, Shuts;
    if i == 0 {
    } else {
      Prefixes(run, i - 1);
      RunKeepsInStep(run, i - 1);
      RunKeepsAlarms(run[..i - 1]);
      hide After, InStep;
      StepKeepsInStepExactlyWhen(After(run[..i - 1]).value, run[i - 1]);
    }
  }

  lemma {:induction false} RunKeepsEvents(run: seq<Step>, i: nat, k: Key)
    requires After(run).Some? && NeverReopens(run) && NeverShuts(run) && i <= |run|
    ensures After(run[..i]).Some? && EventsSane(After(run[..i]).value, k)
    decreases i
  {
    hide Apply, Reopens, Shuts;
    if i == 0 {
    } else {
      Prefixes(run, i - 1);
      RunKeepsInStep(run, i - 1);
      RunKeepsAlarms(run[..i - 1]);
      RunKeepsEvents(run, i - 1, k);
      if run[i - 1].Observe? {
        RunKeepsEvents(run, i - 1, run[i - 1].candidate.rule);
      }
      hide After, InStep, EventsSane;
      StepKeepsEvents(After(run[..i - 1]).value, run[i - 1], k);
    }
  }

  /** In every state that a run passes through open alarms are current. */
  ghost predicate AlwaysOpenSane(run: seq<Step>) {
    forall i :: 0 <= i <= |run| && After(run[..i]).Some? ==> OpenSane(After(run[..i]).value)
  }

  ghost predicate AlwaysInStep(run: seq<Step>) {
    forall i :: 0 <= i <= |run| && After(run[..i]).Some? ==> InStep(After(run[..i]).value)
  }

  /** Throughout a run every open alarm is the current one of an active component, if and only if no step writes an open
      copy over an alarm that is not current. */
  lemma OpenIsCurrentExactlyWhen(run: seq<Step>)
    requires After(run).Some?
    ensures AlwaysOpenSane(run) <==> NeverReopens(run)
  {
    hide After, Apply, OpenSane, Reopens;
    if NeverReopens(run) {
      forall i | 0 <= i <= |run| && After(run[..i]).Some?
        ensures OpenSane(After(run[..i]).value)
      {
        RunKeepsOpen(run, i);
      }
    } else if AlwaysOpenSane(run) {
      var i :| 0 <= i < |run| && After(run[..i]).Some? && Reopens(After(run[..i]).value, run[i]);
      Prefixes(run, i);
      RunKeepsAlarms(run[..i]);
      StepKeepsOpenExactlyWhen(After(run[..i]).value, run[i]);
      assert false;
    }
  }

  /** Throughout a run components are active exactly when they have an open alarm, if and only if in addition no step
      closes a current alarm. */
  lemma InStepExactlyWhen(run: seq<Step>)
    requires After(run).Some?
    ensures AlwaysInStep(run) <==> NeverReopens(run) && NeverShuts(run)
  {
    hide After, Apply, InStep, Reopens, Shuts;
    if NeverReopens(run) && NeverShuts(run) {
      forall i | 0 <= i <= |run| && After(run[..i]).Some?
        ensures InStep(After(run[..i]).value)
      {
        RunKeepsInStep(run, i);
      }
    } else if AlwaysInStep(run) {
      var i :| 0 <= i < |run| && After(run[..i]).Some?
               && (Reopens(After(run[..i]).value, run[i]) || Shuts(After(run[..i]).value, run[i]));
      Prefixes(run, i);
      RunKeepsAlarms(run[..i]);
      StepKeepsInStepExactlyWhen(After(run[..i]).value, run[i]);
      assert false;
    }
  }

  /** An open alarm has an active watermark that names it, so a component has at most one open alarm of a type. */
  lemma OpenMeansActive(run: seq<Step>, a: AlarmId)
    requires After(run).Some? && NeverReopens(run)
    requires a in After(run).value.repo.alarms && Open(After(run).value.repo.alarms[a])
    ensures
      var r := After(run).value.repo;
      var w := Previous(r, r.alarms[a].rule);
      && w.seen.active && w.alarm == a
      && forall b :: b in r.alarms && Open(r.alarms[b]) && r.alarms[b].rule == r.alarms[a].rule ==> b == a
  {
    RunKeepsOpen(run, |run|);
    assert run[..|run|] == run;
  }

  /** Unless an outdated copy reopens an alarm or somebody closes a current one, a component is active if and only
      if it has an open alarm, and its events alternate. */
  lemma LifecycleFollowsTheComponent(run: seq<Step>, k: Key)
    requires After(run).Some? && NeverReopens(run) && NeverShuts(run)
    ensures
      var s := After(run).value;
      && (Previous(s.repo, k).seen.active <==>
          exists a :: a in s.repo.alarms && s.repo.alarms[a].rule == k && Open(s.repo.alarms[a]))
      && Alternating(s.events, k) && (LastEvent(s.events, k) == "raised" <==> Previous(s.repo, k).seen.active)
  {
    RunKeepsAlarms(run);
    RunKeepsInStep(run, |run|);
    RunKeepsEvents(run, |run|, k);
    assert run[..|run|] == run;
    var s := After(run).value;
    hide After, Apply, Alternating, LastEvent;
    assert ActiveSane(s, k);
    if Previous(s.repo, k).seen.active {
      assert s.repo.alarms[Previous(s.repo, k).alarm].rule == k;
    }
  }

  lemma Do(run: seq<Step>, s: State, step: Step) returns (longer: seq<Step>, t: State)
    requires After(run) == Some(s) && Apply(s, step).Some?
    ensures longer == run + [step] && After(longer) == Some(t) && Apply(s, step) == Some(t)
  {
    longer, t := run + [step], Apply(s, step).value;
    assert longer[..|run|] == run;
  }

  lemma StartsEmpty() returns (run: seq<Step>)
    ensures run == [] && After(run) == Some(Initial())
  {
    run := [];
  }

  /** An acknowledgement that was read before the recovery and written after it opens the alarm of a normal component. */
  lemma StaleAcknowledgementReopens(c: Alarm, d: Alarm) returns (run: seq<Step>)
    requires c.id != "" && d.id != "" && c.id != d.id && c.rule == d.rule && c.status == d.status == Active
    ensures After(run).Some?
    ensures run == [Observe(c, Observation(1, "m", true)), Fetch(0, c.id),
                    Observe(d, Observation(2, "n", false)), Write(0, Acked)]
    ensures
      var r := After(run).value.repo;
      c.id in r.alarms && Open(r.alarms[c.id]) && r.alarms[c.id].rule == c.rule && !Previous(r, c.rule).seen.active
  {
    hide After;
    run := StartsEmpty();
    var s;
    run, s := Do(run, Initial(), Observe(c, Observation(1, "m", true)));
    run, s := Do(run, s, Fetch(0, c.id));
    run, s := Do(run, s, Observe(d, Observation(2, "n", false)));
    run, s := Do(run, s, Write(0, Acked));
  }

  /** A video alarm of the same area does the same, without any operator: fusion lists the alarm while it is active and
      writes its copy back after the recovery. */
  lemma VideoFusionReopens(c: Alarm, d: Alarm) returns (run: seq<Step>)
    requires c.id != "" && d.id != "" && c.id != d.id && c.rule == d.rule && c.status == d.status == Active
    ensures After(run).Some?
    ensures run == [Observe(c, Observation(1, "m", true)), Fetch(0, c.id),
                    Observe(d, Observation(2, "n", false)), Write(0, Active)]
    ensures
      var r := After(run).value.repo;
      c.id in r.alarms && r.alarms[c.id].status == Active && r.alarms[c.id].rule == c.rule
      && !Previous(r, c.rule).seen.active
  {
    hide After;
    run := StartsEmpty();
    var s;
    run, s := Do(run, Initial(), Observe(c, Observation(1, "m", true)));
    run, s := Do(run, s, Fetch(0, c.id));
    run, s := Do(run, s, Observe(d, Observation(2, "n", false)));
    run, s := Do(run, s, Write(0, Active));
  }

  /** An acknowledgement that is out of date may be harmless: another observation has counted the alarm up in between, and
      the alarm is still the current one. */
  lemma StaleAcknowledgementMayBeHarmless(c: Alarm, d: Alarm) returns (run: seq<Step>)
    requires c.id != "" && d.id != "" && c.id != d.id && c.rule == d.rule && c.status == d.status == Active
    ensures After(run).Some? && NeverReopens(run) && NeverShuts(run)
    ensures run == [Observe(c, Observation(1, "m", true)), Fetch(0, c.id),
                    Observe(d, Observation(2, "n", true)), Write(0, Acked)]
    ensures After(run[..3]).Some? && 0 in After(run[..3]).value.fetched
    ensures Lookup(After(run[..3]).value.repo, c.id) != After(run[..3]).value.fetched[0]
  {
    hide After;
    run := StartsEmpty();
    var s;
    run, s := Do(run, Initial(), Observe(c, Observation(1, "m", true)));
    run, s := Do(run, s, Fetch(0, c.id));
    run, s := Do(run, s, Observe(d, Observation(2, "n", true)));
    var before, t := run, s;
    run, s := Do(run, s, Write(0, Acked));
    assert run[..3] == before;
    assert !Reopens(t, Write(0, Acked));
    forall i | 0 <= i < |run| && After(run[..i]).Some?
      ensures !Reopens(After(run[..i]).value, run[i]) && !Shuts(After(run[..i]).value, run[i])
    {
    }
  }

  // ---------- what messages alone can do to an alarm ----------

  /** From one alarm to what observations made of it: they count it up while it is open, and recover it for good. */
  predicate OnlyRecovers(was: Alarm, now: Alarm) {
    && now.id == was.id && now.rule == was.rule && was.triggerCount <= now.triggerCount
    && if Open(was) then now.status == was.status || now.status == Recovered else now == was
  }

  lemma ObservationOnlyRecovers(s: State, c: Alarm, o: Observation, a: AlarmId)
    requires AlarmsSane(s) && a in s.repo.alarms && Apply(s, Observe(c, o)).Some?
    ensures
      var t := Apply(s, Observe(c, o)).value;
      a in t.repo.alarms && OnlyRecovers(s.repo.alarms[a], t.repo.alarms[a])
  {
  }

  /** As long as nobody writes an alarm back, an acknowledged alarm stays acknowledged until its component recovers, and a
      recovered or closed one is never touched again. */
  lemma {:induction false} AcknowledgementStands(run: seq<Step>, k: nat, a: AlarmId)
    requires After(run).Some? && k <= |run| && forall i :: k <= i < |run| ==> !run[i].Write?
    ensures After(run[..k]).Some?
    ensures
      a in After(run[..k]).value.repo.alarms ==>
        a in After(run).value.repo.alarms
        && OnlyRecovers(After(run[..k]).value.repo.alarms[a], After(run).value.repo.alarms[a])
    decreases |run|
  {
    hide Applied;
    if k == |run| {
      assert run[..k] == run;
    } else {
      var shorter := run[..|run| - 1];
      AcknowledgementStands(shorter, k, a);
      assert shorter[..k] == run[..k];
      RunKeepsAlarms(shorter);
      var s, step := After(shorter).value, run[|run| - 1];
      if step.Observe? && a in s.repo.alarms {
        ObservationOnlyRecovers(s, step.candidate, step.o, a);
      }
    }
  }
}
