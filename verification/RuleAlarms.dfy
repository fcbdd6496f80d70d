/** Closing the alarms of a deleted rule: `closeRuleAlarms` of internal/core/engine.go over `ListAlarms` and `UpdateAlarm`
    of internal/adapters/memory/repository.go. The method pages by offset through a result set that its own updates
    shrink and that every call may list in another order. */
module RuleAlarms {
  import opened Common
  import opened AlarmPaging
  import Listing

  type Table = map<nat, Alarm>

  predicate Open(a: Alarm) {
    a.status == Active || a.status == Acked
  }

  ghost predicate Keyed(t: Table) {
    forall id :: id in t ==> t[id].id == id
  }

  /** The alarms with a status. */
  function OfStatus(t: Table, status: Status): set<Alarm> {
    set id | id in t && t[id].status == status :: t[id]
  }

  // ---------- listing ----------

  /** Puts one more alarm into a listing, behind those of the same or a later time. */
  function Insert(a: Alarm, sorted: seq<Alarm>): seq<Alarm> {
    if sorted == [] then [a]
    else if Age(a) < Age(sorted[0]) then [a] + sorted
    else [sorted[0]] + Insert(a, sorted[1..])
  }

  lemma {:induction false} InsertArranges(a: Alarm, sorted: seq<Alarm>, s: set<Alarm>)
    requires Lists(sorted, s) && a !in s
    ensures Lists(Insert(a, sorted), s + {a})
    decreases |sorted|
  {
    if sorted == [] {
      assert s == {};
    } else if Age(a) < Age(sorted[0]) {
      Listing.ArrangesOne(a, Age);
      forall x | x in s
        ensures Age(a) <= Age(x)
      {
        var i :| 0 <= i < |sorted| && sorted[i] == x;
      }
      Listing.ArrangesBoth([a], {a}, sorted, s, Age);
      assert {a} + s == s + {a};
    } else {
      var first, rest := sorted[0], sorted[1..];
      RestArranges(sorted, s);
      InsertArranges(a, rest, s - {first});
      Listing.ArrangesOne(first, Age);
      Listing.ArrangesBoth([first], {first}, Insert(a, rest), s - {first} + {a}, Age);
      assert {first} + (s - {first} + {a}) == s + {a};
    }
  }

  lemma RestArranges(sorted: seq<Alarm>, s: set<Alarm>)
    requires Lists(sorted, s) && sorted != []
    ensures Lists(sorted[1..], s - {sorted[0]}) && sorted[0] in s
    ensures forall x :: x in s ==> Age(sorted[0]) <= Age(x)
  {
    forall x
      ensures x in sorted[1..] <==> x in s - {sorted[0]}
    {
      if x in s && x != sorted[0] {
        var i :| 0 <= i < |sorted| && sorted[i] == x;
        assert sorted[1..][i - 1] == x;
      }
    }
    forall x | x in s
      ensures Age(sorted[0]) <= Age(x)
    {
      var i :| 0 <= i < |sorted| && sorted[i] == x;
    }
  }

  // ---------- the repository ----------

  /** The alarms of one tenant. Calls may fail. */
  class Repository {
    var alarms: Table

    constructor (alarms: Table)
      ensures this.alarms == alarms
    {
      this.alarms := alarms;
    }

    /** A page of some listing of the alarms with the status, latest first; nothing is promised about ties. */
    method ListAlarms(status: Status, limit: nat, offset: nat) returns (page: Option<seq<Alarm>>, ghost order: seq<Alarm>)
      requires Keyed(alarms)
      ensures page.Some? ==> Lists(order, OfStatus(alarms, status)) && page.value == Page(order, offset, limit)
    {
      order := [];
      if * {
        return None, [];
      }
      var out := [];
      var todo := alarms.Keys;
      ghost var seen := {};
      while todo != {}
        invariant todo <= alarms.Keys
        invariant Lists(out, seen)
        invariant seen == set id | id in alarms && id !in todo && alarms[id].status == status :: alarms[id]
        decreases todo
      {
        var id :| id in todo;
        todo := todo - {id};
        if alarms[id].status == status {
          assert alarms[id] !in seen;
          InsertArranges(alarms[id], out, seen);
          out := Insert(alarms[id], out);
          seen := seen + {alarms[id]};
        }
      }
      assert seen == OfStatus(alarms, status);
      return Some(Page(out, offset, limit)), out;
    }

    method UpdateAlarm(a: Alarm) returns (ok: bool)
      modifies this
      ensures ok ==> a.id in old(alarms)
      ensures alarms == if ok then old(alarms)[a.id := a] else old(alarms)
    {
      if a.id !in alarms {
        return false;
      }
      if * {
        return false;
      }
      alarms := alarms[a.id := a];
      return true;
    }
  }

  // ---------- what closing may do ----------

  predicate Matches(a: Alarm, rule: Rule) {
    Open(a) && a.rule == rule
  }

  /** `b` is `a`, or `a` was an open alarm of the rule and `b` is `a` recovered. */
  predicate MayBecome(a: Alarm, b: Alarm, rule: Rule) {
    b == a || (Matches(a, rule) && b == a.(status := Recovered, recoveredAt := b.recoveredAt))
  }

  /** Only open alarms of the rule have changed, to recovered; those are what was reported, each once. */
  ghost predicate Progress(was: Table, now: Table, rule: Rule, reported: seq<nat>) {
    && Keyed(now) && now.Keys == was.Keys
    && (forall id :: id in was ==> MayBecome(was[id], now[id], rule))
    && (forall id :: id in was ==> (now[id] != was[id] <==> id in reported))
    && (forall id :: id in reported ==> id in was)
    && (forall i, j :: 0 <= i < j < |reported| ==> reported[i] != reported[j])
  }

  function Devices(was: Table, reported: seq<nat>): set<Device> {
    set id | id in was && id in reported :: was[id].device
  }

  /** Recovering one alarm changes just it, and takes it out of its status and into none that is open. */
  lemma UpdateMakesProgress(was: Table, now: Table, rule: Rule, reported: seq<nat>, a: Alarm, at: int)
    requires Progress(was, now, rule, reported)
    requires a.id in now && now[a.id] == a && Matches(a, rule)
    ensures
      var next := now[a.id := a.(status := Recovered, recoveredAt := at)];
      && Progress(was, next, rule, reported + [a.id])
      && Devices(was, reported + [a.id]) == Devices(was, reported) + {a.device}
      && OfStatus(next, a.status) == OfStatus(now, a.status) - {a}
      && (forall s :: s != a.status && s != Recovered ==> OfStatus(next, s) == OfStatus(now, s))
  {
    assert a.id in was && was[a.id].device == a.device && a.id !in reported;
    UpdateMoves(now, a, at);
  }

  lemma UpdateMoves(now: Table, a: Alarm, at: int)
    requires Keyed(now) && a.id in now && now[a.id] == a && Open(a)
    ensures
      var next := now[a.id := a.(status := Recovered, recoveredAt := at)];
      && OfStatus(next, a.status) == OfStatus(now, a.status) - {a}
      && (forall s :: s != a.status && s != Recovered ==> OfStatus(next, s) == OfStatus(now, s))
  {
    var next := now[a.id := a.(status := Recovered, recoveredAt := at)];
    forall s, x | s != Recovered
      ensures x in OfStatus(next, s) <==> x in OfStatus(now, s) && x != a
    {
      if x in OfStatus(now, s) && x != a {
        assert next[x.id] == x;
      }
    }
  }

  // ---------- the method ----------

  /** The inner loop: every alarm of a page that belongs to the rule is updated and reported. */
  method ClosePage(repo: Repository, page: seq<Alarm>, rule: Rule, status: Status, ghost was: Table,
                   before: seq<nat>, known: set<Device>)
    returns (ok: bool, changed: bool, reported: seq<nat>, affected: set<Device>)
    requires status == Active || status == Acked
    requires Progress(was, repo.alarms, rule, before) && known == Devices(was, before)
    requires Listing.Distinct(page) && forall a :: a in page ==> a in OfStatus(repo.alarms, status)
    modifies repo
    ensures Progress(was, repo.alarms, rule, reported) && affected == Devices(was, reported)
    ensures ok ==> OfStatus(repo.alarms, status) == OfStatus(old(repo.alarms), status) - Hits(page, rule)
    ensures ok ==> (changed <==> Hits(page, rule) != {})
    ensures forall s :: s != status && s != Recovered ==> OfStatus(repo.alarms, s) == OfStatus(old(repo.alarms), s)
  {
    hide Progress, Devices, OfStatus;
    reported, affected, changed := before, known, false;
    for i := 0 to |page|
      invariant Progress(was, repo.alarms, rule, reported) && affected == Devices(was, reported)
      invariant OfStatus(repo.alarms, status) == OfStatus(old(repo.alarms), status) - Hits(page[..i], rule)
      invariant changed <==> Hits(page[..i], rule) != {}
      invariant forall s :: s != status && s != Recovered ==> OfStatus(repo.alarms, s) == OfStatus(old(repo.alarms), s)
    {
      var alarm := page[i];
      NextHit(page, i, rule);
      if alarm.rule != rule {
        continue;
      }
      ListedIsStored(was, repo.alarms, rule, reported, alarm, status);
      var now: int := *;
      UpdateMakesProgress(was, repo.alarms, rule, reported, alarm, now);
      ok := repo.UpdateAlarm(alarm.(status := Recovered, recoveredAt := now));
      if !ok {
        return;
      }
      affected := affected + {alarm.device};
      reported := reported + [alarm.id];
      changed := true;
    }
    assert page[..|page|] == page;
    ok := true;
  }

  lemma NextHit(page: seq<Alarm>, i: nat, rule: Rule)
    requires i < |page| && Listing.Distinct(page)
    ensures Hits(page[..i + 1], rule) == Hits(page[..i], rule) + if page[i].rule == rule then {page[i]} else {}
    ensures page[i] in page && page[i] !in Hits(page[..i], rule)
  {
    assert page[..i + 1] == page[..i] + [page[i]];
  }

  lemma ListedIsStored(was: Table, now: Table, rule: Rule, reported: seq<nat>, a: Alarm, status: Status)
    requires Progress(was, now, rule, reported) && a in OfStatus(now, status)
    ensures a.id in now && now[a.id] == a && a.status == status
  {
  }

  /** One pass: pages of a status until one is empty, back to the start after every page that changed something. It is a
      pass in the sense of `AlarmPaging`. */
  method CloseStatus(repo: Repository, rule: Rule, status: Status, ghost was: Table, before: seq<nat>, known: set<Device>)
    returns (ok: bool, reported: seq<nat>, affected: set<Device>)
    requires status == Active || status == Acked
    requires Progress(was, repo.alarms, rule, before) && known == Devices(was, before)
    modifies repo
    ensures Progress(was, repo.alarms, rule, reported) && affected == Devices(was, reported)
    ensures ok ==> Passes(OfStatus(old(repo.alarms), status), rule, OfStatus(repo.alarms, status))
    ensures forall s :: s != status && s != Recovered ==> OfStatus(repo.alarms, s) == OfStatus(old(repo.alarms), s)
  {
    hide Progress, Devices, OfStatus, Hits, Page, Lists, Ends;
    reported, affected := before, known;
    ghost var all, lists := OfStatus(repo.alarms, status), [];
    var offset: nat := 0;
    NothingYet(all, rule);
    while true
      invariant Progress(was, repo.alarms, rule, reported) && affected == Devices(was, reported)
      invariant forall s :: s != status && s != Recovered ==> OfStatus(repo.alarms, s) == OfStatus(old(repo.alarms), s)
      invariant offset <= |OfStatus(repo.alarms, status)|
      invariant Continues(all, rule, lists, OfStatus(repo.alarms, status), offset)
      decreases OfStatus(repo.alarms, status), |OfStatus(repo.alarms, status)| - offset
    {
      ghost var current := OfStatus(repo.alarms, status);
      ProgressIsKeyed(was, repo.alarms, rule, reported);
      ghost var order;
      var page;
      page, order := repo.ListAlarms(status, BATCH, offset);
      if page.None? {
        return false, reported, affected;
      }
      var alarms := page.value;
      PageFacts(order, current, offset, rule);
      if |alarms| == 0 {
        Finishes(all, rule, lists, current, offset, order);
        break;
      }
      var changed;
      ok, changed, reported, affected := ClosePage(repo, alarms, rule, status, was, reported, affected);
      if !ok {
        return;
      }
      OneCallOn(all, rule, lists, current, offset, order);
      lists := lists + [order];
      if changed {
        offset := 0;
        continue;
      }
      assert OfStatus(repo.alarms, status) == current;
      offset := offset + |alarms|;
    }
    ok := true;
  }

  lemma ProgressIsKeyed(was: Table, now: Table, rule: Rule, reported: seq<nat>)
    requires Progress(was, now, rule, reported)
    ensures Keyed(now)
  {
  }

  lemma PageFacts(order: seq<Alarm>, s: set<Alarm>, offset: nat, rule: Rule)
    requires Lists(order, s)
    ensures
      var page := Page(order, offset, BATCH);
      && Listing.Distinct(page) && (forall a :: a in page ==> a in s)
      && Hits(page, rule) <= s && (page != [] ==> offset + |page| <= |s|)
  {
    Listing.ArrangedMembers(order, s, Age);
  }

  /** Whatever completes the pass from here completes it from its start. */
  ghost predicate Continues(all: set<Alarm>, rule: Rule, lists: seq<seq<Alarm>>, s: set<Alarm>, offset: nat) {
    forall rest, left :: Ends(s, offset, rule, rest, left) ==> Ends(all, 0, rule, lists + rest, left)
  }

  lemma NothingYet(all: set<Alarm>, rule: Rule)
    ensures Continues(all, rule, [], all, 0)
  {
    forall rest, left | Ends(all, 0, rule, rest, left)
      ensures Ends(all, 0, rule, [] + rest, left)
    {
      assert [] + rest == rest;
    }
  }

  lemma OneCallOn(all: set<Alarm>, rule: Rule, lists: seq<seq<Alarm>>, s: set<Alarm>, offset: nat, order: seq<Alarm>)
    requires Continues(all, rule, lists, s, offset) && Lists(order, s) && Page(order, offset, BATCH) != []
    ensures
      var page := Page(order, offset, BATCH);
      if Hits(page, rule) == {} then Continues(all, rule, lists + [order], s, offset + |page|)
      else Continues(all, rule, lists + [order], s - Hits(page, rule), 0)
  {
    hide Lists, Page, Hits;
    var page := Page(order, offset, BATCH);
    var next, from := s, offset + |page|;
    if Hits(page, rule) != {} {
      next, from := s - Hits(page, rule), 0;
    }
    forall rest, left | Ends(next, from, rule, rest, left)
      ensures Ends(all, 0, rule, lists + [order] + rest, left)
    {
      hide Ends;
      OneMoreCall(s, offset, rule, order, rest, left);
      assert lists + [order] + rest == lists + ([order] + rest);
    }
  }

  lemma Finishes(all: set<Alarm>, rule: Rule, lists: seq<seq<Alarm>>, s: set<Alarm>, offset: nat, order: seq<Alarm>)
    requires Continues(all, rule, lists, s, offset) && Lists(order, s) && Page(order, offset, BATCH) == []
    ensures Passes(all, rule, s)
  {
    assert Ends(s, offset, rule, [order], s);
  }

  /** Exactly the closed alarms were reported, each once, and on success exactly their devices were brought up to date;
      nothing else changes, whether it succeeds or not. On success no open alarm of the rule is left, provided none could
      be on two pages. */
  method CloseRuleAlarms(repo: Repository, rule: Rule) returns (ok: bool, reported: seq<nat>, synced: set<Device>)
    requires Keyed(repo.alarms)
    modifies repo
    ensures Progress(old(repo.alarms), repo.alarms, rule, reported)
    ensures ok ==> synced == Devices(old(repo.alarms), reported)
    ensures ok ==> Passes(OfStatus(old(repo.alarms), Active), rule, OfStatus(repo.alarms, Active))
    ensures ok ==> Passes(OfStatus(old(repo.alarms), Acked), rule, OfStatus(repo.alarms, Acked))
    ensures
      ok && NoneStraddles(OfStatus(old(repo.alarms), Active), rule) && NoneStraddles(OfStatus(old(repo.alarms), Acked), rule)
      ==> forall id :: id in repo.alarms ==> !Matches(repo.alarms[id], rule)
  {
    ghost var was := repo.alarms;
    var affected;
    synced := {};
    hide Passes, NoneStraddles, Free, Ends, OfStatus, Progress, Devices, Matches;
    NothingDone(was, rule);
    ok, reported, affected := CloseStatus(repo, rule, Active, was, [], {});
    if !ok {
      return;
    }
    ok, reported, affected := CloseStatus(repo, rule, Acked, was, reported, affected);
    if !ok {
      return;
    }
    PassClosesAllExactlyWhen(OfStatus(was, Active), rule);
    PassClosesAllExactlyWhen(OfStatus(was, Acked), rule);
    FreeMeansClosed(repo.alarms, rule);
    ok, synced := SyncDevices(affected);
  }

  /** The business status of each device is brought up to date, until that fails for one. */
  method SyncDevices(affected: set<Device>) returns (ok: bool, synced: set<Device>)
    ensures synced <= affected && (ok ==> synced == affected)
  {
    var todo := affected;
    synced := {};
    while todo != {}
      invariant synced + todo == affected
      decreases todo
    {
      var device :| device in todo;
      if * {
        return false, synced;
      }
      synced, todo := synced + {device}, todo - {device};
    }
    ok := true;
  }

  lemma NothingDone(was: Table, rule: Rule)
    requires Keyed(was)
    ensures Progress(was, was, rule, []) && Devices(was, []) == {}
  {
  }

  lemma FreeMeansClosed(t: Table, rule: Rule)
    ensures Free(OfStatus(t, Active), rule) && Free(OfStatus(t, Acked), rule) ==>
              forall id :: id in t ==> !Matches(t[id], rule)
  {
    forall id | id in t && Matches(t[id], rule)
      ensures t[id] in OfStatus(t, t[id].status)
    {
    }
  }
}
