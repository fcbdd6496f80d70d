/** Paging through alarms that are closed on the way: the listing of internal/adapters/memory/repository.go and
    internal/adapters/postgres/repository.go under the loop of `closeRuleAlarms` in internal/core/engine.go.

    Every call lists the alarms of a status anew, latest first. Alarms of one time come in any order, and in another
    order in the next call. */
module AlarmPaging {
  import opened Listing

  type Rule = string
  type Device = string

  datatype Status = Active | Acked | Recovered | Closed | Suppressed

  datatype Alarm = Alarm(
    id: nat, rule: Rule, device: Device, status: Status, lastTriggeredAt: int, recoveredAt: int)

  const BATCH: nat := 1000

  /** The sort key: later alarms first. */
  function Age(a: Alarm): int {
    -a.lastTriggeredAt
  }

  ghost predicate Lists(a: seq<Alarm>, s: set<Alarm>) {
    Arranges(a, s, Age)
  }

  function Page<T>(all: seq<T>, offset: nat, limit: nat): seq<T> {
    if offset >= |all| then [] else if offset + limit > |all| then all[offset..] else all[offset..offset + limit]
  }

  function Hits(page: seq<Alarm>, rule: Rule): set<Alarm> {
    set a | a in page && a.rule == rule
  }

  /** One pass over the alarms `s` of a status, from `offset` on: `lists` is what the calls list, `left` what the pass
      leaves when a page is empty. A page with alarms of the rule closes them and starts again. */
  ghost predicate Ends(s: set<Alarm>, offset: nat, rule: Rule, lists: seq<seq<Alarm>>, left: set<Alarm>)
    decreases |lists|
  {
    && lists != [] && Lists(lists[0], s)
    && var page := Page(lists[0], offset, BATCH);
       if page == [] then |lists| == 1 && left == s
       else if Hits(page, rule) == {} then Ends(s, offset + |page|, rule, lists[1..], left)
       else Ends(s - Hits(page, rule), 0, rule, lists[1..], left)
  }

  ghost predicate Passes(s: set<Alarm>, rule: Rule, left: set<Alarm>) {
    exists lists :: Ends(s, 0, rule, lists, left)
  }

  // ---------- when a pass closes every alarm of the rule ----------

  /** Alarms of other rules with a later time than `m`, and with the same time. */
  function Later(s: set<Alarm>, rule: Rule, m: Alarm): set<Alarm> {
    set a | a in s && a.rule != rule && a.lastTriggeredAt > m.lastTriggeredAt
  }

  function Tied(s: set<Alarm>, rule: Rule, m: Alarm): set<Alarm> {
    set a | a in s && a.rule != rule && a.lastTriggeredAt == m.lastTriggeredAt
  }

  /** Among the alarms of other rules, `m` can be on two pages. */
  predicate Straddles(s: set<Alarm>, rule: Rule, m: Alarm) {
    |Later(s, rule, m)| / BATCH != (|Later(s, rule, m)| + |Tied(s, rule, m)|) / BATCH
  }

  ghost predicate NoneStraddles(s: set<Alarm>, rule: Rule) {
    forall m :: m in s && m.rule == rule ==> !Straddles(s, rule, m)
  }

  ghost predicate Free(s: set<Alarm>, rule: Rule) {
    forall a :: a in s ==> a.rule != rule
  }

  /** Closing alarms of the rule does not change the counts. */
  lemma ClosingKeepsCounts(s: set<Alarm>, rule: Rule, hits: set<Alarm>, m: Alarm)
    requires forall a :: a in hits ==> a.rule == rule
    ensures Later(s - hits, rule, m) == Later(s, rule, m) && Tied(s - hits, rule, m) == Tied(s, rule, m)
  {
  }

  lemma {:induction false} LeftIsOld(s: set<Alarm>, offset: nat, rule: Rule, lists: seq<seq<Alarm>>, left: set<Alarm>)
    requires Ends(s, offset, rule, lists, left)
    ensures left <= s
    decreases |lists|
  {
    hide Lists;
    var page := Page(lists[0], offset, BATCH);
    if page != [] {
      if Hits(page, rule) == {} {
        LeftIsOld(s, offset + |page|, rule, lists[1..], left);
      } else {
        LeftIsOld(s - Hits(page, rule), 0, rule, lists[1..], left);
      }
    }
  }

  ghost predicate IsLatest(s: set<Alarm>, rule: Rule, m: Alarm) {
    m in s && m.rule == rule && forall a :: a in s && a.rule == rule ==> a.lastTriggeredAt <= m.lastTriggeredAt
  }

  lemma LatestExists(s: set<Alarm>, rule: Rule) returns (m: Alarm)
    requires !Free(s, rule)
    ensures IsLatest(s, rule, m)
  {
    var own := set a | a in s && a.rule == rule;
    var one :| one in s && one.rule == rule;
    assert one in own;
    m := SmallestOf(own, Age);
    forall a | a in s && a.rule == rule
      ensures a.lastTriggeredAt <= m.lastTriggeredAt
    {
      assert a in own && Age(m) <= Age(a);
    }
  }

  /** Rows no earlier than `m` of other rules, and `m` itself: the first places of any listing are theirs. */
  lemma FirstPlaces(s: set<Alarm>, rule: Rule, m: Alarm, a: seq<Alarm>)
    requires m in s && m.rule == rule && Lists(a, s)
    ensures |a| > |Later(s, rule, m)| + |Tied(s, rule, m)|
    ensures forall i :: 0 <= i <= |Later(s, rule, m)| + |Tied(s, rule, m)| ==> a[i].lastTriggeredAt >= m.lastTriggeredAt
  {
    var n := |Later(s, rule, m)| + |Tied(s, rule, m)|;
    var top := Later(s, rule, m) + Tied(s, rule, m) + {m};
    assert |top| == n + 1;
    SubsetSize(top, s);
    ArrangedMembers(a, s, Age);
    forall i | 0 <= i <= n
      ensures a[i].lastTriggeredAt >= m.lastTriggeredAt
    {
      if a[i].lastTriggeredAt < m.lastTriggeredAt {
        SmallerComeBefore(a, s, Age, i, top);
        assert false;
      }
    }
  }

  /** In every listing some alarm of the rule stands between the first and the last place its latest one can have among
      the other alarms. */
  lemma LatestIsHit(s: set<Alarm>, rule: Rule, m: Alarm, a: seq<Alarm>) returns (q: nat)
    requires IsLatest(s, rule, m) && Lists(a, s)
    ensures |Later(s, rule, m)| <= q <= |Later(s, rule, m)| + |Tied(s, rule, m)| && q < |a| && a[q].rule == rule
  {
    var n := |Later(s, rule, m)| + |Tied(s, rule, m)|;
    FirstPlaces(s, rule, m, a);
    ArrangedMembers(a, s, Age);
    FrontSize(a, n + 1);
    if forall i :: 0 <= i <= n ==> a[i].rule != rule {
      var others := Later(s, rule, m) + Tied(s, rule, m);
      forall x | x in Front(a, n + 1)
        ensures x in others
      {
        var i :| 0 <= i <= n && a[i] == x;
      }
      SubsetSize(Front(a, n + 1), others);
      assert false;
    }
    q :| 0 <= q <= n && a[q].rule == rule;
    SmallerComeBefore(a, s, Age, q, Later(s, rule, m));
  }

  /** The pass has not gone beyond the page on which the latest alarm of the rule begins. */
  ghost predicate NotPassed(s: set<Alarm>, rule: Rule, page: nat) {
    forall m :: IsLatest(s, rule, m) ==> page <= |Later(s, rule, m)| / BATCH
  }

  lemma LatestAgree(s: set<Alarm>, rule: Rule, m: Alarm, n: Alarm)
    requires IsLatest(s, rule, m) && IsLatest(s, rule, n)
    ensures Later(s, rule, m) == Later(s, rule, n)
  {
  }

  /** The page that holds all places the latest alarm can have among the others is not clean. */
  lemma ItsPageIsHit(s: set<Alarm>, rule: Rule, m: Alarm, a: seq<Alarm>, p: nat)
    requires IsLatest(s, rule, m) && !Straddles(s, rule, m) && Lists(a, s)
    requires p <= |Later(s, rule, m)| / BATCH
    ensures Page(a, BATCH * p, BATCH) != []
    ensures Hits(Page(a, BATCH * p, BATCH), rule) == {} ==>
              |Page(a, BATCH * p, BATCH)| == BATCH && p + 1 <= |Later(s, rule, m)| / BATCH
  {
    var l := |Later(s, rule, m)|;
    var q := LatestIsHit(s, rule, m, a);
    var page := Page(a, BATCH * p, BATCH);
    if p == l / BATCH {
      assert BATCH * p <= q < BATCH * p + BATCH;
      assert page[q - BATCH * p] == a[q];
      assert a[q] in Hits(page, rule);
    } else {
      assert BATCH * p + BATCH <= l <= q < |a|;
    }
  }

  /** What the next call of a pass does. */
  lemma NextCall(s: set<Alarm>, offset: nat, rule: Rule, lists: seq<seq<Alarm>>, left: set<Alarm>)
    requires Ends(s, offset, rule, lists, left)
    ensures lists != [] && Lists(lists[0], s)
    ensures
      var page := Page(lists[0], offset, BATCH);
      && (page != [] && Hits(page, rule) == {} ==> Ends(s, offset + |page|, rule, lists[1..], left))
      && (page != [] && Hits(page, rule) != {} ==> Ends(s - Hits(page, rule), 0, rule, lists[1..], left))
  {
  }

  lemma StartIsNotPassed(s: set<Alarm>, rule: Rule)
    ensures NotPassed(s, rule, 0)
  {
  }

  lemma MovesOn(s: set<Alarm>, rule: Rule, m: Alarm, p: nat)
    requires IsLatest(s, rule, m) && p <= |Later(s, rule, m)| / BATCH
    ensures NotPassed(s, rule, p)
  {
    forall n | IsLatest(s, rule, n)
      ensures p <= |Later(s, rule, n)| / BATCH
    {
      LatestAgree(s, rule, m, n);
    }
  }

  lemma IsNotPassed(s: set<Alarm>, rule: Rule, m: Alarm, p: nat)
    requires NotPassed(s, rule, p) && IsLatest(s, rule, m) && NoneStraddles(s, rule)
    ensures p <= |Later(s, rule, m)| / BATCH && !Straddles(s, rule, m)
  {
  }

  lemma {:induction false} PassClosesAll(s: set<Alarm>, p: nat, rule: Rule, lists: seq<seq<Alarm>>, left: set<Alarm>)
    requires Ends(s, BATCH * p, rule, lists, left) && NoneStraddles(s, rule) && NotPassed(s, rule, p)
    ensures Free(left, rule)
    decreases |lists|
  {
    if Free(s, rule) {
      LeftIsOld(s, BATCH * p, rule, lists, left);
    } else {
      var m := LatestExists(s, rule);
      NextCall(s, BATCH * p, rule, lists, left);
      IsNotPassed(s, rule, m, p);
      ItsPageIsHit(s, rule, m, lists[0], p);
      var hits := Hits(Page(lists[0], BATCH * p, BATCH), rule);
      hide Ends, Lists, Straddles, Later, Tied, Page, Hits, NoneStraddles, NotPassed, Free, IsLatest;
      if hits == {} {
        MovesOn(s, rule, m, p + 1);
        PassClosesAll(s, p + 1, rule, lists[1..], left);
      } else {
        HitsAreOfTheRule(Page(lists[0], BATCH * p, BATCH), rule);
        NoneStraddlesAfter(s, rule, hits);
        StartIsNotPassed(s - hits, rule);
        PassClosesAll(s - hits, 0, rule, lists[1..], left);
      }
    }
  }

  lemma HitsAreOfTheRule(page: seq<Alarm>, rule: Rule)
    ensures forall a :: a in Hits(page, rule) <==> a in page && a.rule == rule
  {
  }

  lemma NoneStraddlesAfter(s: set<Alarm>, rule: Rule, hits: set<Alarm>)
    requires NoneStraddles(s, rule) && forall a :: a in hits ==> a.rule == rule
    ensures NoneStraddles(s - hits, rule)
  {
    forall m | m in s - hits && m.rule == rule
      ensures !Straddles(s - hits, rule, m)
    {
      ClosingKeepsCounts(s, rule, hits, m);
    }
  }

  // ---------- when a pass can miss one ----------

  /** All other alarms with a later time than `m`, and those with the same time too. */
  function Ahead(s: set<Alarm>, m: Alarm): set<Alarm> {
    set a | a in s && a.lastTriggeredAt > m.lastTriggeredAt
  }

  function AheadOrTied(s: set<Alarm>, m: Alarm): set<Alarm> {
    set a | a in s && a != m && a.lastTriggeredAt >= m.lastTriggeredAt
  }

  lemma OthersAreAhead(s: set<Alarm>, rule: Rule, m: Alarm)
    requires m.rule == rule
    ensures |Ahead(s, m)| <= |AheadOrTied(s, m)|
    ensures |Later(s, rule, m)| + |Tied(s, rule, m)| <= |AheadOrTied(s, m)|
  {
    SubsetSize(Ahead(s, m), AheadOrTied(s, m));
    assert Later(s, rule, m) !! Tied(s, rule, m);
    SubsetSize(Later(s, rule, m) + Tied(s, rule, m), AheadOrTied(s, m));
  }

  /** `m` comes as late in the listing as its time allows, or as early. */
  ghost predicate HasLast(late: seq<Alarm>, s: set<Alarm>, m: Alarm) {
    Lists(late, s) && |AheadOrTied(s, m)| < |late| && late[|AheadOrTied(s, m)|] == m
  }

  ghost predicate HasFirst(early: seq<Alarm>, s: set<Alarm>, m: Alarm) {
    Lists(early, s) && |Ahead(s, m)| < |early| && early[|Ahead(s, m)|] == m
  }

  lemma ListLast(s: set<Alarm>, m: Alarm) returns (late: seq<Alarm>)
    requires m in s
    ensures HasLast(late, s, m)
  {
    late := ArrangementAround(s, Age, AheadOrTied(s, m), m);
  }

  lemma ListFirst(s: set<Alarm>, m: Alarm) returns (early: seq<Alarm>)
    requires m in s
    ensures HasFirst(early, s, m)
  {
    early := ArrangementAround(s, Age, Ahead(s, m), m);
  }

  ghost predicate CleanUpTo(late: seq<Alarm>, rule: Rule, n: nat) {
    forall i :: 0 <= i < n && i < |late| ==> late[i].rule != rule
  }

  /** While `m` is held on one page whatever its order among ties, the pages before it are clean in the late listing. */
  ghost predicate Pinned(s: set<Alarm>, rule: Rule, m: Alarm, late: seq<Alarm>, p: nat) {
    |Ahead(s, m)| / BATCH == |AheadOrTied(s, m)| / BATCH && p <= |AheadOrTied(s, m)| / BATCH ==>
      CleanUpTo(late, rule, BATCH * p)
  }

  /** An alarm that straddles is never pinned to the page that comes next: a page before it would have had a hit. */
  lemma NeverPinnedToNext(s: set<Alarm>, rule: Rule, m: Alarm, late: seq<Alarm>, p: nat)
    requires m in s && m.rule == rule && Straddles(s, rule, m) && HasLast(late, s, m) && Pinned(s, rule, m, late, p)
    ensures |AheadOrTied(s, m)| / BATCH != p || |Ahead(s, m)| / BATCH != p
  {
    var n := BATCH * p;
    if |AheadOrTied(s, m)| / BATCH == p == |Ahead(s, m)| / BATCH {
      OthersAreAhead(s, rule, m);
      assert n <= |Ahead(s, m)| < |late|;
      forall x | x in Front(late, n)
        ensures x in Later(s, rule, m)
      {
        var i :| 0 <= i < n && late[i] == x;
        if x.lastTriggeredAt <= m.lastTriggeredAt {
          SmallerComeBefore(late, s, Age, i, Ahead(s, m));
          assert false;
        }
      }
      FrontSize(late, n);
      SubsetSize(Front(late, n), Later(s, rule, m));
      assert false;
    }
  }

  /** A listing that keeps `m` off page `p`; as long as `m` is pinned to a later page it is the late listing. */
  lemma ListOffPage(s: set<Alarm>, rule: Rule, m: Alarm, late: seq<Alarm>, p: nat) returns (a: seq<Alarm>)
    requires m in s && m.rule == rule && Straddles(s, rule, m) && HasLast(late, s, m) && Pinned(s, rule, m, late, p)
    ensures Lists(a, s) && m !in Page(a, BATCH * p, BATCH)
    ensures |AheadOrTied(s, m)| / BATCH != p ==> a == late
  {
    var pos: nat;
    if |AheadOrTied(s, m)| / BATCH != p {
      a, pos := late, |AheadOrTied(s, m)|;
    } else {
      NeverPinnedToNext(s, rule, m, late, p);
      a := ListFirst(s, m);
      pos := |Ahead(s, m)|;
    }
    NotOnPage(a, pos, p);
  }

  lemma NotOnPage(a: seq<Alarm>, pos: nat, p: nat)
    requires Distinct(a) && pos < |a| && pos / BATCH != p
    ensures a[pos] !in Page(a, BATCH * p, BATCH)
  {
    var page := Page(a, BATCH * p, BATCH);
    forall k | 0 <= k < |page|
      ensures page[k] != a[pos]
    {
      assert page[k] == a[BATCH * p + k] && (BATCH * p + k) / BATCH == p;
    }
  }

  lemma StaysPinned(s: set<Alarm>, rule: Rule, m: Alarm, late: seq<Alarm>, p: nat, a: seq<Alarm>)
    requires Pinned(s, rule, m, late, p) && (|AheadOrTied(s, m)| / BATCH != p ==> a == late)
    requires Hits(Page(a, BATCH * p, BATCH), rule) == {} && |Page(a, BATCH * p, BATCH)| == BATCH
    ensures Pinned(s, rule, m, late, p + 1)
  {
    if |AheadOrTied(s, m)| / BATCH >= p + 1 && |Ahead(s, m)| / BATCH == |AheadOrTied(s, m)| / BATCH {
      forall i | 0 <= i < BATCH * (p + 1) && i < |late|
        ensures late[i].rule != rule
      {
        if i >= BATCH * p {
          assert late[i] == Page(a, BATCH * p, BATCH)[i - BATCH * p];
          assert late[i] !in Hits(Page(a, BATCH * p, BATCH), rule);
        }
      }
    }
  }

  lemma OneMoreCall(
    s: set<Alarm>, offset: nat, rule: Rule, a: seq<Alarm>, lists: seq<seq<Alarm>>, left: set<Alarm>)
    requires Lists(a, s) && Page(a, offset, BATCH) != []
    requires
      var page := Page(a, offset, BATCH);
      if Hits(page, rule) == {} then Ends(s, offset + |page|, rule, lists, left)
      else Ends(s - Hits(page, rule), 0, rule, lists, left)
    ensures Ends(s, offset, rule, [a] + lists, left)
  {
    assert ([a] + lists)[1..] == lists;
  }

  lemma LastCall(s: set<Alarm>, offset: nat, rule: Rule, a: seq<Alarm>)
    requires Lists(a, s) && offset >= |a|
    ensures Ends(s, offset, rule, [a], s)
  {
  }

  lemma PageSize(a: seq<Alarm>, offset: nat)
    ensures offset < |a| ==>
              |Page(a, offset, BATCH)| == (if offset + BATCH <= |a| then BATCH else |a| - offset)
    ensures offset >= |a| ==> Page(a, offset, BATCH) == []
  {
  }

  /** An alarm that straddles can escape: a pass from page `p` on that ends with it left. */
  lemma {:induction false} Escapes(s: set<Alarm>, p: nat, rule: Rule, m: Alarm, late: seq<Alarm>)
    returns (lists: seq<seq<Alarm>>, left: set<Alarm>)
    requires m in s && m.rule == rule && Straddles(s, rule, m)
    requires HasLast(late, s, m) && Pinned(s, rule, m, late, p) && BATCH * p <= |s|
    ensures Ends(s, BATCH * p, rule, lists, left) && m in left
    decreases |s|, |s| - BATCH * p
  {
    var a := ListOffPage(s, rule, m, late, p);
    var offset := BATCH * p;
    var page := Page(a, offset, BATCH);
    var hits := Hits(page, rule);
    ArrangedMembers(a, s, Age);
    HitsAreOfTheRule(page, rule);
    PageSize(a, offset);
    PageMembers(a, offset);
    if page == [] {
      LastCall(s, offset, rule, a);
      lists, left := [a], s;
    } else if hits != {} {
      var next := s - hits;
      ClosingKeepsCounts(s, rule, hits, m);
      FewerAre(s, hits);
      var again := ListLast(next, m);
      lists, left := Escapes(next, 0, rule, m, again);
      OneMoreCall(s, offset, rule, a, lists, left);
      lists := [a] + lists;
    } else if |page| == BATCH {
      StaysPinned(s, rule, m, late, p, a);
      lists, left := Escapes(s, p + 1, rule, m, late);
      OneMoreCall(s, offset, rule, a, lists, left);
      lists := [a] + lists;
    } else {
      LastCall(s, offset + |page|, rule, a);
      OneMoreCall(s, offset, rule, a, [a], s);
      lists, left := [a] + [a], s;
    }
  }

  lemma PageMembers(a: seq<Alarm>, offset: nat)
    ensures forall x :: x in Page(a, offset, BATCH) ==> x in a
  {
  }

  lemma FewerAre(s: set<Alarm>, hits: set<Alarm>)
    requires hits != {} && hits <= s
    ensures |s - hits| < |s|
  {
    assert s == s - hits + hits;
  }

  lemma StartsPinned(s: set<Alarm>, rule: Rule, m: Alarm, late: seq<Alarm>)
    ensures Pinned(s, rule, m, late, 0)
  {
  }

  /** Whatever order the calls find ties in, a pass that succeeds leaves no alarm of the rule, if and only if none of them
      can be on two pages among the alarms of other rules. */
  lemma PassClosesAllExactlyWhen(s: set<Alarm>, rule: Rule)
    ensures (forall left :: Passes(s, rule, left) ==> Free(left, rule)) <==> NoneStraddles(s, rule)
  {
    if NoneStraddles(s, rule) {
      forall left | Passes(s, rule, left)
        ensures Free(left, rule)
      {
        var lists :| Ends(s, 0, rule, lists, left);
        StartIsNotPassed(s, rule);
        PassClosesAll(s, 0, rule, lists, left);
      }
    }
    if m :| m in s && m.rule == rule && Straddles(s, rule, m) {
      var late := ListLast(s, m);
      StartsPinned(s, rule, m, late);
      var lists, left := Escapes(s, 0, rule, m, late);
      assert Passes(s, rule, left) && !Free(left, rule);
    }
  }

  /** The smallest case: one alarm of the rule among 1000 others of the same time survives a pass that succeeds. */
  lemma EqualTimesHideAnAlarm(m: Alarm, others: set<Alarm>, rule: Rule) returns (lists: seq<seq<Alarm>>)
    requires m.rule == rule && |others| == BATCH
    requires forall a :: a in others ==> a.rule != rule && a.lastTriggeredAt == m.lastTriggeredAt
    ensures Ends(others + {m}, 0, rule, lists, others + {m}) && |lists| == 3
  {
    var s := others + {m};
    assert AheadOrTied(s, m) == others && Ahead(s, m) == {} && |s| == BATCH + 1;
    var late := ListLast(s, m);
    var early := ListFirst(s, m);
    CleanWithout(s, rule, m, late, BATCH, 0);
    CleanWithout(s, rule, m, early, 0, 1);
    LastCall(s, BATCH + 1, rule, early);
    OneMoreCall(s, BATCH, rule, early, [early], s);
    lists := [early] + [early];
    OneMoreCall(s, 0, rule, late, lists, s);
    lists := [late] + lists;
  }

  lemma CleanWithout(s: set<Alarm>, rule: Rule, m: Alarm, a: seq<Alarm>, pos: nat, p: nat)
    requires Lists(a, s) && pos < |a| && a[pos] == m && pos / BATCH != p
    requires |s| == BATCH + 1 && p <= 1 && forall x :: x in s && x.rule == rule ==> x == m
    ensures |a| == BATCH + 1 && Hits(Page(a, BATCH * p, BATCH), rule) == {}
    ensures |Page(a, BATCH * p, BATCH)| == if p == 0 then BATCH else 1
  {
    ArrangedMembers(a, s, Age);
    NotOnPage(a, pos, p);
    PageMembers(a, BATCH * p);
    PageSize(a, BATCH * p);
  }
}
