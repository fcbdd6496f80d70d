/** How the retry loop drains the pending messages: `retryPendingRaw` of internal/core/engine.go, which each tick takes
    the first 200 rows of `ListPendingRawIndexes`. Rows are listed by the time they were archived; rows of one time come
    in any order, and in another one at the next tick. A message may be stuck, because the archive cannot return it or the
    bus never takes it; then its row stays pending. For all others the repository, the archive and the bus work. */
module RetryLoop {
  import opened Listing

  const LIMIT: nat := 200

  /** A pending row, and whether its message can be read from the archive and published. */
  datatype Row = Row(id: nat, archivedAt: int, sendable: bool)

  function When(r: Row): int {
    r.archivedAt
  }

  ghost predicate Lists(rows: seq<Row>, pending: set<Row>) {
    Arranges(rows, pending, When)
  }

  function Listed(rows: seq<Row>): seq<Row> {
    if |rows| <= LIMIT then rows else rows[..LIMIT]
  }

  function Only(rows: seq<Row>, sendable: bool): seq<Row> {
    if rows == [] then []
    else Only(rows[..|rows| - 1], sendable) + if rows[|rows| - 1].sendable == sendable then [rows[|rows| - 1]] else []
  }

  /** One tick over the pending rows as they are listed. */
  method Tick(rows: seq<Row>) returns (published: seq<Row>, left: seq<Row>)
    ensures published == Only(Listed(rows), true)
    ensures left == Only(Listed(rows), false) + rows[|Listed(rows)|..]
    ensures forall r :: r in published <==> r.sendable && r in rows[..if |rows| <= 200 then |rows| else 200]
  {
    OnlyMembers(Listed(rows), true);
    assert |rows| <= 200 ==> rows[..|rows|] == rows;
    published, left := [], [];
    var indexes := Listed(rows);
    for i := 0 to |indexes|
      invariant published == Only(indexes[..i], true) && left == Only(indexes[..i], false)
    {
      assert indexes[..i + 1][..i] == indexes[..i];
      if indexes[i].sendable {
        published := published + [indexes[i]];
      } else {
        left := left + [indexes[i]];
      }
    }
    assert indexes[..|indexes|] == indexes;
    left := left + rows[|indexes|..];
  }

  /** The rows still pending after a tick that listed them as `rows`. */
  function Swept(pending: set<Row>, rows: seq<Row>): set<Row> {
    set r | r in pending && !(r in Listed(rows) && r.sendable)
  }

  lemma {:induction false} OnlyMembers(rows: seq<Row>, sendable: bool)
    ensures forall r :: r in Only(rows, sendable) <==> r in rows && r.sendable == sendable
  {
    if rows == [] {
    } else {
      var shorter := rows[..|rows| - 1];
      OnlyMembers(shorter, sendable);
      assert rows == shorter + [rows[|rows| - 1]];
    }
  }

  /** What a tick leaves is what it has not published. */
  lemma TickSweeps(pending: set<Row>, rows: seq<Row>)
    requires Lists(rows, pending)
    ensures forall r :: r in Swept(pending, rows) <==> r in Only(Listed(rows), false) + rows[|Listed(rows)|..]
    ensures forall r :: r in Only(Listed(rows), true) <==> r in pending && r !in Swept(pending, rows)
  {
    OnlyMembers(Listed(rows), true);
    OnlyMembers(Listed(rows), false);
    var tail := rows[|Listed(rows)|..];
    assert rows == Listed(rows) + tail;
    forall r | r in tail
      ensures r !in Listed(rows)
    {
      var i :| 0 <= i < |tail| && tail[i] == r;
      assert rows[|Listed(rows)| + i] == r;
    }
  }

  /** Ticks that list the pending rows as `lists`, while nothing new arrives; `left` is pending after them. */
  ghost predicate Sweeps(pending: set<Row>, lists: seq<seq<Row>>, left: set<Row>)
    decreases |lists|
  {
    if lists == [] then left == pending
    else Lists(lists[0], pending) && Sweeps(Swept(pending, lists[0]), lists[1..], left)
  }

  // ---------- who stands in the way ----------

  /** The stuck rows archived before `r`, and those archived no later. */
  function Older(pending: set<Row>, r: Row): set<Row> {
    set x | x in pending && !x.sendable && x.archivedAt < r.archivedAt
  }

  function OlderOrTied(pending: set<Row>, r: Row): set<Row> {
    set x | x in pending && !x.sendable && x.archivedAt <= r.archivedAt
  }

  lemma StuckStays(pending: set<Row>, rows: seq<Row>, r: Row)
    ensures Older(Swept(pending, rows), r) == Older(pending, r)
    ensures OlderOrTied(Swept(pending, rows), r) == OlderOrTied(pending, r)
  {
  }

  /** A row that is not listed has 200 rows listed before it; if not all of these are stuck, one is published. */
  lemma TickShrinks(pending: set<Row>, rows: seq<Row>, stuck: set<Row>)
    requires Lists(rows, pending) && |rows| > LIMIT && |stuck| < LIMIT
    requires forall i :: 0 <= i < LIMIT && !rows[i].sendable ==> rows[i] in stuck
    ensures |Swept(pending, rows)| < |pending|
  {
    FrontSize(rows, LIMIT);
    if forall i :: 0 <= i < LIMIT ==> !rows[i].sendable {
      SubsetSize(Front(rows, LIMIT), stuck);
      assert false;
    }
    var i :| 0 <= i < LIMIT && rows[i].sendable;
    assert Listed(rows)[i] == rows[i];
    assert pending == Swept(pending, rows) + (pending - Swept(pending, rows));
    assert rows[i] in pending - Swept(pending, rows);
  }

  // ---------- possibly ----------

  lemma NotListed(pending: set<Row>, rows: seq<Row>, r: Row)
    requires Lists(rows, pending) && |Older(pending, r)| >= LIMIT
    ensures r !in Listed(rows)
  {
    if r in Listed(rows) {
      var i :| 0 <= i < |Listed(rows)| && Listed(rows)[i] == r;
      SmallerComeBefore(rows, pending, When, i, Older(pending, r));
      assert false;
    }
  }

  /** Behind 200 older stuck rows, a row stays pending whatever the order among ties. */
  lemma {:induction false} Starves(pending: set<Row>, r: Row, lists: seq<seq<Row>>, left: set<Row>)
    requires r in pending && |Older(pending, r)| >= LIMIT && Sweeps(pending, lists, left)
    ensures r in left
    decreases |lists|
  {
    hide Lists, Older, OlderOrTied, Listed;
    if lists != [] {
      NotListed(pending, lists[0], r);
      StuckStays(pending, lists[0], r);
      Starves(Swept(pending, lists[0]), r, lists[1..], left);
    }
  }

  /** With fewer, some order among ties gets it published. */
  lemma {:induction false} MayDrain(pending: set<Row>, r: Row) returns (lists: seq<seq<Row>>, left: set<Row>)
    requires r in pending && r.sendable && |Older(pending, r)| < LIMIT
    ensures Sweeps(pending, lists, left) && r !in left
    decreases |pending|
  {
    var before := set x | x in pending && x.archivedAt < r.archivedAt;
    var rows := ArrangementAround(pending, When, before, r);
    var next := Swept(pending, rows);
    if |before| < LIMIT {
      assert Listed(rows)[|before|] == r;
      lists, left := [], next;
    } else {
      FirstAreBefore(rows, before);
      TickShrinks(pending, rows, Older(pending, r));
      if r in next {
        StuckStays(pending, rows, r);
        lists, left := MayDrain(next, r);
      } else {
        lists, left := [], next;
      }
    }
    assert ([rows] + lists)[1..] == lists;
    lists := [rows] + lists;
  }

  lemma FirstAreBefore(rows: seq<Row>, before: set<Row>)
    requires LIMIT <= |before| < |rows| && forall x :: x in rows[..|before|] <==> x in before
    ensures forall i :: 0 <= i < LIMIT ==> rows[i] in before
  {
    forall i | 0 <= i < LIMIT
      ensures rows[i] in before
    {
      assert rows[..|before|][i] == rows[i];
    }
  }

  /** A sendable row can ever be published if and only if fewer than 200 older rows are stuck. */
  lemma CanDrainExactlyWhen(pending: set<Row>, r: Row)
    requires r in pending && r.sendable
    ensures (exists left :: MayLeave(pending, left) && r !in left) <==> |Older(pending, r)| < LIMIT
  {
    if |Older(pending, r)| < LIMIT {
      var lists, left := MayDrain(pending, r);
      assert MayLeave(pending, left);
    } else {
      forall left | MayLeave(pending, left)
        ensures r in left
      {
        var lists :| Sweeps(pending, lists, left);
        Starves(pending, r, lists, left);
      }
    }
  }

  /** What may be pending after some ticks. */
  ghost predicate MayLeave(pending: set<Row>, left: set<Row>) {
    exists lists :: Sweeps(pending, lists, left)
  }

  // ---------- surely ----------

  lemma EarlyIsListed(rows: seq<Row>, k: nat)
    requires k < |rows|
    ensures k < LIMIT ==> rows[k] in Listed(rows)
  {
    if k < LIMIT {
      assert Listed(rows)[k] == rows[k];
    }
  }

  lemma ListedFirst(pending: set<Row>, rows: seq<Row>, r: Row)
    requires Lists(rows, pending) && r in pending && r !in Listed(rows)
    ensures |rows| > LIMIT && forall i :: 0 <= i < LIMIT ==> rows[i].archivedAt <= r.archivedAt
  {
    var k :| 0 <= k < |rows| && rows[k] == r;
    EarlyIsListed(rows, k);
    assert forall i :: 0 <= i < k ==> When(rows[i]) <= When(rows[k]);
  }

  /** With fewer than 200 stuck rows archived no later, as many ticks as there are rows publish it, whatever the
      order among ties. */
  lemma {:induction false} MustDrain(pending: set<Row>, r: Row, lists: seq<seq<Row>>, left: set<Row>)
    requires r in pending && r.sendable && |OlderOrTied(pending, r)| < LIMIT
    requires Sweeps(pending, lists, left) && |lists| >= |pending|
    ensures r !in left
    decreases |lists|
  {
    assert |pending| > 0;
    var rows := lists[0];
    var next := Swept(pending, rows);
    if r in Listed(rows) {
      LeftIsOld(next, lists[1..], left);
    } else {
      ListedFirst(pending, rows, r);
      ArrangedMembers(rows, pending, When);
      TickShrinks(pending, rows, OlderOrTied(pending, r));
      StuckStays(pending, rows, r);
      MustDrain(next, r, lists[1..], left);
    }
  }

  lemma {:induction false} LeftIsOld(pending: set<Row>, lists: seq<seq<Row>>, left: set<Row>)
    requires Sweeps(pending, lists, left)
    ensures left <= pending
    decreases |lists|
  {
    hide Lists, Listed;
    if lists != [] {
      LeftIsOld(Swept(pending, lists[0]), lists[1..], left);
    }
  }

  /** Otherwise it can be kept waiting for any number of ticks. */
  lemma {:induction false} MayStarve(pending: set<Row>, r: Row, n: nat) returns (lists: seq<seq<Row>>, left: set<Row>)
    requires r in pending && r.sendable && |OlderOrTied(pending, r)| >= LIMIT
    ensures Sweeps(pending, lists, left) && |lists| == n && r in left
    decreases n
  {
    if n == 0 {
      lists, left := [], pending;
    } else {
      var before := set x | x in pending && x != r && x.archivedAt <= r.archivedAt;
      SubsetSize(OlderOrTied(pending, r), before);
      var rows := ArrangementAround(pending, When, before, r);
      StandsAt(rows, |before|);
      StuckStays(pending, rows, r);
      lists, left := MayStarve(Swept(pending, rows), r, n - 1);
      assert ([rows] + lists)[1..] == lists;
      lists := [rows] + lists;
    }
  }

  lemma StandsAt(rows: seq<Row>, k: nat)
    requires Distinct(rows) && LIMIT <= k < |rows|
    ensures rows[k] !in Listed(rows)
  {
  }

  ghost predicate GoneAfter(pending: set<Row>, r: Row, n: nat) {
    forall lists, left :: Sweeps(pending, lists, left) && |lists| == n ==> r !in left
  }

  /** A sendable row is published after some number of ticks whatever the order among ties, if and only if fewer than 200
      stuck rows are archived no later. */
  lemma DrainsExactlyWhen(pending: set<Row>, r: Row)
    requires r in pending && r.sendable
    ensures (exists n: nat :: GoneAfter(pending, r, n)) <==> |OlderOrTied(pending, r)| < LIMIT
    ensures |OlderOrTied(pending, r)| < LIMIT ==> GoneAfter(pending, r, |pending|)
  {
    if |OlderOrTied(pending, r)| < LIMIT {
      forall lists, left | Sweeps(pending, lists, left) && |lists| == |pending|
        ensures r !in left
      {
        MustDrain(pending, r, lists, left);
      }
      assert GoneAfter(pending, r, |pending|);
    } else {
      forall n: nat
        ensures !GoneAfter(pending, r, n)
      {
        var lists, left := MayStarve(pending, r, n);
        assert Sweeps(pending, lists, left);
      }
    }
  }
}
