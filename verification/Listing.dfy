/** Listings of a set in the order of a key, where elements with equal keys may come in any order. */
module Listing {

  ghost predicate Distinct<T>(a: seq<T>) {
    forall i, j :: 0 <= i < j < |a| ==> a[i] != a[j]
  }

  ghost predicate Ordered<T>(a: seq<T>, key: T -> int) {
    forall i, j :: 0 <= i < j < |a| ==> key(a[i]) <= key(a[j])
  }

  /** `a` lists each element of `s` once, smaller keys first. */
  ghost predicate Arranges<T(!new)>(a: seq<T>, s: set<T>, key: T -> int) {
    (forall x :: x in a <==> x in s) && Distinct(a) && Ordered(a, key)
  }

  lemma {:induction false} DistinctSize<T>(a: seq<T>, s: set<T>)
    requires forall x :: x in s ==> x in a
    ensures |s| <= |a|
    ensures Distinct(a) && (forall x :: x in a ==> x in s) ==> |s| == |a|
    decreases a
  {
    if a == [] {
      assert s == {};
    } else {
      var rest, last := a[..|a| - 1], a[|a| - 1];
      assert forall x :: x in a ==> x in rest || x == last;
      DistinctSize(rest, s - {last});
      if last in s {
        assert s == s - {last} + {last};
      } else {
        assert s == s - {last};
      }
      if Distinct(a) {
        assert forall x :: x in rest ==> x != last;
      }
    }
  }

  lemma SubsetSize<T>(s: set<T>, t: set<T>)
    requires s <= t
    ensures |s| <= |t|
  {
    assert t == s + (t - s);
  }

  /** The elements with smaller keys than the one at `i` come before it, so there are at most `i` of them. */
  lemma SmallerComeBefore<T(!new)>(a: seq<T>, s: set<T>, key: T -> int, i: nat, t: set<T>)
    requires Arranges(a, s, key) && i < |a| && t <= s && forall x :: x in t ==> key(x) < key(a[i])
    ensures |t| <= i && forall x :: x in t ==> x in a[..i]
  {
    forall x | x in t
      ensures x in a[..i]
    {
      var k :| 0 <= k < |a| && a[k] == x;
    }
    DistinctSize(a[..i], t);
  }

  /** The first `n` elements of a listing, as a set. */
  ghost function Front<T>(a: seq<T>, n: nat): set<T>
    requires n <= |a|
  {
    set x | x in a[..n]
  }

  lemma FrontSize<T>(a: seq<T>, n: nat)
    requires n <= |a| && Distinct(a)
    ensures |Front(a, n)| == n
  {
    DistinctSize(a[..n], Front(a, n));
  }

  // ---------- listings exist ----------

  lemma {:induction false} SmallestOf<T>(s: set<T>, key: T -> int) returns (m: T)
    requires s != {}
    ensures m in s && forall x :: x in s ==> key(m) <= key(x)
    decreases |s|
  {
    m :| m in s;
    var one := m;
    if s != {one} {
      assert s - {one} != {};
      var n := SmallestOf(s - {one}, key);
      assert forall x :: x in s ==> x == one || x in s - {one};
      m := if key(n) < key(one) then n else one;
    }
  }

  lemma ArrangesBoth<T(!new)>(a: seq<T>, s: set<T>, b: seq<T>, t: set<T>, key: T -> int)
    requires Arranges(a, s, key) && Arranges(b, t, key) && s !! t
    requires forall x, y :: x in s && y in t ==> key(x) <= key(y)
    ensures Arranges(a + b, s + t, key)
  {
    var c := a + b;
    assert forall x :: x in c <==> x in a || x in b;
    forall i, j | 0 <= i < j < |c|
      ensures c[i] != c[j] && key(c[i]) <= key(c[j])
    {
      if i < |a| <= j {
        assert c[i] in a && c[j] in b;
      } else if j < |a| {
        assert c[i] == a[i] && c[j] == a[j];
      } else {
        assert c[i] == b[i - |a|] && c[j] == b[j - |a|];
      }
    }
  }

  lemma {:induction false} Arrangement<T(!new)>(s: set<T>, key: T -> int) returns (a: seq<T>)
    ensures Arranges(a, s, key)
    decreases |s|
  {
    if s == {} {
      a := [];
    } else {
      var m := SmallestOf(s, key);
      var rest := Arrangement(s - {m}, key);
      ArrangesBoth([m], {m}, rest, s - {m}, key);
      assert {m} + (s - {m}) == s;
      a := [m] + rest;
    }
  }

  lemma ArrangedMembers<T(!new)>(a: seq<T>, s: set<T>, key: T -> int)
    requires Arranges(a, s, key)
    ensures |a| == |s| && forall x :: x in a <==> x in s
  {
    DistinctSize(a, s);
  }

  lemma ArrangesOne<T(!new)>(m: T, key: T -> int)
    ensures Arranges([m], {m}, key)
  {
  }

  /** A listing may put any element of a set just behind the elements of `before`, if these include all smaller ones and
      none that is larger. */
  lemma ArrangementAround<T(!new)>(s: set<T>, key: T -> int, before: set<T>, m: T) returns (a: seq<T>)
    requires m in s && before <= s - {m}
    requires forall x :: x in before ==> key(x) <= key(m)
    requires forall x :: x in s - before ==> key(m) <= key(x)
    ensures Arranges(a, s, key) && |before| < |a| && a[|before|] == m
    ensures forall x :: x in a[..|before|] <==> x in before
  {
    hide Arranges;
    var front := Arrangement(before, key);
    var back := Arrangement(s - before - {m}, key);
    ArrangedMembers(front, before, key);
    ArrangesOne(m, key);
    ArrangesBoth(front, before, [m], {m}, key);
    ArrangesBoth(front + [m], before + {m}, back, s - before - {m}, key);
    assert before + {m} + (s - before - {m}) == s;
    a := front + [m] + back;
    assert a[..|before|] == front;
  }
}
