/** The request limiter of internal/onboarding/service.go: a fixed window per key in a table of bounded size. Times are
    nanoseconds of the monotonic clock that `time.Now` reads. */
module RateLimit {
  type Key = string

  const SECOND: nat := 1_000_000_000
  const MINUTE: nat := 60 * SECOND
  const BURST: nat := 20
  const TABLE: nat := 10000

  datatype Bucket = Bucket(at: nat, count: nat)

  type Rates = map<Key, Bucket>

  /** The bucket a request counts in: a new one unless the last is younger than a second. */
  function Current(rates: Rates, key: Key, now: nat): Bucket {
    if key in rates && now - rates[key].at < SECOND then rates[key] else Bucket(now, 0)
  }

  function Evicted(rates: Rates, now: nat): Rates {
    map k | k in rates && now - rates[k].at <= MINUTE :: rates[k]
  }

  function Allowed(rates: Rates, key: Key, now: nat): (Rates, bool) {
    var b := Current(rates, key, now);
    if b.count >= BURST then (rates, false)
    else
      var kept := if |rates| >= TABLE then Evicted(rates, now) else rates;
      if key !in kept && |kept| >= TABLE then (kept, false)
      else (kept[key := b.(count := b.count + 1)], true)
  }

  class Service {
    var rates: Rates

    constructor ()
      ensures rates == map[]
    {
      rates := map[];
    }

    method Allow(key: Key, now: nat) returns (ok: bool)
      modifies this
      ensures (rates, ok) == Allowed(old(rates), key, now)
    {
      var b := if key in rates then rates[key] else Bucket(now, 0);
      if key !in rates || now - b.at >= SECOND {
        b := Bucket(now, 0);
      }
      if b.count >= 20 {
        return false;
      }
      if |rates| >= 10000 {
        Evict(now);
        if key !in rates && |rates| >= 10000 {
          return false;
        }
      }
      b := b.(count := b.count + 1);
      rates := rates[key := b];
      return true;
    }

    method Evict(now: nat)
      modifies this
      ensures rates == Evicted(old(rates), now)
    {
      var keys := rates.Keys;
      while keys != {}
        invariant keys <= old(rates).Keys
        invariant forall k :: k in rates ==> k in old(rates) && rates[k] == old(rates)[k]
        invariant forall k :: k in old(rates) ==> (k in rates <==> k in keys || now - old(rates)[k].at <= MINUTE)
        decreases keys
      {
        var k :| k in keys;
        if now - rates[k].at > MINUTE {
          rates := rates - {k};
        }
        keys := keys - {k};
      }
    }
  }

  // ---------- runs ----------

  datatype Request = Request(key: Key, now: nat)

  /** An accepted request and the start of the window that it counted in. */
  datatype Accept = Accept(at: nat, window: nat)

  datatype State = State(rates: Rates, accepted: map<Key, seq<Accept>>)

  function Of(s: State, key: Key): seq<Accept> {
    if key in s.accepted then s.accepted[key] else []
  }

  function After(run: seq<Request>): State {
    if run == [] then State(map[], map[])
    else
      var s, r := After(run[..|run| - 1]), run[|run| - 1];
      var (rates, ok) := Allowed(s.rates, r.key, r.now);
      State(rates,
            if ok then s.accepted[r.key := Of(s, r.key) + [Accept(r.now, Current(s.rates, r.key, r.now).at)]]
            else s.accepted)
  }

  ghost predicate Monotone(run: seq<Request>) {
    forall i, j :: 0 <= i < j < |run| ==> run[i].now <= run[j].now
  }

  // ---------- the invariant ----------

  /** A window starts with a request accepted at that moment. */
  ghost predicate Opened(log: seq<Accept>, i: nat)
    requires i < |log|
  {
    exists j :: 0 <= j <= i && log[j].at == log[j].window == log[i].window
  }

  /** Windows last a second and take at most 20 requests: the 20th after a request is in a later window. */
  ghost predicate Windowed(log: seq<Accept>, now: nat) {
    && (forall i :: 0 <= i < |log| ==> log[i].window <= log[i].at < log[i].window + SECOND && log[i].at <= now)
    && (forall i, j :: 0 <= i <= j < |log| ==> log[i].window <= log[j].window)
    && (forall i :: 0 <= i < |log| ==> Opened(log, i))
    && (forall i :: 0 <= i && i + BURST < |log| ==> log[i].window + SECOND <= log[i + BURST].window)
  }

  /** The bucket of a key counts the last requests of its log, and all before them are in windows that are over. */
  ghost predicate BucketSane(log: seq<Accept>, b: Bucket) {
    && 0 < b.count <= BURST && b.count <= |log|
    && (forall i :: |log| - b.count <= i < |log| ==> log[i].window == b.at)
    && (forall i :: 0 <= i < |log| - b.count ==> log[i].window + SECOND <= b.at)
  }

  /** Without a bucket every window is over. */
  ghost predicate Over(log: seq<Accept>, now: nat) {
    forall i :: 0 <= i < |log| ==> log[i].window + SECOND <= now
  }

  ghost predicate KeySane(s: State, key: Key, now: nat) {
    && Windowed(Of(s, key), now)
    && (if key in s.rates then BucketSane(Of(s, key), s.rates[key]) && s.rates[key].at <= now else Over(Of(s, key), now))
  }

  lemma LogGrows(log: seq<Accept>, b: Bucket, was: nat, now: nat)
    requires Windowed(log, was) && was <= now && b.at <= now < b.at + SECOND && b.count < BURST
    requires b.count > 0 ==> BucketSane(log, b)
    requires b.count == 0 ==> Over(log, b.at) && b.at == now
    ensures Windowed(log + [Accept(now, b.at)], now)
    ensures BucketSane(log + [Accept(now, b.at)], b.(count := b.count + 1))
  {
    var more := log + [Accept(now, b.at)];
    var i := |log| - BURST;
    if 0 <= i {
      assert log[i].window + SECOND <= b.at;
    }
    forall k | 0 <= k < |more|
      ensures Opened(more, k)
    {
      if k < |log| || b.count > 0 {
        var m := if k < |log| then k else k - 1;
        assert Opened(log, m);
        var j :| 0 <= j <= m && log[j].at == log[j].window == log[m].window;
        assert more[j] == log[j];
      } else {
        assert more[k].at == more[k].window;
      }
    }
  }

  lemma BucketEnds(log: seq<Accept>, b: Bucket, now: nat)
    requires BucketSane(log, b) && b.at + SECOND <= now
    ensures Over(log, now)
  {
  }

  lemma TimePasses(s: State, key: Key, was: nat, now: nat)
    requires KeySane(s, key, was) && was <= now
    ensures KeySane(s, key, now)
  {
  }

  /** A request of `key` itself keeps its log and bucket in step. */
  lemma OwnRequest(s: State, t: State, key: Key, was: nat, now: nat)
    requires KeySane(s, key, was) && was <= now
    requires
      var (rates, ok) := Allowed(s.rates, key, now);
      && t.rates == rates
      && Of(t, key) == Of(s, key) + if ok then [Accept(now, Current(s.rates, key, now).at)] else []
    ensures KeySane(t, key, now)
  {
    hide Windowed, BucketSane, Over;
    var log, b := Of(s, key), Current(s.rates, key, now);
    TimePasses(s, key, was, now);
    if key in s.rates {
      BucketCounts(log, s.rates[key]);
      if s.rates[key].at + SECOND <= now {
        BucketEnds(log, s.rates[key], now);
      }
    }
    if b.count < BURST {
      LogGrows(log, b, was, now);
    }
    assert Allowed(s.rates, key, now).1 || Of(t, key) == log;
  }

  lemma BucketCounts(log: seq<Accept>, b: Bucket)
    requires BucketSane(log, b)
    ensures b.count > 0
  {
  }

  /** A request of another key leaves the log alone, and evicts the bucket only when its window is over. */
  lemma OtherRequest(s: State, t: State, key: Key, other: Key, was: nat, now: nat)
    requires KeySane(s, key, was) && was <= now && key != other
    requires t.rates == Allowed(s.rates, other, now).0 && Of(t, key) == Of(s, key)
    ensures KeySane(t, key, now)
  {
  }

  lemma {:induction false} RunKeepsSane(run: seq<Request>, key: Key)
    requires Monotone(run)
    ensures KeySane(After(run), key, if run == [] then 0 else run[|run| - 1].now)
    decreases |run|
  {
    if run == [] {
    } else {
      var shorter, r := run[..|run| - 1], run[|run| - 1];
      RunKeepsSane(shorter, key);
      var was := if shorter == [] then 0 else shorter[|shorter| - 1].now;
      assert was <= r.now;
      hide KeySane, Allowed, Current;
      if r.key == key {
        OwnRequest(After(shorter), After(run), key, was, r.now);
      } else {
        OtherRequest(After(shorter), After(run), key, r.key, was, r.now);
      }
    }
  }

  // ---------- the bounds ----------

  /** Twenty requests later is a window later, and so on. */
  lemma {:induction false} WindowsAdvance(log: seq<Accept>, now: nat, p: nat, k: nat)
    requires Windowed(log, now) && p + BURST * k < |log|
    ensures log[p].window + SECOND * k <= log[p + BURST * k].window
    decreases k
  {
    if k > 0 {
      WindowsAdvance(log, now, p, k - 1);
    }
  }

  /** The accepted requests with `from <= at < from + k` seconds. */
  function Within(log: seq<Accept>, from: nat, k: nat): set<nat> {
    set i: nat | 0 <= i < |log| && from <= log[i].at < from + SECOND * k
  }

  lemma {:induction false} SpreadBoundsSize(s: set<nat>, low: nat, n: nat)
    requires forall i :: i in s ==> low <= i < low + n
    ensures |s| <= n
    decreases n
  {
    if n == 0 {
      assert s == {};
    } else {
      var last := low + n - 1;
      SpreadBoundsSize(s - {last}, low, n - 1);
      if last in s {
        assert |s| == |s - {last}| + 1;
      } else {
        assert s - {last} == s;
      }
    }
  }

  lemma {:induction false} LowestOf(s: set<nat>) returns (m: nat)
    requires s != {}
    ensures m in s && forall i :: i in s ==> m <= i
  {
    m :| m in s;
    if s != {m} {
      var one := m;
      var n := LowestOf(s - {one});
      assert forall i :: i in s ==> i == one || i in s - {one};
      m := if n < one then n else one;
    }
  }

  lemma FarMeansLater(log: seq<Accept>, now: nat, p: nat, k: nat, q: nat)
    requires Windowed(log, now) && p + BURST * k <= q < |log|
    ensures log[p].window + SECOND * k <= log[q].window
  {
    WindowsAdvance(log, now, p, k);
  }

  /** From the first accepted request of an interval to the last are fewer than 20 (k + 1): either that request opened
      its window, or the one that did lies before the interval. */
  lemma WithinIsNarrow(log: seq<Accept>, now: nat, from: nat, k: nat, p: nat, q: nat)
    requires Windowed(log, now) && p in Within(log, from, k) && q in Within(log, from, k)
    requires forall i :: i in Within(log, from, k) ==> p <= i
    ensures q + 1 < p + BURST * (k + 1)
  {
    assert Opened(log, p);
    var o: nat :| o <= p && log[o].at == log[o].window == log[p].window;
    var start, seconds := o, k + 1;
    if from <= log[o].at {
      assert o in Within(log, from, k);
      seconds := k;
    }
    if q >= start + BURST * seconds {
      FarMeansLater(log, now, start, seconds, q);
    }
  }

  /** In every run on a monotone clock, every `k` whole seconds hold fewer than 20 (k + 1) accepted requests of a key,
      evictions from the table included. */
  lemma AcceptsAreBounded(run: seq<Request>, key: Key, from: nat, k: nat)
    requires Monotone(run)
    ensures |Within(Of(After(run), key), from, k)| < BURST * (k + 1)
  {
    RunKeepsSane(run, key);
    var log := Of(After(run), key);
    var now := if run == [] then 0 else run[|run| - 1].now;
    var s := Within(log, from, k);
    if s != {} {
      var p := LowestOf(s);
      forall q | q in s
        ensures p <= q < p + BURST * (k + 1) - 1
      {
        WithinIsNarrow(log, now, from, k, p, q);
      }
      SpreadBoundsSize(s, p, BURST * (k + 1) - 1);
    }
  }

  /** With room in the table a request is refused only if the key had its last 20 requests accepted within the last
      second, in one window. */
  lemma RefusalIsJustified(run: seq<Request>, key: Key, now: nat)
    requires Monotone(run + [Request(key, now)]) && |After(run).rates| < TABLE
    requires !Allowed(After(run).rates, key, now).1
    ensures
      var log := Of(After(run), key);
      && |log| >= BURST
      && forall i :: |log| - BURST <= i < |log| ==> now - SECOND < log[i].at && log[i].window == log[|log| - 1].window
  {
    assert forall i :: 0 <= i < |run| ==> (run + [Request(key, now)])[i] == run[i];
    RunKeepsSane(run, key);
  }

  /** The buckets that a full table keeps: those at most a minute old. */
  function Recent(rates: Rates, now: nat): set<Key> {
    set k | k in rates && now - rates[k].at <= 60_000_000_000
  }

  predicate SpentWindow(rates: Rates, key: Key, now: nat) {
    key in rates && now - rates[key].at < 1_000_000_000 && rates[key].count >= 20
  }

  /** A request is refused exactly if its key has spent the current window, or has no recent bucket while 10000 or more
      keys have one. Otherwise it counts in its window, or opens one, and no recent bucket is lost. */
  lemma RefusedExactlyWhen(rates: Rates, key: Key, now: nat)
    ensures
      var (after, ok) := Allowed(rates, key, now);
      && (!ok <==> SpentWindow(rates, key, now) || (key !in Recent(rates, now) && |Recent(rates, now)| >= 10_000))
      && (forall k :: k in Recent(rates, now) && k != key ==> k in after && after[k] == rates[k])
      && (ok ==>
            && key in after
            && after[key] == (if key in rates && now - rates[key].at < 1_000_000_000
                              then Bucket(rates[key].at, rates[key].count + 1) else Bucket(now, 1)))
  {
    EvictedIsSmaller(rates, now);
    assert Evicted(rates, now).Keys == Recent(rates, now);
  }

  /** The table never holds more than 10000 buckets. */
  lemma {:induction false} TableIsBounded(run: seq<Request>)
    ensures |After(run).rates| <= TABLE
  {
    if run == [] {
    } else {
      var s, r := After(run[..|run| - 1]), run[|run| - 1];
      TableIsBounded(run[..|run| - 1]);
      EvictedIsSmaller(s.rates, r.now);
    }
  }

  lemma EvictedIsSmaller(rates: Rates, now: nat)
    ensures |Evicted(rates, now)| <= |rates|
  {
    var kept := Evicted(rates, now).Keys;
    assert rates.Keys == kept + (rates.Keys - kept);
  }
}
