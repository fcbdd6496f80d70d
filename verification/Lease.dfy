/** Execution leases: internal/protocolruntime/coordinator.go against the lease table of the repository
    (internal/adapters/postgres/execution.go, internal/adapters/memory/execution.go).

    Any number of nodes compete for one resource. A database call takes effect at some moment between its start and its
    return, or not at all, and its reply may be lost. Time is in milliseconds on one clock. */
module Lease {
  import opened Common

  type Node = nat
  type Time = int

  const TTL: int := 10_000
  const LOCAL_DEADLINE: int := 8_000
  const TOUCH_LIMIT: int := 3_000
  const RENEW_TIMEOUT: int := 1_000

  // ---------- the lease table ----------

  datatype Row = Row(owner: Node, token: int, expiresAt: Time)

  predicate Free(row: Option<Row>, now: Time) {
    row.None? || row.value.expiresAt <= now
  }

  /** Granted if free or already owned; the token grows when an expired lease is taken. */
  function Acquired(row: Option<Row>, n: Node, now: Time): Option<Row> {
    if !Free(row, now) && row.value.owner != n then None
    else
      var token := if row.None? then 1 else if Free(row, now) then row.value.token + 1 else row.value.token;
      Some(Row(n, token, now + TTL))
  }

  /** A release with a stale owner or token does nothing. */
  function Released(row: Option<Row>, n: Node, token: int): Option<Row> {
    if row.Some? && row.value.owner == n && row.value.token == token then Some(row.value.(expiresAt := 0)) else row
  }

  // ---------- one node ----------

  /** `heldExecution`: `live` until the session context is cancelled; the timer was last armed at `armedAt`. */
  datatype Held = Held(token: int, deadline: Time, armedAt: Time, touched: Time, live: bool)

  datatype Reply = Granted(token: int) | Denied | Failed

  /** What `Claim` leaves when its database call, started at `start`, is answered at `end`. */
  function ClaimAnswered(held: Option<Held>, reply: Reply, start: Time, end: Time): Option<Held> {
    match reply
    case Granted(token) => Some(Held(token, start + LOCAL_DEADLINE, end, start, true))
    case _ => held
  }

  /** What `Run` leaves when its renewal is answered: a changed token counts as a loss. */
  function RenewAnswered(h: Held, reply: Reply, start: Time, end: Time): Option<Held> {
    if reply == Granted(h.token) then Some(h.(deadline := start + LOCAL_DEADLINE, armedAt := end)) else None
  }

  predicate MustGo(h: Held, now: Time) {
    now - h.touched > TOUCH_LIMIT || !h.live
  }

  type Key = string

  /** The calls a tick of `Run` makes for a key: when each started and ended, and the reply. */
  datatype Call = Call(start: Time, end: Time, reply: Reply)

  function Ticked(h: Held, now: Time, call: Call): Option<Held> {
    if MustGo(h, now) then None else RenewAnswered(h, call.reply, call.start, call.end)
  }

  /** A session goes on exactly if it is live, was touched lately, and the database granted its own token again; then only
      the deadline and the timer move. */
  lemma TickedExactly(h: Held, now: Time, call: Call)
    ensures
      Ticked(h, now, call) ==
      if h.live && now - h.touched <= TOUCH_LIMIT && call.reply == Granted(h.token) then
        Some(h.(deadline := call.start + LOCAL_DEADLINE, armedAt := call.end))
      else None
  {
  }

  /** The coordinator's own state; cancelling a session is `live := false`. */
  class Coordinator {
    var held: map<Key, Held>

    constructor ()
      ensures held == map[]
    {
      held := map[];
    }

    /** A live session is only touched; otherwise the database decides. */
    method Claim(k: Key, start: Time, reply: Reply, end: Time) returns (owned: bool)
      modifies this
      ensures owned <==> (k in held && held[k].live)
      ensures held - {k} == old(held) - {k}
      ensures k in old(held) && old(held)[k].live ==> k in held && held[k] == old(held)[k].(touched := start)
      ensures !(k in old(held) && old(held)[k].live) ==>
        Lookup(held, k) == ClaimAnswered(Lookup(old(held), k), reply, start, end)
      ensures
        !(k in old(held) && old(held)[k].live) ==>
        match reply
        case Granted(token) => k in held && held[k] == Held(token, start + LOCAL_DEADLINE, end, start, true)
        case _ => held == old(held) && !owned
    {
      if k in held && held[k].live {
        held := held[k := held[k].(touched := start)];
        return true;
      }
      match reply {
        case Granted(token) =>
          held := held[k := Held(token, start + LOCAL_DEADLINE, end, start, true)];
          return true;
        case Denied =>
          return false;
        case Failed =>
          return false;
      }
    }

    /** One tick of `Run`: every key is released or renewed. `released` lists the tokens handed back to the database; a
        lease that is lost or not renewed is not among them. */
    method Tick(now: map<Key, Time>, calls: map<Key, Call>) returns (released: map<Key, int>)
      requires held.Keys <= now.Keys && held.Keys <= calls.Keys
      modifies this
      ensures held.Keys <= old(held).Keys
      ensures forall k :: k in old(held) ==> Lookup(held, k) == Ticked(old(held)[k], now[k], calls[k])
      ensures
        forall k :: k in held <==>
          k in old(held) && old(held)[k].live && now[k] - old(held)[k].touched <= TOUCH_LIMIT
          && calls[k].reply == Granted(old(held)[k].token)
      ensures
        forall k :: k in held ==>
          held[k] == old(held)[k].(deadline := calls[k].start + LOCAL_DEADLINE, armedAt := calls[k].end)
      ensures
        forall k :: k in released <==>
          k in old(held) && !(old(held)[k].live && now[k] - old(held)[k].touched <= TOUCH_LIMIT)
      ensures forall k :: k in released ==> released[k] == old(held)[k].token
    {
      hide Ticked;
      forall k | k in held {
        TickedExactly(held[k], now[k], calls[k]);
      }
      released := map[];
      var todo := held.Keys;
      while todo != {}
        invariant todo <= held.Keys <= old(held).Keys
        invariant forall k :: k in todo ==> held[k] == old(held)[k]
        invariant forall k :: k in old(held) && k !in todo ==>
          Lookup(held, k) == Ticked(old(held)[k], now[k], calls[k])
        invariant forall k :: k in released <==> k in old(held) && k !in todo && MustGo(old(held)[k], now[k])
        invariant forall k :: k in released ==> released[k] == old(held)[k].token
        decreases todo
      {
        var k :| k in todo;
        todo := todo - {k};
        if MustGo(held[k], now[k]) {
          released := released[k := held[k].token];
          held := held - {k};
        } else if calls[k].reply != Granted(held[k].token) {
          held := held - {k};
        } else {
          held := held[k := held[k].(deadline := calls[k].start + LOCAL_DEADLINE, armedAt := calls[k].end)];
        }
      }
    }

    static function Lookup(m: map<Key, Held>, k: Key): Option<Held> {
      if k in m then Some(m[k]) else None
    }
  }
}
