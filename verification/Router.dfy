/**
 The router of one node and the gates in front of it. Deliveries and broadcasts are recorded in the
 order in which they are made; the clock is read several times on the way and never goes back.
 */
module Routing {
  import opened Basics
  import opened Messages
  import opened SeenStores
  import opened Signing
  import Limiter
  import SeenRuns

  /** A message handed to the local handler, or broadcast to all peers but one. */
  datatype Event = Event(msg: Message, peer: string)

  /** The checks of `Handle` before the seen cache. */
  predicate Routable(msg: Message, now: int) {
    IsRoutable(msg.typ) && Validate(msg).Some? && Fresh(msg.timestamp, now)
  }

  class Router {
    const seen: SeenStore
    var delivered: seq<Event>
    var flooded: seq<Event>

    ghost predicate Valid()
      reads this, seen, seen.buf
    {
      seen.Valid()
    }

    constructor (ttl: int, max: int)
      ensures Valid() && fresh(seen) && fresh(seen.buf)
      ensures seen.entries == [] && delivered == [] && flooded == []
    {
      seen := new SeenStore(ttl, max);
      delivered, flooded := [], [];
    }

    /**
     Accepts exactly a routable, valid, fresh message whose ID the cache does not hold; remembers it,
     delivers the validated message once, and floods it to everyone but the peer it came from, unless
     it is addressed to one peer. A message that is not accepted changes nothing.
     */
    method Handle(msg: Message, from: string, checked: int, at: int) returns (accepted: bool)
      requires Valid()
      modifies this, seen, seen.buf
      ensures Valid() && (seen.buf == old(seen.buf) || fresh(seen.buf))
      ensures accepted <==> Routable(msg, checked) && !Holds(old(seen.entries), msg.id)
      ensures seen.entries ==
        if Routable(msg, checked) then Added(old(seen.entries), msg.id, at, seen.ttl, seen.max) else old(seen.entries)
      ensures delivered == old(delivered) + (if accepted then [Event(Validate(msg).value, from)] else [])
      ensures flooded == old(flooded) +
        (if accepted && msg.to == "" then [Event(Validate(msg).value, from)] else [])
    {
      if !IsRoutable(msg.typ) {
        return false;
      }
      var valid := Validate(msg);
      if valid.None? || !Fresh(msg.timestamp, checked) {
        return false;
      }
      ValidateKeeps(msg);
      accepted := Accept(valid.value, from, at);
    }

    /** Remember, deliver, flood. */
    method Accept(msg: Message, from: string, at: int) returns (isNew: bool)
      requires Valid()
      modifies this, seen, seen.buf
      ensures Valid() && (seen.buf == old(seen.buf) || fresh(seen.buf))
      ensures isNew <==> !Holds(old(seen.entries), msg.id)
      ensures seen.entries == Added(old(seen.entries), msg.id, at, seen.ttl, seen.max)
      ensures delivered == old(delivered) + (if isNew then [Event(msg, from)] else [])
      ensures flooded == old(flooded) + (if isNew && msg.to == "" then [Event(msg, from)] else [])
    {
      isNew := seen.Add(msg.id, at);
      if !isNew {
        return;
      }
      delivered := delivered + [Event(msg, from)];
      if msg.to == "" {
        flooded := flooded + [Event(msg, from)];
      }
    }

    /** A node's own join messages, resent to one peer, are remembered so that echoes are dropped. */
    method RememberAll(joins: seq<Entry>)
      requires Valid()
      modifies seen, seen.buf
      ensures Valid() && (seen.buf == old(seen.buf) || fresh(seen.buf))
      ensures seen.entries == AddedAll(old(seen.entries), joins, |joins|, seen.ttl, seen.max)
    {
      for i := 0 to |joins|
        invariant Valid() && (seen.buf == old(seen.buf) || fresh(seen.buf))
        invariant seen.entries == AddedAll(old(seen.entries), joins, i, seen.ttl, seen.max)
      {
        var _ := seen.Add(joins[i].id, joins[i].at);
      }
    }
  }

  /** The cache after the first `n` of a batch have been added, each at its own reading of the clock. */
  function AddedAll(es: seq<Entry>, joins: seq<Entry>, n: nat, ttl: int, max: nat): seq<Entry>
    requires 0 < max && n <= |joins|
  {
    if n == 0 then es else Added(AddedAll(es, joins, n - 1, ttl, max), joins[n - 1].id, joins[n - 1].at, ttl, max)
  }

  /** Join `j` has an ID of its own, and none of those before it has expired by then. */
  ghost predicate NewIn(es: seq<Entry>, joins: seq<Entry>, j: nat, ttl: int)
    requires j < |joins|
  {
    && !Holds(es, joins[j].id)
    && forall i :: 0 <= i < j ==> joins[i].id != joins[j].id && joins[i].at >= joins[j].at - ttl
  }

  ghost predicate NewBatch(es: seq<Entry>, joins: seq<Entry>, ttl: int) {
    forall j: nat {:trigger NewIn(es, joins, j, ttl)} :: j < |joins| ==> NewIn(es, joins, j, ttl)
  }

  predicate EndsWith(es: seq<Entry>, last: seq<Entry>) {
    |last| <= |es| && es[|es| - |last|..] == last
  }

  lemma {:induction false} LiveToEnd(es: seq<Entry>, n: nat, k: nat, cutoff: int)
    requires k <= n <= |es| && forall i :: k <= i < |es| ==> es[i].at >= cutoff
    ensures LiveTo(es, n, cutoff) == LiveTo(es, k, cutoff) + es[k..n]
  {
    if k < n {
      LiveToEnd(es, n - 1, k, cutoff);
      assert es[k..n] == es[k..n - 1] + [es[n - 1]];
    }
  }

  lemma LiveEnds(es: seq<Entry>, last: seq<Entry>, cutoff: int)
    requires EndsWith(es, last) && forall i :: 0 <= i < |last| ==> last[i].at >= cutoff
    ensures EndsWith(Live(es, cutoff), last)
  {
    var k := |es| - |last|;
    assert forall i :: k <= i < |es| ==> es[i] == last[i - k];
    LiveToEnd(es, |es|, k, cutoff);
    assert es[k..|es|] == last;
  }

  lemma NewestEnds(es: seq<Entry>, last: seq<Entry>, n: nat)
    requires EndsWith(es, last) && |last| <= n
    ensures EndsWith(KeepNewest(es, n), last) && |KeepNewest(es, n)| <= n
  {
  }

  /** Making room keeps what ends the list, if it is young enough and leaves room itself. */
  lemma RoomEnds(es: seq<Entry>, last: seq<Entry>, now: int, ttl: int, max: nat)
    requires 0 < max && |last| < max && EndsWith(es, last)
    requires forall i :: 0 <= i < |last| ==> last[i].at >= now - ttl
    ensures EndsWith(Room(es, now, ttl, max), last) && |Room(es, now, ttl, max)| < max
  {
    LiveEnds(es, last, now - ttl);
    NewestEnds(Live(es, now - ttl), last, max - 1);
  }

  /** What ends the list is followed by the new ID. */
  lemma AddedEnds(es: seq<Entry>, last: seq<Entry>, e: Entry, ttl: int, max: nat)
    requires 0 < max && |last| < max && EndsWith(es, last) && !Holds(es, e.id)
    requires forall i :: 0 <= i < |last| ==> last[i].at >= e.at - ttl
    ensures var r := Added(es, e.id, e.at, ttl, max); |r| <= max && EndsWith(r, last + [e])
  {
    RoomEnds(es, last, e.at, ttl, max);
    var room := Room(es, e.at, ttl, max);
    assert (room + [e])[|room| - |last|..] == room[|room| - |last|..] + [e];
  }

  /** The last `k` of the first `n` of a batch. */
  function Latest(joins: seq<Entry>, n: nat, k: nat): seq<Entry>
    requires k <= n <= |joins|
  {
    joins[n - k..n]
  }

  lemma LatestShorter(es: seq<Entry>, joins: seq<Entry>, n: nat, k: nat, fewer: nat)
    requires fewer <= k <= n <= |joins| && EndsWith(es, Latest(joins, n, k))
    ensures EndsWith(es, Latest(joins, n, fewer))
  {
    assert es[|es| - fewer..] == es[|es| - k..][k - fewer..];
    assert Latest(joins, n, fewer) == Latest(joins, n, k)[k - fewer..];
  }

  lemma {:induction false} BatchAbsent(es: seq<Entry>, joins: seq<Entry>, n: nat, j: nat, ttl: int, max: nat)
    requires 0 < max && n <= j < |joins| && NewBatch(es, joins, ttl)
    ensures !Holds(AddedAll(es, joins, n, ttl, max), joins[j].id)
  {
    assert NewIn(es, joins, j, ttl);
    if n > 0 {
      BatchAbsent(es, joins, n - 1, j, ttl, max);
      RoomAbsent(AddedAll(es, joins, n - 1, ttl, max), joins[n - 1].at, ttl, max, joins[j].id);
    }
  }

  lemma LatestNext(joins: seq<Entry>, n: nat, k: nat)
    requires k <= n < |joins|
    ensures Latest(joins, n + 1, k + 1) == Latest(joins, n, k) + [joins[n]]
  {
  }

  /** One more of a batch follows the last `k`. */
  lemma BatchMore(r: seq<Entry>, joins: seq<Entry>, n: nat, k: nat, ttl: int, max: nat)
    requires k < max && k <= n < |joins| && !Holds(r, joins[n].id)
    requires forall i :: 0 <= i < n ==> joins[i].at >= joins[n].at - ttl
    requires EndsWith(r, Latest(joins, n, k))
    ensures var r' := Added(r, joins[n].id, joins[n].at, ttl, max);
      |r'| <= max && EndsWith(r', Latest(joins, n + 1, k + 1))
  {
    var last := Latest(joins, n, k);
    assert forall i :: 0 <= i < k ==> last[i] == joins[n - k + i];
    AddedEnds(r, last, joins[n], ttl, max);
    LatestNext(joins, n, k);
  }

  lemma BatchStep(r: seq<Entry>, joins: seq<Entry>, n: nat, ttl: int, max: nat)
    requires 0 < max && n < |joins| && !Holds(r, joins[n].id)
    requires forall i :: 0 <= i < n ==> joins[i].at >= joins[n].at - ttl
    requires EndsWith(r, Latest(joins, n, Min(n, max)))
    ensures var r' := Added(r, joins[n].id, joins[n].at, ttl, max);
      |r'| <= max && EndsWith(r', Latest(joins, n + 1, Min(n + 1, max)))
  {
    var k := Min(n + 1, max) - 1;
    LatestShorter(r, joins, n, Min(n, max), k);
    BatchMore(r, joins, n, k, ttl, max);
  }

  /** After `n` additions the cache ends with the last of them, as many as it has room for. */
  lemma {:induction false} BatchEnds(es: seq<Entry>, joins: seq<Entry>, n: nat, ttl: int, max: nat)
    requires 0 < max && |es| <= max && n <= |joins| && NewBatch(es, joins, ttl)
    ensures |AddedAll(es, joins, n, ttl, max)| <= max
    ensures EndsWith(AddedAll(es, joins, n, ttl, max), Latest(joins, n, Min(n, max)))
  {
    if n > 0 {
      var r := AddedAll(es, joins, n - 1, ttl, max);
      assert EndsWith(r, Latest(joins, n - 1, Min(n - 1, max))) by {
        BatchEnds(es, joins, n - 1, ttl, max);
      }
      assert !Holds(r, joins[n - 1].id) by {
        BatchAbsent(es, joins, n - 1, n - 1, ttl, max);
      }
      assert forall i :: 0 <= i < n - 1 ==> joins[i].at >= joins[n - 1].at - ttl by {
        assert NewIn(es, joins, n - 1, ttl);
      }
      BatchStep(r, joins, n - 1, ttl, max);
    }
  }

  /**
   Which of a batch of own joins are held afterwards, so that their echoes are dropped: exactly the
   last ones, as many as the cache has entries.
   */
  lemma BatchRemembered(es: seq<Entry>, joins: seq<Entry>, i: nat, ttl: int, max: nat)
    requires 0 < max && |es| <= max && NewBatch(es, joins, ttl) && i < |joins|
    ensures Holds(AddedAll(es, joins, |joins|, ttl, max), joins[i].id) <==> i + max >= |joins|
  {
    BatchEnds(es, joins, |joins|, ttl, max);
    if i + max >= |joins| {
      LatestHeld(AddedAll(es, joins, |joins|, ttl, max), joins, Min(|joins|, max), i);
    } else {
      EarlierFree(es, joins, max, i, ttl);
    }
  }

  lemma LatestHeld(r: seq<Entry>, joins: seq<Entry>, k: nat, i: nat)
    requires k <= |joins| && EndsWith(r, Latest(joins, |joins|, k)) && |joins| - k <= i < |joins|
    ensures Holds(r, joins[i].id)
  {
    assert r[|r| - k..][i - (|joins| - k)] == joins[i];
  }

  lemma EarlierFree(es: seq<Entry>, joins: seq<Entry>, k: nat, i: nat, ttl: int)
    requires k <= |joins| && i < |joins| - k && NewBatch(es, joins, ttl)
    ensures !Holds(Latest(joins, |joins|, k), joins[i].id)
  {
    forall j | 0 <= j < k ensures Latest(joins, |joins|, k)[j].id != joins[i].id {
      assert NewIn(es, joins, |joins| - k + j, ttl);
    }
  }

  /** What passes the gates of a node is a chat, a join or a leave, signed by the sender it names. */
  lemma RoutedSender(m: Message, now: int, cr: Crypto)
    requires Passes(m, now, cr)
    ensures m.typ in ["chat", "join", "leave"] && m.sender != "" && cr.hexDecode(m.publicKey).Some?
    ensures cr.fingerprint(cr.hexDecode(m.publicKey).value) == ToLower(m.sender)
  {
    ValidGossip(m);
    SenderIsKey(m, cr);
  }

  /** The gates in front of the router, and the router's own checks, are the gates a relayed frame passes. */
  lemma GatesExact(m: Message, now: int, later: int, cr: Crypto)
    ensures IsRoutable(m.typ) && VerifySignature(m, cr) == Signing.Valid && Fresh(m.timestamp, now) && Routable(m, later)
       <==> Passes(m, now, cr) && Fresh(m.timestamp, later)
    ensures Routable(m, now) <==> m.typ in ["chat", "join", "leave"] && Validate(m).Some? && Fresh(m.timestamp, now)
    ensures Passes(m, now, cr) <==>
      m.typ in ["chat", "join", "leave"] && VerifySignature(m, cr) == Signing.Valid && Fresh(m.timestamp, now) && Validate(m).Some?
  {
  }

  /** What the router does to its cache is the handle operation of a cache's run. */
  lemma HandleIsCacheStep(c: Config, st: SeenRuns.State, m: Message, checked: int, at: int)
    requires c.Ok() && IsRoutable(m.typ) && Validate(m).Some?
    ensures var op := SeenRuns.Handle(m.id, m.timestamp, checked, at);
      && (SeenRuns.Accepts(st, op) <==> Routable(m, checked) && !Holds(st.entries, m.id))
      && SeenRuns.Step(c, st, op).entries
         == if Routable(m, checked) then Added(st.entries, m.id, at, c.ttl, c.max) else st.entries
  {
  }

  class Node {
    const router: Router
    const limit: Limiter.Window
    const crypto: Crypto

    ghost predicate Valid()
      reads this, router, router.seen, router.seen.buf, limit
    {
      router.Valid() && limit.Valid()
    }

    constructor (ttl: int, max: int, crypto: Crypto)
      ensures Valid() && this.crypto == crypto && limit.limit == 30 && limit.span == SECOND
    {
      router := new Router(ttl, max);
      limit := new Limiter.Window(30, 1_000_000_000);
      this.crypto := crypto;
    }

    /** Checked before the sender's rate is charged. */
    predicate Authentic(msg: Message, now: int) {
      IsRoutable(msg.typ) && VerifySignature(msg, crypto) == Signing.Valid && Fresh(msg.timestamp, now)
    }

    /** The sender's accepted events in the window are fewer than the limit. */
    ghost predicate Within(sender: string, now: int)
      reads limit
    {
      !limit.Full(sender, now)
    }

    method Charge(sender: string, now: int) returns (ok: bool)
      requires limit.Valid() && limit.clock <= now
      modifies limit
      ensures limit.Valid() && (ok <==> old(Within(sender, now)))
      ensures sender != "" ==> limit.LogOf(sender) == old(limit.LogOf(sender)) + (if ok then [now] else [])
    {
      ok := limit.Admit(sender, now);
    }

    /** The gates in front of the router; the sender's rate is charged only for an authentic frame. */
    method Gate(msg: Message, t1: int, t2: int) returns (ok: bool)
      requires limit.Valid() && limit.clock <= t2
      modifies limit
      ensures limit.Valid()
      ensures ok <==> Authentic(msg, t1) && old(Within(Claimed(msg), t2))
      ensures !Authentic(msg, t1) ==> limit.asked == old(limit.asked)
      ensures ok && Claimed(msg) != "" ==> limit.LogOf(Claimed(msg)) == old(limit.LogOf(Claimed(msg))) + [t2]
    {
      if !Authentic(msg, t1) {
        return false;
      }
      ok := Charge(Claimed(msg), t2);
    }

    /**
     A frame from a peer is delivered, and flooded unless it is a direct message, exactly when it is
     routable, verified as it arrived, fresh, within the rate of the sender it claims, valid, and new.
     */
    method OnPeerMessage(msg: Message, from: string, t1: int, t2: int, t3: int, t4: int) returns (ghost routed: bool)
      requires Valid() && t1 <= t2 <= t3 <= t4 && limit.clock <= t2
      modifies router, router.seen, router.seen.buf, limit
      ensures Valid()
      ensures routed <==>
        && Passes(msg, t1, crypto) && Fresh(msg.timestamp, t3)
        && old(Within(Claimed(msg), t2)) && !Holds(old(router.seen.entries), msg.id)
      ensures routed ==>
        && msg.sender != "" && crypto.hexDecode(msg.publicKey).Some?
        && crypto.fingerprint(crypto.hexDecode(msg.publicKey).value) == ToLower(msg.sender)
      ensures router.delivered == old(router.delivered) + (if routed then [Event(Validate(msg).value, from)] else [])
      ensures router.flooded == old(router.flooded) +
        (if routed && msg.to == "" then [Event(Validate(msg).value, from)] else [])
      ensures !routed ==> router.seen.entries == old(router.seen.entries)
    {
      var ok := Gate(msg, t1, t2);
      routed := false;
      if ok {
        var accepted := router.Handle(msg, from, t3, t4);
        routed := accepted;
        if accepted {
          RoutedSender(msg, t1, crypto);
        }
      }
    }
  }
}
