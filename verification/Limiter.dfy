/**
 The per-key sliding window that limits gossip. Per key it stores the times of accepted events that
 may still count; when there are too many keys the one with the oldest event is dropped.
 */
module Limiter {
  import opened Basics

  const DEFAULT_LIMIT: nat := 30
  const DEFAULT_SPAN: int := 1_000_000_000
  const MAX_KEYS: nat := 4096

  // ----- One key

  /** The position of the first event at or after the cutoff, from `i` on. */
  function FirstRecent(q: seq<int>, i: nat, cutoff: int): (k: nat)
    requires i <= |q|
    ensures i <= k <= |q|
    decreases |q| - i
  {
    if i < |q| && q[i] < cutoff then FirstRecent(q, i + 1, cutoff) else i
  }

  function Recent(q: seq<int>, cutoff: int): seq<int> {
    q[FirstRecent(q, 0, cutoff)..]
  }

  ghost predicate Ascending(q: seq<int>) {
    forall i, j :: 0 <= i < j < |q| ==> q[i] <= q[j]
  }

  /** How many of the first `n` events lie in the closed interval. */
  function CountTo(log: seq<int>, n: nat, lo: int, hi: int): nat
    requires n <= |log|
  {
    if n == 0 then 0 else CountTo(log, n - 1, lo, hi) + (if lo <= log[n - 1] <= hi then 1 else 0)
  }

  function Count(log: seq<int>, lo: int, hi: int): nat {
    CountTo(log, |log|, lo, hi)
  }

  /** Events `limit` or more places apart, so any limit + 1 successive ones, span more than `span`. */
  ghost predicate Spaced(log: seq<int>, limit: nat, span: int) {
    forall i, j :: 0 <= i && i + limit <= j < |log| ==> log[j] - log[i] > span
  }

  /** The queue is what is left of the log of accepted events; what was dropped is out of the window. */
  ghost predicate Tracks(q: seq<int>, log: seq<int>, clock: int, span: int) {
    && IsTail(q, log)
    && Ascending(q) && (q != [] ==> q[|q| - 1] <= clock)
    && Passed(log, |log| - |q|, clock - span)
  }

  ghost predicate IsTail(q: seq<int>, log: seq<int>) {
    |q| <= |log| && forall i :: 0 <= i < |q| ==> q[i] == log[|log| - |q| + i]
  }

  ghost predicate Passed(log: seq<int>, d: nat, cutoff: int)
    requires d <= |log|
  {
    forall p :: 0 <= p < d ==> log[p] < cutoff
  }

  lemma {:induction false} FirstRecentSplits(q: seq<int>, i: nat, cutoff: int)
    requires Ascending(q) && i <= |q|
    ensures forall j :: i <= j < FirstRecent(q, i, cutoff) ==> q[j] < cutoff
    ensures forall j :: FirstRecent(q, i, cutoff) <= j < |q| ==> q[j] >= cutoff
    decreases |q| - i
  {
    if i < |q| && q[i] < cutoff {
      FirstRecentSplits(q, i + 1, cutoff);
    }
  }

  /** In an ascending log the events in the window are the last ones. */
  lemma {:induction false} CountTail(log: seq<int>, n: nat, lo: int, hi: int, d: nat)
    requires d <= |log| && n <= |log|
    requires forall i :: 0 <= i < d ==> log[i] < lo
    requires forall i :: d <= i < |log| ==> lo <= log[i] <= hi
    ensures CountTo(log, n, lo, hi) == if n < d then 0 else n - d
  {
    if n > 0 {
      CountTail(log, n - 1, lo, hi, d);
    }
  }

  /** What pruning leaves is exactly the events of the log that lie in the window. */
  lemma WindowExact(q: seq<int>, log: seq<int>, clock: int, now: int, span: int)
    requires Tracks(q, log, clock, span) && clock <= now
    ensures |Recent(q, now - span)| == Count(log, now - span, now)
    ensures Tracks(Recent(q, now - span), log, now, span)
  {
    var base, k, r := |log| - |q|, FirstRecent(q, 0, now - span), Recent(q, now - span);
    FirstRecentSplits(q, 0, now - span);
    assert IsTail(r, log) && Ascending(r);
    forall i | 0 <= i < base + k ensures log[i] < now - span {
      if i >= base { assert q[i - base] == log[i]; }
    }
    forall i | base + k <= i < |log| ensures now - span <= log[i] <= now {
      assert q[i - base] == log[i];
    }
    CountTail(log, |log|, now - span, now, base + k);
  }

  lemma AcceptTracks(r: seq<int>, log: seq<int>, now: int, span: int)
    requires Tracks(r, log, now, span)
    ensures Tracks(r + [now], log + [now], now, span)
  {
  }

  /** Accepting an event while fewer than `limit` are in the window keeps the log spaced. */
  lemma AcceptSpaced(log: seq<int>, d: nat, now: int, limit: nat, span: int)
    requires d <= |log| < d + limit && Passed(log, d, now - span) && Spaced(log, limit, span)
    ensures Spaced(log + [now], limit, span)
  {
  }

  /** The queue of a key after a request, and the answer. */
  datatype Key = Key(q: seq<int>, ok: bool)

  function Request(q: seq<int>, now: int, limit: nat, span: int): Key {
    var r := Recent(q, now - span);
    if |r| >= limit then Key(r, false) else Key(r + [now], true)
  }

  /** The requests for one key in sequence, latest last. */
  datatype History = Start | Ask(earlier: History, now: int)

  function After(h: History, limit: nat, span: int): Key {
    match h
    case Start => Key([], true)
    case Ask(earlier, now) => Request(After(earlier, limit, span).q, now, limit, span)
  }

  /** The times of the requests that were answered with yes, from the answers alone. */
  function Times(h: History, limit: nat, span: int): seq<int> {
    match h
    case Start => []
    case Ask(earlier, now) => Times(earlier, limit, span) + (if After(h, limit, span).ok then [now] else [])
  }

  /** The clock does not go back, and has not passed `clock`. */
  predicate Paced(h: History, clock: int) {
    match h
    case Start => true
    case Ask(earlier, now) => now <= clock && Paced(earlier, now)
  }

  /** A request is refused exactly when the window is full, and is recorded exactly when it is not. */
  lemma RequestExact(q: seq<int>, log: seq<int>, clock: int, now: int, limit: nat, span: int)
    requires Tracks(q, log, clock, span) && |q| <= limit && clock <= now && 0 < limit
    ensures var k := Request(q, now, limit, span);
      && Tracks(k.q, log + (if k.ok then [now] else []), now, span) && 0 < |k.q| <= limit
      && (!k.ok <==> Count(log, now - span, now) == limit)
      && Count(log, now - span, now) <= limit
  {
    WindowExact(q, log, clock, now, span);
    var r := Recent(q, now - span);
    if |r| >= limit {
      assert log + [] == log;
    } else {
      AcceptTracks(r, log, now, span);
    }
  }

  lemma RequestSpaced(q: seq<int>, log: seq<int>, clock: int, now: int, limit: nat, span: int)
    requires Tracks(q, log, clock, span) && clock <= now && Spaced(log, limit, span)
    ensures Spaced(log + (if Request(q, now, limit, span).ok then [now] else []), limit, span)
  {
    WindowExact(q, log, clock, now, span);
    var r := Recent(q, now - span);
    if |r| < limit {
      AcceptSpaced(log, |log| - |r|, now, limit, span);
    } else {
      assert log + [] == log;
    }
  }

  /** Over any run the queue is what is left of the accepted requests. */
  lemma {:induction false} RunTracks(h: History, clock: int, limit: nat, span: int)
    requires Paced(h, clock) && 0 < limit && 0 < span
    ensures Tracks(After(h, limit, span).q, Times(h, limit, span), clock, span) && |After(h, limit, span).q| <= limit
  {
    match h
    case Start =>
    case Ask(earlier, now) =>
      RunTracks(earlier, now, limit, span);
      RequestExact(After(earlier, limit, span).q, Times(earlier, limit, span), now, now, limit, span);
  }

  /** Over any run, limit + 1 successive requests that were allowed span more than `span`. */
  lemma {:induction false} RunSpaced(h: History, clock: int, limit: nat, span: int)
    requires Paced(h, clock) && 0 < limit && 0 < span
    ensures Spaced(Times(h, limit, span), limit, span)
  {
    match h
    case Start =>
    case Ask(earlier, now) =>
      RunSpaced(earlier, now, limit, span);
      RunTracks(earlier, now, limit, span);
      RequestSpaced(After(earlier, limit, span).q, Times(earlier, limit, span), now, now, limit, span);
  }

  /**
   Exactness over any run of requests for one key with a clock that does not go back: a request is
   refused exactly when `limit` requests in [now - span, now] were allowed, and never more than that are.
   */
  lemma SlidingWindowExact(h: History, now: int, limit: nat, span: int)
    requires Paced(h, now) && 0 < limit && 0 < span
    ensures !After(Ask(h, now), limit, span).ok <==> Count(Times(h, limit, span), now - span, now) == limit
    ensures Count(Times(h, limit, span), now - span, now) <= limit
    ensures After(Ask(h, now), limit, span).q != []
  {
    RunTracks(h, now, limit, span);
    RequestExact(After(h, limit, span).q, Times(h, limit, span), now, now, limit, span);
  }

  /** For instance, of any number of requests at one moment the first `limit` are allowed and no other. */
  function Burst(n: nat, now: int): History {
    if n == 0 then Start else Ask(Burst(n - 1, now), now)
  }

  lemma {:induction false} BurstPaced(n: nat, now: int)
    ensures Paced(Burst(n, now), now)
  {
    if n > 0 {
      BurstPaced(n - 1, now);
    }
  }

  lemma {:induction false} AllNow(log: seq<int>, n: nat, now: int, span: int)
    requires n <= |log| && 0 < span && forall i :: 0 <= i < |log| ==> log[i] == now
    ensures CountTo(log, n, now - span, now) == n
  {
    if n > 0 {
      AllNow(log, n - 1, now, span);
    }
  }

  lemma {:induction false} BurstExact(n: nat, now: int, limit: nat, span: int)
    requires 0 < limit && 0 < span
    ensures |Times(Burst(n, now), limit, span)| == Min(n, limit)
    ensures forall i :: 0 <= i < |Times(Burst(n, now), limit, span)| ==> Times(Burst(n, now), limit, span)[i] == now
  {
    if n > 0 {
      var log := Times(Burst(n - 1, now), limit, span);
      BurstExact(n - 1, now, limit, span);
      BurstPaced(n - 1, now);
      AllNow(log, |log|, now, span);
      SlidingWindowExact(Burst(n - 1, now), now, limit, span);
    }
  }

  // ----- All keys

  /** `k` holds a queue whose first event is as old as any. */
  ghost predicate IsOldest(hits: map<string, seq<int>>, k: string) {
    k in hits && hits[k] != [] && forall j :: j in hits && hits[j] != [] ==> hits[k][0] <= hits[j][0]
  }

  function NonEmpty(hits: map<string, seq<int>>): map<string, seq<int>> {
    map k | k in hits && hits[k] != [] :: hits[k]
  }

  /** Drops one key with the oldest first event, and every key without events. */
  method DropOldest(hits: map<string, seq<int>>) returns (left: map<string, seq<int>>, oldest: string)
    requires "" !in hits
    ensures if NonEmpty(hits) == map[] then left == map[] && oldest == ""
            else IsOldest(hits, oldest) && left == NonEmpty(hits) - {oldest}
  {
    var todo := hits.Keys;
    var t := 0;
    left, oldest := hits, "";
    while todo != {}
      invariant todo <= hits.Keys
      invariant left == map k | k in hits && (k in todo || hits[k] != []) :: hits[k]
      invariant oldest == "" ==> forall k :: k in hits && k !in todo ==> hits[k] == []
      invariant oldest != "" ==> oldest in hits && oldest !in todo && hits[oldest] != [] && t == hits[oldest][0]
      invariant oldest != "" ==> forall k :: k in hits && k !in todo && hits[k] != [] ==> t <= hits[k][0]
      decreases todo
    {
      var k :| k in todo;
      todo := todo - {k};
      var q := hits[k];
      if q == [] {
        left := left - {k};
      } else if oldest == "" || q[0] < t {
        oldest, t := k, q[0];
      }
    }
    assert left == NonEmpty(hits);
    if oldest != "" {
      assert oldest in NonEmpty(hits);
      left := left - {oldest};
    }
  }

  /** The stored queue is the one that the key's requests since it was last dropped lead to. */
  ghost predicate Sound(q: seq<int>, h: History, clock: int, limit: nat, span: int) {
    q != [] && q == After(h, limit, span).q && Paced(h, clock)
  }

  /** The times at which a key was allowed, by what has been asked. */
  function LogIn(asked: map<string, History>, key: string, limit: nat, span: int): seq<int> {
    Times(if key in asked then asked[key] else Start, limit, span)
  }

  /** Asking for one key, and dropping others, leaves the rest alone. */
  lemma LogsKept(asked: map<string, History>, dropped: set<string>, key: string, h: History, limit: nat, span: int)
    ensures var asked' := (asked - dropped)[key := h];
      && LogIn(asked', key, limit, span) == Times(h, limit, span)
      && (forall k :: k != key && k !in dropped ==> LogIn(asked', k, limit, span) == LogIn(asked, k, limit, span))
  {
  }

  class Window {
    const limit: nat
    const span: int
    const maxKeys: nat
    var hits: map<string, seq<int>>
    /** Requests per key since the key was last dropped, and the latest reading of the clock. */
    ghost var asked: map<string, History>
    ghost var clock: int

    ghost predicate Valid()
      reads this
    {
      && 0 < limit && 0 < span && 0 < maxKeys
      && hits.Keys == asked.Keys && "" !in hits && |hits| <= maxKeys
      && forall k :: k in hits ==> Sound(hits[k], asked[k], clock, limit, span)
    }

    constructor (limit: int, span: int)
      ensures Valid() && hits == map[]
      ensures this.limit == (if limit <= 0 then DEFAULT_LIMIT else limit)
      ensures this.span == (if span <= 0 then DEFAULT_SPAN else span) && maxKeys == MAX_KEYS
    {
      this.limit := if limit <= 0 then DEFAULT_LIMIT else limit;
      this.span := if span <= 0 then DEFAULT_SPAN else span;
      maxKeys := MAX_KEYS;
      hits, asked, clock := map[], map[], 0;
    }

    ghost function HistoryOf(key: string): History
      reads this
    {
      if key in asked then asked[key] else Start
    }

    /** The times at which a key was allowed since it was last dropped. */
    ghost function LogOf(key: string): seq<int>
      reads this
    {
      LogIn(asked, key, limit, span)
    }

    /** Counts the leading events that have left the window. */
    method Expired(q: seq<int>, cutoff: int) returns (i: nat)
      ensures i == FirstRecent(q, 0, cutoff)
    {
      i := 0;
      while i < |q| && q[i] < cutoff
        invariant i <= |q| && FirstRecent(q, i, cutoff) == FirstRecent(q, 0, cutoff)
      {
        i := i + 1;
      }
    }

    /** Files a key's queue after a request at the new time. */
    method Store(key: string, q: seq<int>, now: int, ghost h: History)
      requires Valid() && clock <= now && key != "" && (key in hits || |hits| < maxKeys)
      requires Sound(q, h, now, limit, span)
      modifies this
      ensures Valid() && clock == now && hits == old(hits)[key := q] && asked == old(asked)[key := h]
    {
      assert key in hits ==> hits[key := q].Keys == hits.Keys;
      hits, asked, clock := hits[key := q], asked[key := h], now;
    }

    /** Drops one key to make room for another. */
    method MakeRoom() returns (dropped: string)
      requires Valid() && |hits| >= maxKeys
      modifies this`hits, this`asked
      ensures Valid() && |hits| < maxKeys && IsOldest(old(hits), dropped)
      ensures hits == old(hits) - {dropped} && asked == old(asked) - {dropped}
    {
      assert NonEmpty(hits) == hits;
      hits, dropped := DropOldest(hits);
      asked := asked - {dropped};
    }

    /** A new key needs room when the table is full. */
    method MakeRoomFor(key: string) returns (ghost dropped: set<string>)
      requires Valid()
      modifies this`hits, this`asked
      ensures Valid() && (key in hits || |hits| < maxKeys)
      ensures asked == old(asked) - dropped
      ensures dropped == {} || (key !in old(hits) && |old(hits)| >= maxKeys && |dropped| == 1)
      ensures forall k :: k in dropped ==> IsOldest(old(hits), k)
    {
      dropped := {};
      if key !in hits && |hits| >= maxKeys {
        var oldest := MakeRoom();
        dropped := {oldest};
      }
    }

    /** Prunes a key's queue and adds the event unless the window is full. */
    method Answer(q0: seq<int>, now: int) returns (ok: bool, q: seq<int>)
      ensures Key(q, ok) == Request(q0, now, limit, span)
    {
      var i := Expired(q0, now - span);
      q := q0[i..];
      ok := |q| < limit;
      if ok {
        q := q + [now];
      }
    }

    /** The answer to a request, and the key's queue afterwards. */
    method Judge(key: string, now: int) returns (ok: bool, q: seq<int>)
      requires Valid() && clock <= now
      ensures !ok <==> Count(LogOf(key), now - span, now) == limit
      ensures !ok ==> key in hits
      ensures Sound(q, Ask(HistoryOf(key), now), now, limit, span)
      ensures Times(Ask(HistoryOf(key), now), limit, span) == LogOf(key) + (if ok then [now] else [])
    {
      assert Paced(HistoryOf(key), now);
      SlidingWindowExact(HistoryOf(key), now, limit, span);
      if key in hits {
        ok, q := Answer(hits[key], now);
      } else {
        ok, q := Answer([], now);
        assert LogOf(key) == [];
      }
    }

    /**
     Refuses exactly when the key was allowed `limit` times in the window, and counts the request exactly
     when it allows it. Stored queues are never empty and the number of keys stays bounded; a new key may
     push out one with the oldest event.
     */
    method Allow(key: string, now: int) returns (ok: bool, ghost dropped: set<string>)
      requires Valid() && clock <= now
      modifies this
      ensures Valid() && clock == now
      ensures !ok <==> key != "" && Count(old(LogOf(key)), now - span, now) == limit
      ensures asked == if key == "" then old(asked) else (old(asked) - dropped)[key := Ask(old(HistoryOf(key)), now)]
      ensures key != "" ==> LogOf(key) == old(LogOf(key)) + (if ok then [now] else [])
      ensures forall k :: k != key && k !in dropped ==> LogOf(k) == old(LogOf(k))
      ensures dropped == {} || (key !in old(hits) && |old(hits)| >= maxKeys && |dropped| == 1)
      ensures forall k :: k in dropped ==> IsOldest(old(hits), k)
    {
      if key == "" {
        clock := now;
        return true, {};
      }
      ghost var before, h := asked, Ask(HistoryOf(key), now);
      ok, dropped := Ruled(key, now);
      LogsKept(before, dropped, key, h, limit, span);
    }

    /** The key was allowed as often in the window as it may be. */
    ghost predicate Full(key: string, now: int)
      reads this
    {
      key != "" && Count(LogOf(key), now - span, now) == limit
    }

    /** The answer alone. */
    method Admit(key: string, now: int) returns (ok: bool)
      requires Valid() && clock <= now
      modifies this
      ensures Valid() && (ok <==> !old(Full(key, now)))
      ensures key != "" ==> LogOf(key) == old(LogOf(key)) + (if ok then [now] else [])
    {
      ghost var dropped;
      ok, dropped := Allow(key, now);
    }

    /** The same for a key proper, on what has been asked. */
    method Ruled(key: string, now: int) returns (ok: bool, ghost dropped: set<string>)
      requires Valid() && clock <= now && key != ""
      modifies this
      ensures Valid() && clock == now
      ensures !ok <==> Count(old(LogOf(key)), now - span, now) == limit
      ensures asked == (old(asked) - dropped)[key := Ask(old(HistoryOf(key)), now)]
      ensures Times(Ask(old(HistoryOf(key)), now), limit, span) == old(LogOf(key)) + (if ok then [now] else [])
      ensures dropped == {} || (key !in old(hits) && |old(hits)| >= maxKeys && |dropped| == 1)
      ensures forall k :: k in dropped ==> IsOldest(old(hits), k)
    {
      dropped := {};
      assert asked - dropped == asked;
      ghost var h := Ask(HistoryOf(key), now);
      var q;
      ok, q := Judge(key, now);
      if !ok {
        Store(key, q, now, h);
        return;
      }
      dropped := MakeRoomFor(key);
      Store(key, q, now, h);
    }
  }
}
