/**
 The bounded, expiring cache of message IDs: a map from ID to arrival time plus a FIFO queue of the
 same IDs. `Live` and `Added` specify it on the list of entries; `SeenStore` is the mutable object,
 whose queue is a window of an array that the sweep compacts in place.
 */
module SeenStores {

  type Id = string

  /** An ID and the clock reading (in nanoseconds) at which it was recorded. */
  datatype Entry = Entry(id: Id, at: int)

  const DEFAULT_TTL: int := 24 * 3600 * 1_000_000_000
  const DEFAULT_MAX: nat := 50000

  /** How long and how many IDs a cache retains. */
  datatype Config = Config(ttl: int, max: nat) {
    predicate Ok() { 0 < ttl && 0 < max }
  }

  // ----- Specification on lists of entries

  predicate Holds(es: seq<Entry>, id: Id) {
    exists i :: 0 <= i < |es| && es[i].id == id
  }

  ghost predicate DistinctIds(es: seq<Entry>) {
    forall i, j :: 0 <= i < j < |es| ==> es[i].id != es[j].id
  }

  ghost predicate Sorted(es: seq<Entry>) {
    forall i, j :: 0 <= i < j < |es| ==> es[i].at <= es[j].at
  }

  /** The plain filter: the first `n` entries without those older than the cutoff. */
  function LiveTo(es: seq<Entry>, n: nat, cutoff: int): seq<Entry>
    requires n <= |es|
  {
    if n == 0 then []
    else LiveTo(es, n - 1, cutoff) + (if es[n - 1].at < cutoff then [] else [es[n - 1]])
  }

  function Live(es: seq<Entry>, cutoff: int): seq<Entry> {
    LiveTo(es, |es|, cutoff)
  }

  function KeepNewest(es: seq<Entry>, n: nat): seq<Entry> {
    if |es| > n then es[|es| - n..] else es
  }

  lemma KeepNewestTail(es: seq<Entry>, n: nat)
    requires |es| > n
    ensures KeepNewest(es[1..], n) == KeepNewest(es, n)
  {
  }

  /** The entries that stay when room is made for one more. */
  function Room(es: seq<Entry>, now: int, ttl: int, max: nat): seq<Entry>
    requires 0 < max
  {
    if |es| >= max then KeepNewest(Live(es, now - ttl), max - 1) else es
  }

  /** The entries after recording `id` at time `now`; unchanged when `id` is present. */
  function Added(es: seq<Entry>, id: Id, now: int, ttl: int, max: nat): seq<Entry>
    requires 0 < max
  {
    if Holds(es, id) then es else Room(es, now, ttl, max) + [Entry(id, now)]
  }

  /** The filter keeps exactly the entries that are young enough. */
  lemma {:induction false} LiveToSound(es: seq<Entry>, n: nat, cutoff: int)
    requires n <= |es|
    ensures forall e :: e in LiveTo(es, n, cutoff) <==> e in es[..n] && e.at >= cutoff
  {
    if n > 0 {
      LiveToSound(es, n - 1, cutoff);
      assert es[..n] == es[..n - 1] + [es[n - 1]];
    }
  }

  /** With nondecreasing times the filter drops exactly a prefix. */
  lemma {:induction false} LiveToIsSuffix(es: seq<Entry>, n: nat, cutoff: int) returns (k: nat)
    requires Sorted(es) && n <= |es|
    ensures k <= n && LiveTo(es, n, cutoff) == es[k..n]
    ensures forall i :: 0 <= i < k ==> es[i].at < cutoff
    ensures forall i :: k <= i < n ==> es[i].at >= cutoff
  {
    if n == 0 {
      k := 0;
    } else {
      k := LiveToIsSuffix(es, n - 1, cutoff);
      if es[n - 1].at < cutoff {
        assert forall i :: 0 <= i < n ==> es[i].at <= es[n - 1].at;
        assert k == n - 1;
        k := n;
      } else {
        assert es[k..n] == es[k..n - 1] + [es[n - 1]];
      }
    }
  }

  /** Making room cannot bring an ID back. */
  lemma RoomAbsent(es: seq<Entry>, now: int, ttl: int, max: nat, id: Id)
    requires 0 < max && !Holds(es, id)
    ensures !Holds(Room(es, now, ttl, max), id)
  {
    LiveToSound(es, |es|, now - ttl);
    assert es[..|es|] == es;
    var kept := Room(es, now, ttl, max);
    forall i | 0 <= i < |kept| ensures kept[i].id != id {
      assert kept[i] in es;
    }
  }

  // ----- Queue and map

  function IdsOf(es: seq<Entry>): seq<Id> {
    seq(|es|, i requires 0 <= i < |es| => es[i].id)
  }

  /** The map that records the same IDs and times. */
  function MapOf(es: seq<Entry>): map<Id, int> {
    if es == [] then map[] else MapOf(es[..|es| - 1])[es[|es| - 1].id := es[|es| - 1].at]
  }

  lemma {:induction false} MapOfKeys(es: seq<Entry>, id: Id)
    ensures id in MapOf(es) <==> Holds(es, id)
  {
    if es != [] {
      var init, last := es[..|es| - 1], es[|es| - 1];
      MapOfKeys(init, id);
      if Holds(init, id) {
        var k :| 0 <= k < |init| && init[k].id == id;
        assert es[k].id == id;
      }
      if last.id == id {
        assert es[|es| - 1].id == id;
      }
    }
  }

  /** The map has as many keys as there are entries exactly when no ID occurs twice. */
  lemma {:induction false} MapOfSize(es: seq<Entry>)
    ensures |MapOf(es)| <= |es|
    ensures |MapOf(es)| == |es| <==> DistinctIds(es)
  {
    if es != [] {
      var init, last := es[..|es| - 1], es[|es| - 1];
      MapOfSize(init);
      MapOfKeys(init, last.id);
      if last.id in MapOf(init) {
        assert MapOf(es).Keys == MapOf(init).Keys;
        var k :| 0 <= k < |init| && init[k].id == last.id;
        assert es[k].id == es[|es| - 1].id;
      } else {
        assert MapOf(es).Keys == MapOf(init).Keys + {last.id};
        assert DistinctIds(es) <==> DistinctIds(init) by {
          assert forall k :: 0 <= k < |init| ==> es[k] == init[k] && es[k].id != last.id;
        }
      }
    }
  }

  lemma MapOfSnoc(es: seq<Entry>, e: Entry)
    ensures MapOf(es + [e]) == MapOf(es)[e.id := e.at]
  {
    assert (es + [e])[..|es|] == es;
  }

  lemma {:induction false} MapOfAt(es: seq<Entry>, k: nat)
    requires DistinctIds(es) && k < |es|
    ensures es[k].id in MapOf(es) && MapOf(es)[es[k].id] == es[k].at
  {
    if k < |es| - 1 {
      MapOfAt(es[..|es| - 1], k);
    }
  }

  /** A map that records each entry and no other ID is the map of the entries. */
  lemma MapOfIs(m: map<Id, int>, es: seq<Entry>)
    requires DistinctIds(es) && forall id :: id in m ==> Holds(es, id)
    requires forall i :: 0 <= i < |es| ==> es[i].id in m && m[es[i].id] == es[i].at
    ensures m == MapOf(es)
  {
    forall id ensures id in MapOf(es) <==> id in m {
      MapOfKeys(es, id);
    }
    forall id | id in m ensures m[id] == MapOf(es)[id] {
      var i :| 0 <= i < |es| && es[i].id == id;
      MapOfAt(es, i);
    }
  }

  /** The map once the first `n` entries have been swept. */
  function SweptMap(es: seq<Entry>, n: nat, cutoff: int): map<Id, int>
    requires n <= |es|
  {
    if n == 0 then MapOf(es)
    else
      var m := SweptMap(es, n - 1, cutoff);
      if es[n - 1].at < cutoff then m - {es[n - 1].id} else m
  }

  /** It records the entries that are not swept yet and those that are young enough. */
  lemma {:induction false} SweptAt(es: seq<Entry>, n: nat, cutoff: int, k: nat)
    requires DistinctIds(es) && n <= |es| && k < |es|
    ensures es[k].id in SweptMap(es, n, cutoff) <==> k >= n || es[k].at >= cutoff
    ensures es[k].id in SweptMap(es, n, cutoff) ==> SweptMap(es, n, cutoff)[es[k].id] == es[k].at
  {
    if n == 0 {
      MapOfAt(es, k);
    } else {
      SweptAt(es, n - 1, cutoff, k);
    }
  }

  lemma {:induction false} SweptOnly(es: seq<Entry>, n: nat, cutoff: int, id: Id)
    requires n <= |es| && id in SweptMap(es, n, cutoff)
    ensures Holds(es, id)
  {
    if n == 0 {
      MapOfKeys(es, id);
    } else {
      SweptOnly(es, n - 1, cutoff, id);
    }
  }

  /** In the end it is the map of the live entries. */
  lemma SweptIsLive(es: seq<Entry>, cutoff: int)
    requires DistinctIds(es)
    ensures SweptMap(es, |es|, cutoff) == MapOf(Live(es, cutoff))
  {
    var m, live := SweptMap(es, |es|, cutoff), Live(es, cutoff);
    LiveToSound(es, |es|, cutoff);
    LiveDistinct(es, |es|, cutoff);
    assert es[..|es|] == es;
    forall id | id in m ensures Holds(live, id) {
      SweptOnly(es, |es|, cutoff, id);
      var k :| 0 <= k < |es| && es[k].id == id;
      SweptAt(es, |es|, cutoff, k);
      assert es[k] in live;
    }
    forall i | 0 <= i < |live| ensures live[i].id in m && m[live[i].id] == live[i].at {
      assert live[i] in es;
      var k :| 0 <= k < |es| && es[k] == live[i];
      SweptAt(es, |es|, cutoff, k);
    }
    MapOfIs(m, live);
  }

  lemma {:induction false} LiveToFree(es: seq<Entry>, n: nat, cutoff: int, k: nat)
    requires n <= k < |es| && forall i :: 0 <= i < k ==> es[i].id != es[k].id
    ensures !Holds(LiveTo(es, n, cutoff), es[k].id)
  {
    if n > 0 {
      LiveToFree(es, n - 1, cutoff, k);
    }
  }

  /** Whether the next entry is swept is decided by what the map records for it. */
  lemma SweptNext(es: seq<Entry>, n: nat, cutoff: int)
    requires |MapOf(es)| == |es| && n < |es|
    ensures es[n].id in SweptMap(es, n, cutoff) && SweptMap(es, n, cutoff)[es[n].id] == es[n].at
  {
    MapOfSize(es);
    SweptAt(es, n, cutoff, n);
  }

  lemma SweptLast(es: seq<Entry>, cutoff: int)
    requires |MapOf(es)| == |es|
    ensures SweptMap(es, |es|, cutoff) == MapOf(Live(es, cutoff))
    ensures |MapOf(Live(es, cutoff))| == |Live(es, cutoff)| <= |es|
  {
    MapOfSize(es);
    SweptIsLive(es, cutoff);
    LiveDistinct(es, |es|, cutoff);
    MapOfSize(Live(es, cutoff));
  }

  /**
   The compaction loop. Reader and writer share the array, so it matters that the writer never
   overtakes the reader.
   */
  method Compact(a: array<Id>, from: nat, to: nat, m: map<Id, int>, cutoff: int, ghost es: seq<Entry>)
    returns (w: nat, left: map<Id, int>)
    requires from <= to <= a.Length && to - from == |es| && m == MapOf(es) && |m| == |es|
    requires forall k :: from <= k < to ==> a[k] == es[k - from].id
    modifies a
    ensures from <= w <= to && w - from == |Live(es, cutoff)| && left == SweptMap(es, |es|, cutoff)
    ensures forall k :: from <= k < w ==> a[k] == Live(es, cutoff)[k - from].id
  {
    var i := from;
    w, left := from, m;
    ghost var live: seq<Entry> := [];
    while i < to
      invariant from <= w <= i <= to
      invariant forall k :: i <= k < to ==> a[k] == es[k - from].id
      invariant live == LiveTo(es, i - from, cutoff) && |live| == w - from
      invariant forall k :: from <= k < w ==> a[k] == live[k - from].id
      invariant left == SweptMap(es, i - from, cutoff)
    {
      var id := a[i];
      SweptNext(es, i - from, cutoff);
      if id !in left || left[id] < cutoff {
        left := left - {id};
      } else {
        a[w] := id;
        w := w + 1;
        live := live + [es[i - from]];
      }
      i := i + 1;
    }
  }

  /** The sweep of a queue and its map leaves the live entries, in order. */
  method SweepQueue(a: array<Id>, from: nat, to: nat, m: map<Id, int>, cutoff: int, ghost es: seq<Entry>)
    returns (w: nat, left: map<Id, int>)
    requires from <= to <= a.Length && a[from..to] == IdsOf(es) && m == MapOf(es) && |m| == |es|
    modifies a
    ensures from <= w <= to && a[from..w] == IdsOf(Live(es, cutoff))
    ensures left == MapOf(Live(es, cutoff)) && |left| == |Live(es, cutoff)| <= |es|
  {
    assert forall k :: from <= k < to ==> a[k] == a[from..to][k - from];
    w, left := Compact(a, from, to, m, cutoff, es);
    assert a[from..w] == IdsOf(Live(es, cutoff));
    SweptLast(es, cutoff);
  }

  lemma {:induction false} LiveDistinct(es: seq<Entry>, n: nat, cutoff: int)
    requires DistinctIds(es) && n <= |es|
    ensures DistinctIds(LiveTo(es, n, cutoff)) && |LiveTo(es, n, cutoff)| <= n
  {
    if n > 0 {
      LiveDistinct(es, n - 1, cutoff);
      LiveToFree(es, n - 1, cutoff, n - 1);
    }
  }

  lemma DropFirst(es: seq<Entry>)
    requires |MapOf(es)| == |es| && es != []
    ensures MapOf(es[1..]) == MapOf(es) - {es[0].id} && |MapOf(es[1..])| == |es[1..]|
  {
    var m, tail := MapOf(es) - {es[0].id}, es[1..];
    MapOfSize(es);
    MapOfSize(tail);
    forall id | id in m ensures Holds(tail, id) {
      MapOfKeys(es, id);
      var k :| 0 <= k < |es| && es[k].id == id;
      assert tail[k - 1] == es[k];
    }
    forall i | 0 <= i < |tail| ensures tail[i].id in m && m[tail[i].id] == tail[i].at {
      MapOfAt(es, i + 1);
    }
    MapOfIs(m, tail);
  }

  lemma IdsTail(es: seq<Entry>)
    requires es != []
    ensures IdsOf(es)[0] == es[0].id && IdsOf(es)[1..] == IdsOf(es[1..])
  {
  }

  /** One more entry, in the map and in the queue. */
  lemma Recorded(es: seq<Entry>, e: Entry)
    requires !Holds(es, e.id) && |MapOf(es)| == |es|
    ensures MapOf(es + [e]) == MapOf(es)[e.id := e.at] && |MapOf(es + [e])| == |es| + 1
    ensures IdsOf(es + [e]) == IdsOf(es) + [e.id]
  {
    assert e.id !in MapOf(es) by {
      MapOfKeys(es, e.id);
    }
    MapOfSnoc(es, e);
    NewKey(MapOf(es), e.id, e.at);
    IdsSnoc(es, e);
  }

  lemma IdsSnoc(es: seq<Entry>, e: Entry)
    ensures IdsOf(es + [e]) == IdsOf(es) + [e.id]
  {
  }

  lemma NewKey(m: map<Id, int>, id: Id, at: int)
    requires id !in m
    ensures |m[id := at]| == |m| + 1
  {
    assert m[id := at].Keys == m.Keys + {id};
  }

  // ----- The mutable store

  class SeenStore {
    const ttl: int
    const max: nat
    var m: map<Id, int>
    var buf: array<Id>
    var lo: nat
    var hi: nat
    /** The abstract contents, oldest first. */
    ghost var entries: seq<Entry>

    ghost predicate Valid()
      reads this, buf
    {
      && 0 < ttl && 0 < max
      && lo <= hi <= buf.Length
      && buf[lo..hi] == IdsOf(entries)
      && m == MapOf(entries)
      && |m| == |entries| <= max
    }

    constructor (ttl: int, max: int)
      ensures Valid() && fresh(buf) && entries == []
      ensures this.ttl == (if ttl <= 0 then DEFAULT_TTL else ttl)
      ensures this.max == (if max <= 0 then DEFAULT_MAX else max)
    {
      this.ttl := if ttl <= 0 then DEFAULT_TTL else ttl;
      var cap: nat := if max <= 0 then DEFAULT_MAX else max;
      this.max := cap;
      m := map[];
      buf := new Id[cap];
      lo, hi, entries := 0, 0, [];
    }

    method Has(id: Id) returns (r: bool)
      requires Valid()
      ensures r <==> Holds(entries, id)
    {
      r := id in m;
      MapOfKeys(entries, id);
    }

    method SweepLocked(now: int)
      requires Valid()
      modifies this`m, this`hi, this`entries, buf
      ensures Valid() && entries == Live(old(entries), now - ttl)
    {
      hi, m := SweepQueue(buf, lo, hi, m, now - ttl, entries);
      entries := Live(entries, now - ttl);
    }

    method Sweep(now: int)
      requires Valid()
      modifies this`m, this`hi, this`entries, buf
      ensures Valid() && entries == Live(old(entries), now - ttl)
    {
      SweepLocked(now);
    }

    method DropOldest()
      requires Valid() && lo < hi
      modifies this`m, this`lo, this`entries
      ensures Valid() && entries == old(entries)[1..]
    {
      DropFirst(entries);
      IdsTail(entries);
      var oldest := buf[lo];
      assert buf[lo..hi][0] == oldest && buf[lo..hi][1..] == buf[lo + 1..hi];
      lo := lo + 1;
      m := m - {oldest};
      entries := entries[1..];
    }

    /** Removes the oldest entries until there is room for one more. */
    method EvictLocked()
      requires Valid()
      modifies this`m, this`lo, this`entries
      ensures Valid() && |entries| < max && entries == KeepNewest(old(entries), max - 1)
    {
      while |m| >= max && hi - lo > 0
        invariant Valid()
        invariant KeepNewest(entries, max - 1) == KeepNewest(old(entries), max - 1)
        decreases |entries|
      {
        KeepNewestTail(entries, max - 1);
        DropOldest();
      }
    }

    method MakeRoomLocked(now: int)
      requires Valid()
      modifies this`m, this`lo, this`hi, this`entries, buf
      ensures Valid() && |entries| < max && entries == Room(old(entries), now, ttl, max)
    {
      if |m| >= max {
        SweepLocked(now);
        EvictLocked();
      }
    }

    /** `append` on the queue: reuses spare room or moves to a larger array. */
    method Append(id: Id)
      requires lo <= hi <= buf.Length
      modifies this`buf, this`lo, this`hi, buf
      ensures lo <= hi <= buf.Length
      ensures buf == old(buf) || fresh(buf)
      ensures buf[lo..hi] == old(buf[lo..hi]) + [id]
    {
      ghost var q := buf[lo..hi];
      if hi == buf.Length {
        var n, src, from := hi - lo, buf, lo;
        var bigger := new Id[2 * n + 1];
        for k := 0 to n
          modifies bigger
          invariant bigger[..k] == q[..k]
        {
          bigger[k] := src[from + k];
          assert bigger[k] == q[k];
        }
        buf, lo, hi := bigger, 0, n;
      }
      buf[hi] := id;
      hi := hi + 1;
      assert buf[lo..hi] == q + [id];
    }

    /** Records `id`; answers false, and changes nothing, if it was present. */
    method Add(id: Id, now: int) returns (added: bool)
      requires Valid()
      modifies this`m, this`buf, this`lo, this`hi, this`entries, buf
      ensures Valid() && (buf == old(buf) || fresh(buf))
      ensures added <==> !Holds(old(entries), id)
      ensures entries == Added(old(entries), id, now, ttl, max)
    {
      var present := Has(id);
      if present {
        return false;
      }
      RoomAbsent(entries, now, ttl, max, id);
      MakeRoomLocked(now);
      Recorded(entries, Entry(id, now));
      m := m[id := now];
      entries := entries + [Entry(id, now)];
      Append(id);
      added := true;
    }
  }
}
