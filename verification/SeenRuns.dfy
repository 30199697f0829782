/**
 Whole runs of a node's seen cache: routed messages, IDs remembered without routing (a node's own
 resent joins) and sweeps. The log of accepted IDs is the reference the cache is compared with.
 */
module SeenRuns {
  import opened Messages
  import opened SeenStores

  /**
   One atomic use of the cache. A routed message reads the clock twice: `checked` when its timestamp
   is checked and `at` when it reaches the cache.
   */
  datatype Op =
    | Handle(id: Id, timestamp: int, checked: int, at: int)
    | Remember(id: Id, at: int)
    | Sweep(at: int)

  /** `log` lists every successful Add; `clock` is the latest reading of the clock. */
  datatype State = State(entries: seq<Entry>, log: seq<Entry>, clock: int)

  predicate Accepts(s: State, op: Op) {
    match op
    case Handle(id, ts, checked, _) => Fresh(ts, checked) && !Holds(s.entries, id)
    case Remember(id, _) => !Holds(s.entries, id)
    case Sweep(_) => false
  }

  function Step(c: Config, s: State, op: Op): State
    requires c.Ok()
  {
    match op
    case Sweep(at) => State(Live(s.entries, at - c.ttl), s.log, at)
    case _ =>
      if Accepts(s, op) then
        State(Added(s.entries, op.id, op.at, c.ttl, c.max), s.log + [Entry(op.id, op.at)], op.at)
      else s.(clock := op.at)
  }

  /** The state after the first `n` operations of a run that starts with an empty cache. */
  function After(c: Config, ops: seq<Op>, n: nat): State
    requires c.Ok() && n <= |ops|
  {
    if n == 0 then State([], [], if ops == [] then 0 else ops[0].at) else Step(c, After(c, ops, n - 1), ops[n - 1])
  }

  /** The clock never goes back, and a message reaches the cache at most `stall` after its check. */
  ghost predicate WellTimed(ops: seq<Op>, stall: nat) {
    && (forall i, j :: 0 <= i < j < |ops| ==> ops[i].at <= ops[j].at)
    && (forall i :: 0 <= i < |ops| && ops[i].Handle? ==> ops[i].at - stall <= ops[i].checked <= ops[i].at)
  }

  // ----- The cache is a suffix of the log

  /** Entry `p` of the log was followed by `max` accepted IDs, all different from it and each other. */
  ghost predicate Displaced(log: seq<Entry>, p: nat, max: nat) {
    p + max < |log| && DistinctIds(log[p..p + max + 1])
  }

  ghost predicate Inv(c: Config, s: State, dropped: nat) {
    && dropped <= |s.log| && s.entries == s.log[dropped..]
    && |s.entries| <= c.max
    && DistinctIds(s.entries)
    && Sorted(s.log)
    && (s.log != [] ==> s.log[|s.log| - 1].at <= s.clock)
    && forall p :: 0 <= p < dropped ==> s.log[p].at < s.clock - c.ttl || Displaced(s.log, p, c.max)
  }

  /** Filtering a suffix of a log in arrival order leaves a shorter suffix. */
  lemma DropExpired(log: seq<Entry>, dropped: nat, cutoff: int) returns (d: nat)
    requires Sorted(log) && dropped <= |log|
    ensures dropped <= d <= |log| && Live(log[dropped..], cutoff) == log[d..]
    ensures forall p :: dropped <= p < d ==> log[p].at < cutoff
  {
    var es := log[dropped..];
    var k := LiveToIsSuffix(es, |es|, cutoff);
    d := dropped + k;
    assert es[k..] == log[d..];
    forall p | dropped <= p < d ensures log[p].at < cutoff {
      assert log[p] == es[p - dropped];
    }
  }

  lemma DistinctSuffix(log: seq<Entry>, dropped: nat, d: nat)
    requires dropped <= d <= |log| && DistinctIds(log[dropped..])
    ensures DistinctIds(log[d..])
  {
    assert log[d..] == log[dropped..][d - dropped..];
  }

  /** A sweep drops expired entries from the front. */
  lemma SweepKeeps(c: Config, s: State, dropped: nat, at: int) returns (d: nat)
    requires c.Ok() && Inv(c, s, dropped) && s.clock <= at
    ensures dropped <= d && Inv(c, State(Live(s.entries, at - c.ttl), s.log, at), d)
  {
    d := DropExpired(s.log, dropped, at - c.ttl);
    DistinctSuffix(s.log, dropped, d);
  }

  lemma AppendSorted(log: seq<Entry>, e: Entry)
    requires Sorted(log) && (log != [] ==> log[|log| - 1].at <= e.at)
    ensures Sorted(log + [e])
  {
  }

  lemma DisplacedStays(log: seq<Entry>, e: Entry, p: nat, max: nat)
    requires Displaced(log, p, max)
    ensures Displaced(log + [e], p, max)
  {
    assert (log + [e])[p..p + max + 1] == log[p..p + max + 1];
  }

  /** The oldest entry of a full cache is displaced by the next one. */
  lemma OldestDisplaced(log: seq<Entry>, dropped: nat, e: Entry, max: nat)
    requires |log| == dropped + max && DistinctIds(log[dropped..]) && !Holds(log[dropped..], e.id)
    ensures Displaced(log + [e], dropped, max)
  {
    assert (log + [e])[dropped..dropped + max + 1] == log[dropped..] + [e];
  }

  /** What making room drops is expired, or is displaced by the entry to come. */
  lemma RoomKeeps(c: Config, s: State, dropped: nat, id: Id, at: int) returns (d: nat)
    requires c.Ok() && Inv(c, s, dropped) && s.clock <= at && !Holds(s.entries, id)
    ensures dropped <= d <= |s.log| && |s.log| - d < c.max
    ensures Room(s.entries, at, c.ttl, c.max) == s.log[d..]
    ensures forall p :: dropped <= p < d ==>
      s.log[p].at < at - c.ttl || Displaced(s.log + [Entry(id, at)], p, c.max)
  {
    if |s.entries| < c.max {
      return dropped;
    }
    d := DropExpired(s.log, dropped, at - c.ttl);
    if d == dropped {
      OldestDisplaced(s.log, dropped, Entry(id, at), c.max);
      d := dropped + 1;
      assert s.log[dropped..][1..] == s.log[d..];
    }
  }

  lemma AddKeeps(c: Config, s: State, dropped: nat, id: Id, at: int) returns (d: nat)
    requires c.Ok() && Inv(c, s, dropped) && s.clock <= at && !Holds(s.entries, id)
    ensures dropped <= d
    ensures Inv(c, State(Added(s.entries, id, at, c.ttl, c.max), s.log + [Entry(id, at)], at), d)
  {
    var log := s.log + [Entry(id, at)];
    d := RoomKeeps(c, s, dropped, id, at);
    RoomAbsent(s.entries, at, c.ttl, c.max, id);
    AppendSorted(s.log, Entry(id, at));
    assert log[d..] == s.log[d..] + [Entry(id, at)];
    DistinctSuffix(s.log, dropped, d);
    forall p | 0 <= p < d ensures log[p].at < at - c.ttl || Displaced(log, p, c.max) {
      if p < dropped && Displaced(s.log, p, c.max) { DisplacedStays(s.log, Entry(id, at), p, c.max); }
    }
  }

  lemma StepKeeps(c: Config, s: State, dropped: nat, op: Op) returns (d: nat)
    requires c.Ok() && Inv(c, s, dropped) && s.clock <= op.at
    ensures Inv(c, Step(c, s, op), d) && Step(c, s, op).clock == op.at
  {
    d := dropped;
    if op.Sweep? {
      d := SweepKeeps(c, s, dropped, op.at);
    } else if Accepts(s, op) {
      d := AddKeeps(c, s, dropped, op.id, op.at);
    }
  }

  lemma {:induction false} InvAlways(c: Config, ops: seq<Op>, n: nat, stall: nat) returns (d: nat)
    requires c.Ok() && WellTimed(ops, stall) && n <= |ops|
    ensures Inv(c, After(c, ops, n), d)
    ensures n < |ops| ==> After(c, ops, n).clock <= ops[n].at
    ensures n > 0 ==> After(c, ops, n).clock == ops[n - 1].at
  {
    if n == 0 {
      d := 0;
    } else {
      d := InvAlways(c, ops, n - 1, stall);
      d := StepKeeps(c, After(c, ops, n - 1), d, ops[n - 1]);
    }
  }

  /**
   After any run the cache is a contiguous suffix of the log of accepted IDs, without duplicates, in
   arrival order and within its bound.
   */
  lemma SeenIsLogSuffix(c: Config, ops: seq<Op>, n: nat, stall: nat)
    requires c.Ok() && WellTimed(ops, stall) && n <= |ops|
    ensures var s := After(c, ops, n);
      && |s.entries| <= |s.log| && s.entries == s.log[|s.log| - |s.entries|..]
      && DistinctIds(s.entries) && Sorted(s.entries) && |s.entries| <= c.max
  {
    var d := InvAlways(c, ops, n, stall);
  }

  // ----- At most once over time

  /** Operation `i` routes this message and the cache lets it through. */
  ghost predicate Routed(c: Config, ops: seq<Op>, i: nat, id: Id, timestamp: int)
    requires c.Ok()
  {
    && i < |ops| && ops[i].Handle? && ops[i].id == id && ops[i].timestamp == timestamp
    && Accepts(After(c, ops, i), ops[i])
  }

  /**
   Routing one message twice takes at least `max` different other IDs in between, all accepted
   directly after its first acceptance.
   */
  ghost predicate OncePerFlood(c: Config, stall: nat)
    requires c.Ok()
  {
    forall ops, i, j, id, ts ::
      WellTimed(ops, stall) && 0 <= i < j && Routed(c, ops, i, id, ts) && Routed(c, ops, j, id, ts)
      ==> Displaced(After(c, ops, j).log, |After(c, ops, i).log|, c.max)
  }

  lemma {:induction false} LogGrows(c: Config, ops: seq<Op>, i: nat, j: nat)
    requires c.Ok() && i <= j <= |ops|
    ensures After(c, ops, i).log <= After(c, ops, j).log
    decreases j
  {
    if i < j { LogGrows(c, ops, i, j - 1); }
  }

  lemma SuffixHolds(log: seq<Entry>, d: nat)
    requires d <= |log|
    ensures forall p :: d <= p < |log| ==> Holds(log[d..], log[p].id)
  {
    forall p | d <= p < |log| ensures Holds(log[d..], log[p].id) {
      assert log[d..][p - d] == log[p];
    }
  }

  lemma RoutedTwice(c: Config, ops: seq<Op>, stall: nat, i: nat, j: nat, id: Id, ts: int)
    requires c.Ok() && c.ttl >= MAX_FUTURE_SKEW + MAX_PAST_SKEW + stall
    requires WellTimed(ops, stall) && i < j && Routed(c, ops, i, id, ts) && Routed(c, ops, j, id, ts)
    ensures Displaced(After(c, ops, j).log, |After(c, ops, i).log|, c.max)
  {
    var s, p := After(c, ops, j), |After(c, ops, i).log|;
    LogGrows(c, ops, i + 1, j);
    assert s.log[p] == After(c, ops, i + 1).log[p] == Entry(id, ops[i].at);
    var d := InvAlways(c, ops, j, stall);
    SuffixHolds(s.log, d);
    assert s.clock == ops[j - 1].at <= ops[j].at <= ops[j].checked + stall;
  }

  /** A run in which expiry alone readmits a message whose timestamp is still accepted. */
  function ReplayRun(ttl: int, ts: int): seq<Op> {
    var first := ts * SECOND - MAX_FUTURE_SKEW;
    var swept := first + ttl + 1;
    var latest := ts * SECOND + MAX_PAST_SKEW;
    [Handle("x", ts, first, first), Sweep(swept),
     Handle("x", ts, if swept <= latest then swept else latest, swept)]
  }

  /** The message is recorded, and swept before it comes again. */
  lemma ReplayStates(c: Config, ops: seq<Op>, e: Entry)
    requires c.Ok() && ops == ReplayRun(c.ttl, 1) && e == Entry("x", ops[0].at)
    ensures After(c, ops, 0) == State([], [], e.at)
    ensures After(c, ops, 2) == State([], [e], ops[1].at)
  {
    assert After(c, ops, 0) == State([], [], e.at);
    assert Step(c, After(c, ops, 0), ops[0]) == State([e], [e], e.at);
    assert After(c, ops, 1) == State([e], [e], e.at);
    LiveOne(e, ops[1].at - c.ttl);
  }

  lemma Replay(c: Config, stall: nat)
    requires c.Ok() && c.ttl < MAX_FUTURE_SKEW + MAX_PAST_SKEW + stall
    ensures !OncePerFlood(c, stall)
  {
    var ops := ReplayRun(c.ttl, 1);
    assert WellTimed(ops, stall);
    ReplayStates(c, ops, Entry("x", ops[0].at));
    assert Routed(c, ops, 0, "x", 1) && Routed(c, ops, 2, "x", 1);
    assert !Displaced(After(c, ops, 2).log, |After(c, ops, 0).log|, c.max);
  }

  lemma LiveOne(e: Entry, cutoff: int)
    ensures Live([e], cutoff) == if e.at < cutoff then [] else [e]
  {
    assert LiveTo([e], 0, cutoff) == [];
  }

  /**
   The retention time has to cover the whole window of accepted timestamps, plus the longest delay
   between the timestamp check and the cache: then, and only then, expiry never readmits a message.
   */
  lemma AtMostOnceExact(c: Config, stall: nat)
    requires c.Ok()
    ensures OncePerFlood(c, stall) <==> c.ttl >= MAX_FUTURE_SKEW + MAX_PAST_SKEW + stall
  {
    if c.ttl >= MAX_FUTURE_SKEW + MAX_PAST_SKEW + stall {
      forall ops, i, j, id, ts |
        WellTimed(ops, stall) && 0 <= i < j && Routed(c, ops, i, id, ts) && Routed(c, ops, j, id, ts)
        ensures Displaced(After(c, ops, j).log, |After(c, ops, i).log|, c.max)
      {
        RoutedTwice(c, ops, stall, i, j, id, ts);
      }
    } else {
      Replay(c, stall);
    }
  }
}
