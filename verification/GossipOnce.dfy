/**
 At most once over time, for every node of a network: what one node's cache goes through in a run of
 the network is a run of the cache alone, so the retention time that keeps a single cache from
 readmitting a fresh message keeps all of them from delivering one twice.
 */
module GossipOnce {
  import opened Basics
  import opened Messages
  import opened SeenStores
  import opened Gossip
  import SeenRuns

  // ----- One node's part of a run

  /** What a step of the network does to the cache of one node. */
  function OpAt(n: Net, s: Gossip.Step, v: Node): Option<SeenRuns.Op>
    requires Gossip.Enabled(n, s)
  {
    match s
    case Inject(id, ts, u, checked, now) => if u == v then Some(SeenRuns.Handle(id, ts, checked, now)) else None
    case Receive(id, a, checked, now) =>
      if a.dst == v then Some(SeenRuns.Handle(id, n.traffic[id].timestamp, checked, now)) else None
    case Sweep(u, now) => if u == v then Some(SeenRuns.Sweep(now)) else None
    case _ => None
  }

  /** The cache of a node, the log of the IDs it has accepted, and its clock, which starts at `boot`. */
  function NodeState(c: Config, run: Run, v: Node, boot: int): SeenRuns.State
    requires c.Ok() && Play(c, run).Some?
  {
    match run
    case Boot(_, _) => SeenRuns.State([], [], boot)
    case Then(earlier, s) =>
      match OpAt(Play(c, earlier).value, s, v)
      case None => NodeState(c, earlier, v, boot)
      case Some(op) => SeenRuns.Step(c, NodeState(c, earlier, v, boot), op)
  }

  /** The node's clock never goes back, and a message reaches the cache at most `stall` after its check. */
  predicate InTime(op: SeenRuns.Op, clock: int, stall: nat) {
    clock <= op.at && (op.Handle? ==> op.at - stall <= op.checked <= op.at)
  }

  predicate Timed(c: Config, run: Run, v: Node, boot: int, stall: nat)
    requires c.Ok() && Play(c, run).Some?
  {
    match run
    case Boot(_, _) => true
    case Then(earlier, s) =>
      var op := OpAt(Play(c, earlier).value, s, v);
      Timed(c, earlier, v, boot, stall) && (op.Some? ==> InTime(op.value, NodeState(c, earlier, v, boot).clock, stall))
  }

  lemma CacheStep(c: Config, n: Net, s: Gossip.Step, v: Node, st: SeenRuns.State)
    requires c.Ok() && Gossip.Enabled(n, s) && v in n.caches && st.entries == n.caches[v]
    ensures v in Apply(c, n, s).caches
    ensures OpAt(n, s, v) == None ==> Apply(c, n, s).caches[v] == n.caches[v]
    ensures OpAt(n, s, v).Some? ==> SeenRuns.Step(c, st, OpAt(n, s, v).value).entries == Apply(c, n, s).caches[v]
  {
  }

  /** The cache of a node in the network is the one its own operations lead to. */
  lemma {:induction false} NodeCache(c: Config, run: Run, v: Node, boot: int)
    requires c.Ok() && Play(c, run).Some? && v in NodesOf(run)
    ensures v in Play(c, run).value.caches && NodeState(c, run, v, boot).entries == Play(c, run).value.caches[v]
  {
    match run
    case Boot(_, _) =>
    case Then(earlier, s) =>
      NodeCache(c, earlier, v, boot);
      CacheStep(c, Play(c, earlier).value, s, v, NodeState(c, earlier, v, boot));
  }

  // ----- Deliveries are acceptances

  function CountId(log: seq<Entry>, id: Id): nat {
    if log == [] then 0 else CountId(log[..|log| - 1], id) + (if log[|log| - 1].id == id then 1 else 0)
  }

  lemma CountSnoc(log: seq<Entry>, e: Entry, id: Id)
    ensures CountId(log + [e], id) == CountId(log, id) + (if e.id == id then 1 else 0)
  {
    assert (log + [e])[..|log|] == log;
  }

  /** Deliveries of a message at a node; none before it exists. */
  function Delivered(n: Net, id: Id, v: Node): nat {
    if id in n.traffic then n.traffic[id].delivered[v] else 0
  }

  /** The ID a step makes a node accept. */
  predicate AcceptsAt(n: Net, s: Gossip.Step, v: Node, id: Id)
    requires Gossip.Enabled(n, s)
  {
    && v in n.caches && !Holds(n.caches[v], id)
    && ((s.Inject? && s.id == id && s.v == v) || (s.Receive? && s.id == id && s.copy.dst == v))
  }

  lemma DeliveryStep(c: Config, n: Net, s: Gossip.Step, v: Node, id: Id)
    requires c.Ok() && Gossip.Enabled(n, s) && v in n.caches && (Holds(n.caches[v], id) ==> id in n.traffic)
    ensures Delivered(Apply(c, n, s), id, v) == Delivered(n, id, v) + (if AcceptsAt(n, s, v, id) then 1 else 0)
  {
    if s.Receive? {
      ReceiveDelivers(c, n, s, v, id);
    } else if !s.Inject? {
      assert !AcceptsAt(n, s, v, id);
    }
  }

  lemma ReceiveDelivers(c: Config, n: Net, s: Gossip.Step, v: Node, id: Id)
    requires c.Ok() && Gossip.Enabled(n, s) && s.Receive?
    ensures Delivered(Apply(c, n, s), id, v) == Delivered(n, id, v) + (if AcceptsAt(n, s, v, id) then 1 else 0)
  {
    assert id != s.id ==> Delivered(Apply(c, n, s), id, v) == Delivered(n, id, v);
  }

  lemma LogStep(c: Config, n: Net, s: Gossip.Step, v: Node, id: Id, st: SeenRuns.State)
    requires c.Ok() && Gossip.Enabled(n, s) && v in n.caches && st.entries == n.caches[v] && OpAt(n, s, v).Some?
    ensures CountId(SeenRuns.Step(c, st, OpAt(n, s, v).value).log, id)
         == CountId(st.log, id) + (if AcceptsAt(n, s, v, id) then 1 else 0)
  {
    var op := OpAt(n, s, v).value;
    if !op.Sweep? {
      CountSnoc(st.log, Entry(op.id, op.at), id);
    }
  }

  lemma {:induction false} DeliveriesLogged(c: Config, run: Run, v: Node, boot: int, id: Id)
    requires c.Ok() && Play(c, run).Some? && v in NodesOf(run)
    ensures Delivered(Play(c, run).value, id, v) == CountId(NodeState(c, run, v, boot).log, id)
  {
    match run
    case Boot(_, _) =>
    case Then(earlier, s) =>
      var n, st := Play(c, earlier).value, NodeState(c, earlier, v, boot);
      DeliveriesLogged(c, earlier, v, boot, id);
      NodeCache(c, earlier, v, boot);
      KnownAlways(c, earlier);
      DeliveryStep(c, n, s, v, id);
      if OpAt(n, s, v).Some? {
        LogStep(c, n, s, v, id, st);
      }
  }

  // ----- Acceptances are far apart

  /** An ID that was accepted twice was followed, after the first time, by `max` other IDs. */
  ghost predicate Apart(log: seq<Entry>, id: Id, max: nat) {
    forall p, q :: 0 <= p < q < |log| && log[p].id == id && log[q].id == id ==> SeenRuns.Displaced(log, p, max)
  }

  /** It was accepted no earlier than its timestamp allows. */
  ghost predicate NotBefore(log: seq<Entry>, id: Id, timestamp: int) {
    forall p :: 0 <= p < |log| && log[p].id == id ==> timestamp * SECOND - MAX_FUTURE_SKEW <= log[p].at
  }

  ghost predicate OnceInv(c: Config, s: SeenRuns.State, dropped: nat, id: Id, timestamp: int) {
    SeenRuns.Inv(c, s, dropped) && Apart(s.log, id, c.max) && NotBefore(s.log, id, timestamp)
  }

  lemma ApartOther(log: seq<Entry>, e: Entry, id: Id, max: nat)
    requires Apart(log, id, max)
    requires forall p :: 0 <= p < |log| && log[p].id == id && e.id == id ==> SeenRuns.Displaced(log, p, max)
    ensures Apart(log + [e], id, max)
  {
    var log' := log + [e];
    forall p, q | 0 <= p < q < |log'| && log'[p].id == id && log'[q].id == id
      ensures SeenRuns.Displaced(log', p, max)
    {
      assert log'[p] == log[p];
      SeenRuns.DisplacedStays(log, e, p, max);
    }
  }

  /** A message that is fresh and not held has not expired, so it has been displaced. */
  lemma FreshIsDisplaced(c: Config, s: SeenRuns.State, dropped: nat, op: SeenRuns.Op, stall: nat, p: nat)
    requires c.Ok() && c.ttl >= MAX_FUTURE_SKEW + MAX_PAST_SKEW + stall
    requires op.Handle? && SeenRuns.Accepts(s, op) && InTime(op, s.clock, stall)
    requires OnceInv(c, s, dropped, op.id, op.timestamp) && p < |s.log| && s.log[p].id == op.id
    ensures SeenRuns.Displaced(s.log, p, c.max)
  {
    SeenRuns.SuffixHolds(s.log, dropped);
    assert p < dropped;
  }

  lemma OnceStep(c: Config, s: SeenRuns.State, dropped: nat, op: SeenRuns.Op, stall: nat, id: Id, timestamp: int)
    returns (d: nat)
    requires c.Ok() && c.ttl >= MAX_FUTURE_SKEW + MAX_PAST_SKEW + stall
    requires OnceInv(c, s, dropped, id, timestamp) && InTime(op, s.clock, stall)
    requires !op.Remember? && (op.Handle? && op.id == id ==> op.timestamp == timestamp)
    ensures OnceInv(c, SeenRuns.Step(c, s, op), d, id, timestamp)
  {
    d := SeenRuns.StepKeeps(c, s, dropped, op);
    if SeenRuns.Accepts(s, op) {
      forall p | 0 <= p < |s.log| && s.log[p].id == id && op.id == id ensures SeenRuns.Displaced(s.log, p, c.max) {
        FreshIsDisplaced(c, s, dropped, op, stall, p);
      }
      ApartOther(s.log, Entry(op.id, op.at), id, c.max);
    }
  }

  /** A message keeps its timestamp. */
  lemma {:induction false} TimestampStays(c: Config, n: Net, s: Gossip.Step, id: Id)
    requires c.Ok() && Gossip.Enabled(n, s) && id in n.traffic
    ensures id in Apply(c, n, s).traffic && Apply(c, n, s).traffic[id].timestamp == n.traffic[id].timestamp
  {
  }

  /** The timestamp of a message, known once it exists. */
  ghost predicate Stamped(n: Net, id: Id, timestamp: int) {
    id in n.traffic ==> n.traffic[id].timestamp == timestamp
  }

  lemma {:induction false} OnceAlways(c: Config, run: Run, v: Node, boot: int, stall: nat, id: Id, timestamp: int)
    returns (d: nat)
    requires c.Ok() && Play(c, run).Some? && c.ttl >= MAX_FUTURE_SKEW + MAX_PAST_SKEW + stall
    requires Timed(c, run, v, boot, stall) && Stamped(Play(c, run).value, id, timestamp)
    ensures OnceInv(c, NodeState(c, run, v, boot), d, id, timestamp)
  {
    if run.Boot? {
      d := 0;
    } else {
      var n, s := Play(c, run.earlier).value, run.s;
      if id in n.traffic {
        TimestampStays(c, n, s, id);
      }
      d := OnceAlways(c, run.earlier, v, boot, stall, id, timestamp);
      var op := OpAt(n, s, v);
      if op.Some? {
        assert op.value.Handle? && op.value.id == id ==> op.value.timestamp == timestamp;
        d := OnceStep(c, NodeState(c, run.earlier, v, boot), d, op.value, stall, id, timestamp);
      }
    }
  }

  // ----- Results

  lemma {:induction false} CountedTwice(log: seq<Entry>, id: Id) returns (p: nat, q: nat)
    requires CountId(log, id) >= 2
    ensures p < q < |log| && log[p].id == id && log[q].id == id
  {
    var init := log[..|log| - 1];
    if CountId(init, id) >= 2 {
      p, q := CountedTwice(init, id);
    } else {
      p := CountedOnce(init, id);
      q := |log| - 1;
    }
  }

  lemma {:induction false} CountedOnce(log: seq<Entry>, id: Id) returns (p: nat)
    requires CountId(log, id) >= 1
    ensures p < |log| && log[p].id == id
  {
    if log[|log| - 1].id == id {
      p := |log| - 1;
    } else {
      p := CountedOnce(log[..|log| - 1], id);
    }
  }

  /**
   In every run of the network, with any loss, delay, sweeps and changing links: a node whose retention
   time covers the window of accepted timestamps delivers a message again only after it has accepted
   `max` different other IDs directly after the message.
   */
  lemma NetworkAtMostOnce(c: Config, run: Run, v: Node, boot: int, stall: nat, id: Id)
    requires c.Ok() && Play(c, run).Some? && c.ttl >= MAX_FUTURE_SKEW + MAX_PAST_SKEW + stall
    requires v in NodesOf(run) && Timed(c, run, v, boot, stall)
    ensures Delivered(Play(c, run).value, id, v) == CountId(NodeState(c, run, v, boot).log, id)
    ensures Apart(NodeState(c, run, v, boot).log, id, c.max)
    ensures Delivered(Play(c, run).value, id, v) >= 2 ==>
      var log := NodeState(c, run, v, boot).log;
      exists p :: 0 <= p < |log| && log[p].id == id && SeenRuns.Displaced(log, p, c.max)
  {
    var n := Play(c, run).value;
    var log := NodeState(c, run, v, boot).log;
    DeliveriesLogged(c, run, v, boot, id);
    var d := OnceAlways(c, run, v, boot, stall, id, if id in n.traffic then n.traffic[id].timestamp else 0);
    if CountId(log, id) >= 2 {
      var p, q := CountedTwice(log, id);
      assert log[p].id == id && SeenRuns.Displaced(log, p, c.max);
    }
  }

  lemma {:induction false} LoggedCounts(log: seq<Entry>, p: nat)
    requires p < |log|
    ensures CountId(log, log[p].id) >= 1
  {
    if p < |log| - 1 {
      LoggedCounts(log[..|log| - 1], p);
    }
  }

  /** A node accepts only IDs of messages. */
  lemma LogKnown(c: Config, run: Run, v: Node, boot: int, p: nat)
    requires c.Ok() && Play(c, run).Some? && v in NodesOf(run) && p < |NodeState(c, run, v, boot).log|
    ensures NodeState(c, run, v, boot).log[p].id in Play(c, run).value.traffic
  {
    var log := NodeState(c, run, v, boot).log;
    LoggedCounts(log, p);
    DeliveriesLogged(c, run, v, boot, log[p].id);
  }

  lemma DisplacedByMany(log: seq<Entry>, p: nat, max: nat, ids: set<Id>)
    requires SeenRuns.Displaced(log, p, max) && forall i :: 0 <= i < |log| ==> log[i].id in ids
    ensures |ids| > max
  {
    var others := log[p..p + max + 1];
    DistinctSize(others);
    forall x | x in IdSet(others) ensures x in ids {
      var i :| 0 <= i < |others| && others[i].id == x;
      assert others[i] == log[p + i];
    }
    SubsetCount(IdSet(others), ids);
  }

  /** With sufficient retention and no more messages than a cache has entries, nobody delivers a message
      twice, however long the run and whatever is swept, lost or reconnected. */
  lemma RoomForOnce(c: Config, run: Run, v: Node, boot: int, stall: nat, id: Id)
    requires c.Ok() && Play(c, run).Some? && c.ttl >= MAX_FUTURE_SKEW + MAX_PAST_SKEW + stall
    requires v in NodesOf(run) && Timed(c, run, v, boot, stall)
    requires |Play(c, run).value.traffic| <= c.max
    ensures Delivered(Play(c, run).value, id, v) <= 1
  {
    var n, log := Play(c, run).value, NodeState(c, run, v, boot).log;
    NetworkAtMostOnce(c, run, v, boot, stall, id);
    if Delivered(n, id, v) >= 2 {
      var p :| 0 <= p < |log| && log[p].id == id && SeenRuns.Displaced(log, p, c.max);
      forall i | 0 <= i < |log| ensures log[i].id in n.traffic.Keys {
        LogKnown(c, run, v, boot, i);
      }
      DisplacedByMany(log, p, c.max, n.traffic.Keys);
    }
  }

  /** No node of any network accepts a message again without `max` others in between. */
  ghost predicate OncePerNode(c: Config, stall: nat)
    requires c.Ok()
  {
    forall run, v, boot, id {:trigger NodeState(c, run, v, boot), Apart(NodeState(c, run, v, boot).log, id, c.max)} ::
      Play(c, run).Some? && v in NodesOf(run) && Timed(c, run, v, boot, stall)
      ==> Apart(NodeState(c, run, v, boot).log, id, c.max)
  }

  // ----- Shorter retention is not enough

  function Trio(): set<Node> {
    {"a", "b", "c"}
  }

  /** All three are linked. */
  function Triangle(): set<Arc> {
    {Floods.Arc("a", "b"), Floods.Arc("b", "a"), Floods.Arc("a", "c"), Floods.Arc("c", "a"),
     Floods.Arc("b", "c"), Floods.Arc("c", "b")}
  }

  /** Message "x" is under way among the three: these caches are empty, these copies and broadcasts outstanding. */
  ghost predicate Ready(n: Net, empty: set<Node>, flight: set<Arc>, pending: set<Work>) {
    && n.arcs == Triangle() && n.caches.Keys == Trio() && "x" in n.traffic && n.traffic["x"].timestamp == 1
    && (forall v :: v in empty ==> v in n.caches && n.caches[v] == [])
    && (forall a :: a in flight ==> a in n.traffic["x"].flight)
    && (forall w :: w in pending ==> w in n.traffic["x"].pending)
  }

  /** A run that gets there, in which the cache of "c" has come to this state. */
  ghost predicate Stage(c: Config, stall: nat, run: Run, st: SeenRuns.State,
                        empty: set<Node>, flight: set<Arc>, pending: set<Work>)
    requires c.Ok()
  {
    && NodesOf(run) == Trio() && Play(c, run).Some? && Ready(Play(c, run).value, empty, flight, pending)
    && NodeState(c, run, "c", EARLIEST) == st && Timed(c, run, "c", EARLIEST, stall)
  }

  /** When a message made in second 1 is accepted first, and last. */
  const EARLIEST := SECOND - MAX_FUTURE_SKEW
  const LATEST := SECOND + MAX_PAST_SKEW

  lemma Injected(c: Config, stall: nat) returns (run: Run)
    requires c.Ok()
    ensures Stage(c, stall, run, SeenRuns.State([], [], EARLIEST), {"b", "c"}, {}, {Floods.Work("a", None)})
  {
    var boot := Boot(Trio(), Triangle());
    var n := Play(c, boot).value;
    run := Then(boot, Inject("x", 1, "a", SECOND, SECOND));
    assert n.caches.Keys == Trio();
    assert Apply(c, n, run.s).caches.Keys == Trio();
  }

  lemma ReadyForwarded(c: Config, n: Net, empty: set<Node>, flight: set<Arc>, w: Work, more: set<Arc>)
    requires c.Ok() && Ready(n, empty, flight, {w}) && more <= Floods.Copies(Triangle(), w)
    ensures Gossip.Enabled(n, Forward("x", w)) && OpAt(n, Forward("x", w), "c") == None
    ensures Ready(Apply(c, n, Forward("x", w)), empty, flight + more, {})
  {
    var m := Apply(c, n, Forward("x", w));
    assert m.arcs == n.arcs && m.caches == n.caches;
    assert m.traffic["x"].flight == n.traffic["x"].flight + multiset(Floods.Copies(Triangle(), w));
  }

  lemma Forwarded(c: Config, stall: nat, r: Run, st: SeenRuns.State, empty: set<Node>, flight: set<Arc>, w: Work, more: set<Arc>)
    returns (run: Run)
    requires c.Ok() && Stage(c, stall, r, st, empty, flight, {w}) && more <= Floods.Copies(Triangle(), w)
    ensures Stage(c, stall, run, st, empty, flight + more, {})
  {
    run := Then(r, Forward("x", w));
    ReadyForwarded(c, Play(c, r).value, empty, flight, w, more);
  }

  lemma ReadyReceived(c: Config, n: Net, empty: set<Node>, flight: set<Arc>, a: Arc, checked: int, now: int)
    requires c.Ok() && Ready(n, empty, flight, {}) && a in flight && a.dst in empty && Fresh(1, checked)
    ensures var s := Receive("x", a, checked, now);
      && Gossip.Enabled(n, s)
      && Ready(Apply(c, n, s), empty - {a.dst}, flight - {a}, {Floods.Work(a.dst, Some(a.src))})
  {
    var m := Apply(c, n, Receive("x", a, checked, now));
    assert m.caches.Keys == n.caches.Keys;
  }

  /** A copy arrives at another node. */
  lemma ReceivedElsewhere(c: Config, stall: nat, r: Run, st: SeenRuns.State, empty: set<Node>, flight: set<Arc>, a: Arc)
    returns (run: Run)
    requires c.Ok() && Stage(c, stall, r, st, empty, flight, {}) && a in flight && a.dst in empty && a.dst != "c"
    ensures Stage(c, stall, run, st, empty - {a.dst}, flight - {a}, {Floods.Work(a.dst, Some(a.src))})
  {
    run := Then(r, Receive("x", a, SECOND, SECOND));
    ReadyReceived(c, Play(c, r).value, empty, flight, a, SECOND, SECOND);
  }

  /** What a copy does to an empty cache, and a late sweep to a cache with one entry. */
  lemma CacheSteps(c: Config, log: seq<Entry>, clock: int, checked: int, now: int)
    requires c.Ok()
    ensures Fresh(1, checked) ==>
      SeenRuns.Step(c, SeenRuns.State([], log, clock), SeenRuns.Handle("x", 1, checked, now))
      == SeenRuns.State([Entry("x", now)], log + [Entry("x", now)], now)
    ensures clock < now - c.ttl ==>
      SeenRuns.Step(c, SeenRuns.State([Entry("x", clock)], log, clock), SeenRuns.Sweep(now))
      == SeenRuns.State([], log, now)
  {
    assert [] + [Entry("x", now)] == [Entry("x", now)];
    SeenRuns.LiveOne(Entry("x", clock), now - c.ttl);
  }

  /** A copy arrives at "c", which does not hold the ID. */
  lemma ReceivedHere(c: Config, stall: nat, r: Run, log: seq<Entry>, clock: int, flight: set<Arc>, a: Arc, checked: int, now: int)
    returns (run: Run)
    requires c.Ok() && Stage(c, stall, r, SeenRuns.State([], log, clock), {"c"}, flight, {}) && a in flight && a.dst == "c"
    requires Fresh(1, checked) && now - stall <= checked <= now && clock <= now
    ensures Stage(c, stall, run, SeenRuns.State([Entry("x", now)], log + [Entry("x", now)], now), {}, flight - {a}, {})
  {
    var n := Play(c, r).value;
    run := Then(r, Receive("x", a, checked, now));
    ReadyReceived(c, n, {"c"}, flight, a, checked, now);
    assert OpAt(n, run.s, "c") == Some(SeenRuns.Handle("x", 1, checked, now));
    CacheSteps(c, log, clock, checked, now);
  }

  lemma ReadySwept(c: Config, n: Net, flight: set<Arc>, at: int, now: int)
    requires c.Ok() && Ready(n, {}, flight, {}) && n.caches["c"] == [Entry("x", at)] && at < now - c.ttl
    ensures Ready(Apply(c, n, Gossip.Sweep("c", now)), {"c"}, flight, {})
  {
    var m := Apply(c, n, Gossip.Sweep("c", now));
    SeenRuns.LiveOne(Entry("x", at), now - c.ttl);
    assert m.caches.Keys == n.caches.Keys;
  }

  /** The cache of "c" is swept after its entry has expired. */
  lemma SweptHere(c: Config, stall: nat, r: Run, log: seq<Entry>, at: int, flight: set<Arc>, now: int)
    returns (run: Run)
    requires c.Ok() && Stage(c, stall, r, SeenRuns.State([Entry("x", at)], log, at), {}, flight, {}) && at < now - c.ttl
    ensures Stage(c, stall, run, SeenRuns.State([], log, now), {"c"}, flight, {})
  {
    var n := Play(c, r).value;
    run := Then(r, Gossip.Sweep("c", now));
    NodeCache(c, r, "c", EARLIEST);
    ReadySwept(c, n, flight, at, now);
    assert OpAt(n, run.s, "c") == Some(SeenRuns.Sweep(now));
    CacheSteps(c, log, at, 0, now);
  }

  lemma CopiesOf(v: Node, from: Option<Node>, dst: Node)
    requires Floods.Arc(v, dst) in Triangle() && from != Some(dst)
    ensures Floods.Arc(v, dst) in Floods.Copies(Triangle(), Floods.Work(v, from))
  {
  }

  /** "a" sends its message to both others. */
  lemma SentOut(c: Config, stall: nat) returns (run: Run)
    requires c.Ok()
    ensures Stage(c, stall, run, SeenRuns.State([], [], EARLIEST), {"b", "c"}, {Floods.Arc("a", "b"), Floods.Arc("a", "c")}, {})
  {
    var both := {Floods.Arc("a", "b"), Floods.Arc("a", "c")};
    CopiesOf("a", None, "b");
    CopiesOf("a", None, "c");
    var r := Injected(c, stall);
    run := Forwarded(c, stall, r, SeenRuns.State([], [], EARLIEST), {"b", "c"}, {}, Floods.Work("a", None), both);
    assert {} + both == both;
  }

  /** It arrives at "b". */
  lemma SentOnce(c: Config, stall: nat) returns (run: Run)
    requires c.Ok()
    ensures Stage(c, stall, run, SeenRuns.State([], [], EARLIEST), {"c"}, {Floods.Arc("a", "c")}, {Floods.Work("b", Some("a"))})
  {
    var ab, ac := Floods.Arc("a", "b"), Floods.Arc("a", "c");
    var r := SentOut(c, stall);
    run := ReceivedElsewhere(c, stall, r, SeenRuns.State([], [], EARLIEST), {"b", "c"}, {ab, ac}, ab);
    assert {"b", "c"} - {"b"} == {"c"} && {ab, ac} - {ab} == {ac};
  }

  /** Node "c" is sent the message of "a" twice: by "a" and by "b". */
  lemma SentTwice(c: Config, stall: nat) returns (run: Run)
    requires c.Ok()
    ensures Stage(c, stall, run, SeenRuns.State([], [], EARLIEST), {"c"}, {Floods.Arc("a", "c"), Floods.Arc("b", "c")}, {})
  {
    var ac, bc := Floods.Arc("a", "c"), Floods.Arc("b", "c");
    CopiesOf("b", Some("a"), "c");
    var r := SentOnce(c, stall);
    run := Forwarded(c, stall, r, SeenRuns.State([], [], EARLIEST), {"c"}, {ac}, Floods.Work("b", Some("a")), {bc});
    assert {ac} + {bc} == {ac, bc};
  }

  /** It accepts the first copy as early as it can, sweeps, and receives the second as late as it can. */
  lemma NetworkReplay(c: Config, stall: nat)
    requires c.Ok() && c.ttl < MAX_FUTURE_SKEW + MAX_PAST_SKEW + stall
    ensures !OncePerNode(c, stall)
  {
    var ac, bc, swept := Floods.Arc("a", "c"), Floods.Arc("b", "c"), EARLIEST + c.ttl + 1;
    var r0 := SentTwice(c, stall);
    var r1 := ReceivedHere(c, stall, r0, [], EARLIEST, {ac, bc}, ac, EARLIEST, EARLIEST);
    assert {ac, bc} - {ac} == {bc} && [] + [Entry("x", EARLIEST)] == [Entry("x", EARLIEST)];
    var r2 := SweptHere(c, stall, r1, [Entry("x", EARLIEST)], EARLIEST, {bc}, swept);
    var r3 := ReceivedHere(c, stall, r2, [Entry("x", EARLIEST)], swept, {bc}, bc, Min(swept, LATEST), swept);
    TwiceInARow(EARLIEST, swept, c.max);
    assert !Apart(NodeState(c, r3, "c", EARLIEST).log, "x", c.max);
  }

  lemma TwiceInARow(t: int, u: int, max: nat)
    requires max > 0
    ensures !Apart([Entry("x", t)] + [Entry("x", u)], "x", max)
  {
    var log := [Entry("x", t)] + [Entry("x", u)];
    assert log[0].id == log[1].id == "x";
    assert !SeenRuns.Displaced(log, 0, max);
  }

  /**
   Exactly how long caches must retain IDs: no node of any network delivers a message again without
   `max` others in between, in any run, if and only if the retention time covers the whole window of
   accepted timestamps plus the longest delay between timestamp check and cache.
   */
  lemma NetworkAtMostOnceExact(c: Config, stall: nat)
    requires c.Ok()
    ensures OncePerNode(c, stall) <==> c.ttl >= MAX_FUTURE_SKEW + MAX_PAST_SKEW + stall
  {
    if c.ttl >= MAX_FUTURE_SKEW + MAX_PAST_SKEW + stall {
      forall run, v, boot, id | Play(c, run).Some? && v in NodesOf(run) && Timed(c, run, v, boot, stall)
        ensures Apart(NodeState(c, run, v, boot).log, id, c.max)
      {
        NetworkAtMostOnce(c, run, v, boot, stall, id);
      }
    } else {
      NetworkReplay(c, stall);
    }
  }
}
