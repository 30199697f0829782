/**
 Many floods at once over real caches: each node filters with its bounded, expiring seen cache, and
 any number of messages are under way together. Every message, taken alone, is a flood of the
 single-ID model in which a node forgets the ID when its cache drops it.
 */
module Gossip {
  import opened Basics
  import opened SeenStores
  import Messages
  import Floods

  type Node = Floods.Node
  type Arc = Floods.Arc
  type Work = Floods.Work

  /** When a message was made, what is under way, and what has happened. */
  datatype Traffic = Traffic(
    timestamp: int, pending: multiset<Work>, flight: multiset<Arc>, delivered: multiset<Node>, sent: nat, received: nat, lost: nat)

  datatype Net = Net(arcs: set<Arc>, caches: map<Node, seq<Entry>>, traffic: map<Id, Traffic>)

  /** A node reads its clock to check a timestamp, and again when the message reaches the cache (`now`).
      `Stale` is a copy that arrives when its timestamp is no longer, or not yet, accepted. */
  datatype Step =
    | Inject(id: Id, timestamp: int, v: Node, checked: int, now: int)
    | Receive(id: Id, copy: Arc, checked: int, now: int)
    | Stale(id: Id, copy: Arc, checked: int)
    | Forward(id: Id, work: Work)
    | Lose(id: Id, copy: Arc)
    | Sweep(v: Node, now: int)
    | Close(a: Node, b: Node)
    | Open(a: Node, b: Node)

  predicate Enabled(n: Net, s: Step) {
    match s
    case Inject(id, ts, v, checked, _) => id !in n.traffic && v in n.caches && Messages.Fresh(ts, checked)
    case Receive(id, a, checked, _) =>
      && id in n.traffic && a in n.traffic[id].flight && a.dst in n.caches
      && Messages.Fresh(n.traffic[id].timestamp, checked)
    case Stale(id, a, checked) =>
      id in n.traffic && a in n.traffic[id].flight && !Messages.Fresh(n.traffic[id].timestamp, checked)
    case Forward(id, w) => id in n.traffic && w in n.traffic[id].pending
    case Lose(id, a) => id in n.traffic && a in n.traffic[id].flight
    case Sweep(v, _) => v in n.caches
    case Close(a, b) => Floods.Arc(a, b) in n.arcs
    case Open(a, b) => a != b
  }

  function Accepted(t: Traffic, w: Work): Traffic {
    t.(pending := t.pending + multiset{w}, delivered := t.delivered + multiset{w.node})
  }

  function Dropped(t: Traffic, a: Arc): Traffic {
    t.(flight := t.flight - multiset{a}, lost := t.lost + 1)
  }

  function Remember(c: Config, n: Net, v: Node, id: Id, now: int): map<Node, seq<Entry>>
    requires c.Ok() && v in n.caches
  {
    n.caches[v := Added(n.caches[v], id, now, c.ttl, c.max)]
  }

  function Apply(c: Config, n: Net, s: Step): Net
    requires c.Ok() && Enabled(n, s)
  {
    match s
    case Inject(id, ts, v, _, now) =>
      var t := Traffic(ts, multiset{}, multiset{}, multiset{}, 0, 0, 0);
      n.(caches := Remember(c, n, v, id, now), traffic := n.traffic[id := Accepted(t, Floods.Work(v, None))])
    case Receive(id, a, _, now) =>
      var t := n.traffic[id].(flight := n.traffic[id].flight - multiset{a}, received := n.traffic[id].received + 1);
      if Holds(n.caches[a.dst], id) then n.(traffic := n.traffic[id := t])
      else
        n.(caches := Remember(c, n, a.dst, id, now),
           traffic := n.traffic[id := Accepted(t, Floods.Work(a.dst, Some(a.src)))])
    case Forward(id, w) =>
      var t, copies := n.traffic[id], Floods.Copies(n.arcs, w);
      n.(traffic := n.traffic[id := t.(pending := t.pending - multiset{w},
                                       flight := t.flight + multiset(copies), sent := t.sent + |copies|)])
    case Lose(id, a) => n.(traffic := n.traffic[id := Dropped(n.traffic[id], a)])
    case Stale(id, a, _) => n.(traffic := n.traffic[id := Dropped(n.traffic[id], a)])
    case Sweep(v, now) => n.(caches := n.caches[v := Live(n.caches[v], now - c.ttl)])
    case Close(a, b) => n.(arcs := n.arcs - {Floods.Arc(a, b), Floods.Arc(b, a)})
    case Open(a, b) => n.(arcs := n.arcs + {Floods.Arc(a, b), Floods.Arc(b, a)})
  }

  /** Steps in sequence, latest last, from a mesh of nodes with empty caches. */
  datatype Run = Boot(nodes: set<Node>, arcs: set<Arc>) | Then(earlier: Run, s: Step)

  function Play(c: Config, run: Run): Option<Net>
    requires c.Ok()
  {
    match run
    case Boot(nodes, arcs) => Some(Net(arcs, map v | v in nodes :: [], map[]))
    case Then(earlier, s) =>
      match Play(c, earlier)
      case None => None
      case Some(n) => if Enabled(n, s) then Some(Apply(c, n, s)) else None
  }

  // ----- One message taken alone

  function Holders(caches: map<Node, seq<Entry>>, id: Id): set<Node> {
    set v | v in caches && Holds(caches[v], id)
  }

  /** The single-ID view of one message, with a given count of forgettings. */
  function View(n: Net, id: Id, forgets: multiset<Node>): Floods.State
    requires id in n.traffic
  {
    var t := n.traffic[id];
    Floods.State(n.arcs, Holders(n.caches, id), t.pending, t.flight, t.delivered, forgets, t.sent, t.received, t.lost)
  }

  lemma LiveHolds(es: seq<Entry>, cutoff: int, id: Id)
    ensures Holds(Live(es, cutoff), id) ==> Holds(es, id)
  {
    LiveToSound(es, |es|, cutoff);
    assert es[..|es|] == es;
    if Holds(Live(es, cutoff), id) {
      var i :| 0 <= i < |Live(es, cutoff)| && Live(es, cutoff)[i].id == id;
      assert Live(es, cutoff)[i] in es;
    }
  }

  /** Adding an ID may push others out, and never brings one back. */
  lemma AddedHolds(c: Config, es: seq<Entry>, id: Id, now: int, x: Id)
    requires c.Ok() && !Holds(es, id)
    ensures Holds(Added(es, id, now, c.ttl, c.max), id)
    ensures x != id && !Holds(es, x) ==> !Holds(Added(es, id, now, c.ttl, c.max), x)
    ensures |es| < c.max && Holds(es, x) ==> Holds(Added(es, id, now, c.ttl, c.max), x)
  {
    var es' := Added(es, id, now, c.ttl, c.max);
    assert es'[|es'| - 1].id == id;
    if !Holds(es, x) {
      RoomAbsent(es, now, c.ttl, c.max, x);
    } else if |es| < c.max {
      var i :| 0 <= i < |es| && es[i].id == x;
      assert es'[i].id == x;
    }
  }

  lemma HoldersUpdate(caches: map<Node, seq<Entry>>, v: Node, es: seq<Entry>, id: Id)
    requires v in caches
    ensures Holders(caches[v := es], id)
         == if Holds(es, id) then Holders(caches, id) + {v} else Holders(caches, id) - {v}
  {
  }

  /** A step by which a node's cache drops an ID. */
  predicate Evicts(c: Config, n: Net, s: Step, v: Node, id: Id)
    requires c.Ok() && Enabled(n, s)
  {
    v in n.caches && Holds(n.caches[v], id) && v in Apply(c, n, s).caches && !Holds(Apply(c, n, s).caches[v], id)
  }

  lemma OneStep(s: Floods.State, step: Floods.Step)
    requires Floods.Enabled(s, step)
    ensures Floods.Runs(s, [step], Floods.Apply(s, step))
  {
    assert [step][1..] == [];
    Floods.RunsCons(s, [step], Floods.Apply(s, step));
  }

  /** A cache that drops an ID makes its node forget it; otherwise nothing changes for that message. */
  lemma CacheShrinks(n: Net, caches: map<Node, seq<Entry>>, v: Node, es: seq<Entry>, id: Id, f: multiset<Node>)
    returns (steps: seq<Floods.Step>, f': multiset<Node>)
    requires id in n.traffic && v in n.caches && caches == n.caches[v := es]
    requires Holds(es, id) ==> Holds(n.caches[v], id)
    ensures Floods.Runs(View(n, id, f), steps, View(n.(caches := caches), id, f'))
    ensures if Holds(n.caches[v], id) && !Holds(es, id)
            then steps == [Floods.Forget(v)] && f' == f + multiset{v} else steps == [] && f' == f
  {
    HoldersUpdate(n.caches, v, es, id);
    if Holds(n.caches[v], id) && !Holds(es, id) {
      steps, f' := [Floods.Forget(v)], f + multiset{v};
      OneStep(View(n, id, f), steps[0]);
    } else {
      steps, f' := [], f;
      assert Holders(caches, id) == Holders(n.caches, id);
    }
  }

  /** A step of this message's own flood, or of the links it travels over. */
  predicate Own(s: Step, id: Id) {
    s.Close? || s.Open? || ((s.Receive? || s.Stale? || s.Forward? || s.Lose?) && s.id == id)
  }

  function OwnStep(s: Step): Floods.Step
    requires !s.Sweep? && !s.Inject?
  {
    match s
    case Receive(_, a, _, _) => Floods.Receive(a)
    case Stale(_, a, _) => Floods.Lose(a)
    case Forward(_, w) => Floods.Forward(w)
    case Lose(_, a) => Floods.Lose(a)
    case Close(a, b) => Floods.Close(a, b)
    case Open(a, b) => Floods.Open(a, b)
  }

  /** A copy that arrives at a node: the node holds the ID then, whether or not it did before. */
  lemma ReceiveHolders(c: Config, n: Net, s: Step)
    requires c.Ok() && Enabled(n, s) && s.Receive?
    ensures Holders(Apply(c, n, s).caches, s.id) == Holders(n.caches, s.id) + {s.copy.dst}
    ensures Apply(c, n, s).caches.Keys == n.caches.Keys
  {
    var v := s.copy.dst;
    if !Holds(n.caches[v], s.id) {
      AddedHolds(c, n.caches[v], s.id, s.now, s.id);
      HoldersUpdate(n.caches, v, Apply(c, n, s).caches[v], s.id);
    }
  }

  lemma ReceiveRefines(c: Config, n: Net, s: Step, f: multiset<Node>)
    requires c.Ok() && Enabled(n, s) && s.Receive?
    ensures s.id in Apply(c, n, s).traffic
    ensures Floods.Apply(View(n, s.id, f), OwnStep(s)) == View(Apply(c, n, s), s.id, f)
  {
    ReceiveHolders(c, n, s);
    assert s.copy.dst in Holders(n.caches, s.id) <==> Holds(n.caches[s.copy.dst], s.id);
  }

  lemma DropRefines(c: Config, n: Net, s: Step, f: multiset<Node>)
    requires c.Ok() && Enabled(n, s) && (s.Lose? || s.Stale?)
    ensures Apply(c, n, s).caches == n.caches && s.id in Apply(c, n, s).traffic
    ensures Floods.Apply(View(n, s.id, f), OwnStep(s)) == View(Apply(c, n, s), s.id, f)
  {
    assert Apply(c, n, s) == n.(traffic := n.traffic[s.id := Dropped(n.traffic[s.id], s.copy)]);
  }

  lemma ForwardRefines(c: Config, n: Net, s: Step, f: multiset<Node>)
    requires c.Ok() && Enabled(n, s) && s.Forward?
    ensures Apply(c, n, s).caches == n.caches && s.id in Apply(c, n, s).traffic
    ensures Floods.Apply(View(n, s.id, f), OwnStep(s)) == View(Apply(c, n, s), s.id, f)
  {
  }

  lemma LinkRefines(c: Config, n: Net, s: Step, id: Id, f: multiset<Node>)
    requires c.Ok() && Enabled(n, s) && (s.Open? || s.Close?) && id in n.traffic
    ensures Apply(c, n, s).caches == n.caches && Apply(c, n, s).traffic == n.traffic
    ensures Floods.Apply(View(n, id, f), OwnStep(s)) == View(Apply(c, n, s), id, f)
  {
  }

  lemma OwnRefines(c: Config, n: Net, s: Step, id: Id, f: multiset<Node>)
    requires c.Ok() && Enabled(n, s) && Own(s, id) && id in n.traffic
    ensures id in Apply(c, n, s).traffic
    ensures Floods.Runs(View(n, id, f), [OwnStep(s)], View(Apply(c, n, s), id, f))
    ensures forall v :: !Evicts(c, n, s, v, id)
  {
    OneStep(View(n, id, f), OwnStep(s));
    if s.Receive? {
      ReceiveRefines(c, n, s, f);
      ReceiveHolders(c, n, s);
      OwnKeeps(c, n, s);
    } else if s.Forward? {
      ForwardRefines(c, n, s, f);
    } else if s.Open? || s.Close? {
      LinkRefines(c, n, s, id, f);
    } else {
      DropRefines(c, n, s, f);
    }
  }

  lemma OwnKeeps(c: Config, n: Net, s: Step)
    requires c.Ok() && Enabled(n, s) && s.Receive?
    requires Holders(n.caches, s.id) <= Holders(Apply(c, n, s).caches, s.id)
    ensures forall v :: !Evicts(c, n, s, v, s.id)
  {
    forall v ensures !Evicts(c, n, s, v, s.id) {
      if v in n.caches && Holds(n.caches[v], s.id) {
        assert v in Holders(n.caches, s.id);
      }
    }
  }

  /** The node whose cache a step changes, if any. */
  function Touched(n: Net, s: Step): Option<Node> {
    match s
    case Inject(_, _, v, _, _) => Some(v)
    case Receive(_, a, _, _) => Some(a.dst)
    case Sweep(v, _) => Some(v)
    case _ => None
  }

  /** What a step of the network does to a message it is not about. */
  lemma OtherRefines(c: Config, n: Net, s: Step, id: Id, f: multiset<Node>)
    returns (steps: seq<Floods.Step>, f': multiset<Node>)
    requires c.Ok() && Enabled(n, s) && id in n.traffic && !Own(s, id)
    ensures id in Apply(c, n, s).traffic
    ensures Floods.Runs(View(n, id, f), steps, View(Apply(c, n, s), id, f'))
    ensures steps == [] || exists v :: steps == [Floods.Forget(v)] && Evicts(c, n, s, v, id)
    ensures forall v :: f'[v] == f[v] + (if Evicts(c, n, s, v, id) then 1 else 0)
  {
    var m, at := Apply(c, n, s), Touched(n, s);
    assert m.traffic[id] == n.traffic[id] && m.arcs == n.arcs;
    if at == None {
      steps, f' := [], f;
      assert m.caches == n.caches;
    } else {
      var v := at.value;
      OnlyTouched(c, n, s, id);
      steps, f' := CacheShrinks(n, m.caches, v, m.caches[v], id, f);
      assert View(m, id, f') == View(n.(caches := m.caches), id, f');
    }
  }

  lemma OnlyTouched(c: Config, n: Net, s: Step, id: Id)
    requires c.Ok() && Enabled(n, s) && id in n.traffic && !Own(s, id) && Touched(n, s).Some?
    ensures var v, m := Touched(n, s).value, Apply(c, n, s);
      && v in n.caches && v in m.caches && m.caches == n.caches[v := m.caches[v]]
      && (Holds(m.caches[v], id) ==> Holds(n.caches[v], id))
  {
    match s
    case Sweep(v, now) => LiveHolds(n.caches[v], now - c.ttl, id);
    case Inject(x, _, v, _, now) => if !Holds(n.caches[v], x) { AddedHolds(c, n.caches[v], x, now, id); }
    case Receive(x, a, _, now) => if !Holds(n.caches[a.dst], x) { AddedHolds(c, n.caches[a.dst], x, now, id); }
  }

  // ----- Whole runs

  /** Caches hold only IDs of messages, and the nodes stay the same. */
  ghost predicate Known(n: Net, nodes: set<Node>) {
    && n.caches.Keys == nodes
    && forall v, id :: v in n.caches && Holds(n.caches[v], id) ==> id in n.traffic
  }

  function NodesOf(run: Run): set<Node> {
    match run
    case Boot(nodes, _) => nodes
    case Then(earlier, _) => NodesOf(earlier)
  }

  /** The links at the start. */
  function ArcsOf(run: Run): set<Arc> {
    match run
    case Boot(_, arcs) => arcs
    case Then(earlier, _) => ArcsOf(earlier)
  }

  predicate FixedLinks(run: Run) {
    match run
    case Boot(_, _) => true
    case Then(earlier, s) => FixedLinks(earlier) && !s.Close? && !s.Open?
  }

  lemma {:induction false} LinksStay(c: Config, run: Run)
    requires c.Ok() && Play(c, run).Some? && FixedLinks(run)
    ensures Play(c, run).value.arcs == ArcsOf(run)
  {
    if run.Then? {
      LinksStay(c, run.earlier);
    }
  }

  lemma KnownStep(c: Config, n: Net, s: Step, nodes: set<Node>)
    requires c.Ok() && Enabled(n, s) && Known(n, nodes)
    ensures Known(Apply(c, n, s), nodes)
  {
    var m := Apply(c, n, s);
    assert m.caches.Keys == n.caches.Keys;
    forall v, id | v in m.caches && Holds(m.caches[v], id) ensures id in m.traffic {
      if Touched(n, s) == Some(v) {
        match s
        case Sweep(_, now) => LiveHolds(n.caches[v], now - c.ttl, id);
        case Inject(x, _, _, _, now) => if !Holds(n.caches[v], x) { AddedHolds(c, n.caches[v], x, now, id); }
        case Receive(x, _, _, now) => if !Holds(n.caches[v], x) { AddedHolds(c, n.caches[v], x, now, id); }
        case _ =>
      }
    }
  }

  lemma {:induction false} KnownAlways(c: Config, run: Run)
    requires c.Ok() && Play(c, run).Some?
    ensures Known(Play(c, run).value, NodesOf(run))
  {
    match run
    case Boot(nodes, arcs) =>
      assert Play(c, run).value.caches.Keys == nodes;
    case Then(earlier, s) =>
      KnownAlways(c, earlier);
      KnownStep(c, Play(c, earlier).value, s, NodesOf(run));
  }

  /** How often the cache of `v` has dropped the ID. */
  function Evictions(c: Config, run: Run, id: Id, v: Node): nat
    requires c.Ok() && Play(c, run).Some?
  {
    match run
    case Boot(_, _) => 0
    case Then(earlier, s) =>
      Evictions(c, earlier, id, v) + (if Evicts(c, Play(c, earlier).value, s, v, id) then 1 else 0)
  }

  /** A message that is injected starts its flood. */
  lemma InjectRefines(c: Config, n: Net, s: Step, nodes: set<Node>)
    requires c.Ok() && Enabled(n, s) && s.Inject? && Known(n, nodes)
    ensures View(Apply(c, n, s), s.id, multiset{}) == Floods.Inject(n.arcs, s.v)
    ensures forall v :: !Evicts(c, n, s, v, s.id)
  {
    var m := Apply(c, n, s);
    assert Holders(n.caches, s.id) == {};
    AddedHolds(c, n.caches[s.v], s.id, s.now, s.id);
    HoldersUpdate(n.caches, s.v, m.caches[s.v], s.id);
  }

  /** Before it is injected nobody holds an ID, so nobody drops it. */
  lemma {:induction false} NoEvictionsBefore(c: Config, run: Run, id: Id, v: Node)
    requires c.Ok() && Play(c, run).Some? && id !in Play(c, run).value.traffic
    ensures Evictions(c, run, id, v) == 0
  {
    match run
    case Boot(_, _) =>
    case Then(earlier, s) =>
      KnownAlways(c, earlier);
      NoEvictionsBefore(c, earlier, id, v);
  }

  /** No copy is lost, or arrives too late or too early. */
  predicate NeverLoses(run: Run) {
    match run
    case Boot(_, _) => true
    case Then(earlier, s) => NeverLoses(earlier) && !s.Lose? && !s.Stale?
  }

  /** A flood step is a receive or a broadcast, unless the run loses copies, changes links, or makes a
      cache drop the ID. */
  predicate Explained(c: Config, run: Run, id: Id, step: Floods.Step)
    requires c.Ok() && Play(c, run).Some?
  {
    || Floods.Lossless(step)
    || (step.Lose? && !NeverLoses(run))
    || ((step.Close? || step.Open?) && !FixedLinks(run))
    || (step.Forget? && Evictions(c, run, id, step.node) > 0)
  }

  /** One more step of the network, for a message that is already under way. */
  lemma NextRefines(c: Config, run: Run, id: Id, f: multiset<Node>)
    returns (more: seq<Floods.Step>, f': multiset<Node>)
    requires c.Ok() && run.Then? && Play(c, run).Some? && id in Play(c, run.earlier).value.traffic
    requires forall v :: f[v] == Evictions(c, run.earlier, id, v)
    ensures id in Play(c, run).value.traffic
    ensures Floods.Runs(View(Play(c, run.earlier).value, id, f), more, View(Play(c, run).value, id, f'))
    ensures forall v :: f'[v] == Evictions(c, run, id, v)
    ensures forall step :: step in more ==> Explained(c, run, id, step)
  {
    var n, s := Play(c, run.earlier).value, run.s;
    assert Play(c, run) == Some(Apply(c, n, s));
    if Own(s, id) {
      OwnRefines(c, n, s, id, f);
      more, f' := [OwnStep(s)], f;
    } else {
      more, f' := OtherRefines(c, n, s, id, f);
    }
  }

  /**
   Refinement: at any point of any run, each message is at a point of a flood of its own from the node
   that injected it, over the links there were at the time and the changes since, in which nodes have
   forgotten the ID as often as their caches have dropped it.
   */
  lemma {:induction false} GossipRefines(c: Config, run: Run, id: Id)
    returns (arcs: set<Arc>, origin: Node, steps: seq<Floods.Step>, f: multiset<Node>)
    requires c.Ok() && Play(c, run).Some? && id in Play(c, run).value.traffic
    ensures origin in NodesOf(run) && (FixedLinks(run) ==> arcs == ArcsOf(run))
    ensures Floods.Runs(Floods.Inject(arcs, origin), steps, View(Play(c, run).value, id, f))
    ensures forall v :: f[v] == Evictions(c, run, id, v)
    ensures forall step :: step in steps ==> Explained(c, run, id, step)
  {
    var s, earlier := run.s, run.earlier;
    var n := Play(c, earlier).value;
    KnownAlways(c, earlier);
    if id !in n.traffic {
      arcs, origin, steps, f := n.arcs, s.v, [], multiset{};
      InjectRefines(c, n, s, NodesOf(run));
      if FixedLinks(run) {
        LinksStay(c, earlier);
      }
      forall v ensures f[v] == Evictions(c, run, id, v) {
        NoEvictionsBefore(c, earlier, id, v);
      }
    } else {
      var first, f0, more;
      arcs, origin, first, f0 := GossipRefines(c, earlier, id);
      more, f := NextRefines(c, run, id, f0);
      steps := first + more;
      Floods.RunsAppend(Floods.Inject(arcs, origin), first, View(n, id, f0), more, View(Play(c, run).value, id, f));
      forall step | step in steps ensures Explained(c, run, id, step) {
        if step in first { assert Explained(c, earlier, id, step); }
      }
    }
  }

  /**
   Exactly how often a node delivers a message: once for every time its cache has dropped the ID, and
   once more if the cache holds it. Copies are conserved.
   */
  lemma GossipDeliveries(c: Config, run: Run, id: Id, v: Node)
    requires c.Ok() && Play(c, run).Some? && id in Play(c, run).value.traffic
    ensures var n := Play(c, run).value;
      && n.traffic[id].delivered[v]
         == Evictions(c, run, id, v) + (if v in n.caches && Holds(n.caches[v], id) then 1 else 0)
      && n.traffic[id].sent == n.traffic[id].received + n.traffic[id].lost + |n.traffic[id].flight|
  {
    var n := Play(c, run).value;
    var arcs, origin, steps, f := GossipRefines(c, run, id);
    Floods.FloodSafety(arcs, origin, steps, View(n, id, f));
  }

  // ----- Enough room

  /** IDs are recorded from `t0` on, and no sweep comes so late that what was recorded then has expired. */
  predicate Young(run: Run, t0: int, ttl: int) {
    match run
    case Boot(_, _) => true
    case Then(earlier, s) =>
      && Young(earlier, t0, ttl)
      && (s.Inject? || s.Receive? ==> t0 <= s.now)
      && (s.Sweep? ==> s.now <= t0 + ttl)
  }

  /** No cache holds an ID twice, or one recorded before `t0`. */
  ghost predicate Orderly(n: Net, t0: int) {
    forall v :: v in n.caches ==> DistinctIds(n.caches[v]) && Since(n.caches[v], t0)
  }

  ghost predicate Since(es: seq<Entry>, t0: int) {
    forall i :: 0 <= i < |es| ==> t0 <= es[i].at
  }

  lemma {:induction false} LiveSince(es: seq<Entry>, n: nat, cutoff: int)
    requires n <= |es| && Since(es, cutoff)
    ensures LiveTo(es, n, cutoff) == es[..n]
  {
    if n > 0 {
      LiveSince(es, n - 1, cutoff);
    }
  }

  function IdSet(es: seq<Entry>): set<Id> {
    set i | 0 <= i < |es| :: es[i].id
  }

  lemma {:induction false} DistinctSize(es: seq<Entry>)
    requires DistinctIds(es)
    ensures |IdSet(es)| == |es|
  {
    if es != [] {
      var init, last := es[..|es| - 1], es[|es| - 1];
      DistinctSize(init);
      assert IdSet(es) == IdSet(init) + {last.id} by {
        forall i | 0 <= i < |es| ensures es[i].id in IdSet(init) + {last.id} {
          if i < |init| { assert init[i] == es[i]; }
        }
        assert forall i :: 0 <= i < |init| ==> init[i].id == es[i].id;
      }
      assert last.id !in IdSet(init);
    }
  }

  /** A cache of distinct IDs out of a set that misses one has fewer entries than the set. */
  lemma FewerEntries(es: seq<Entry>, ids: set<Id>, x: Id)
    requires DistinctIds(es) && x in ids && !Holds(es, x) && forall id :: Holds(es, id) ==> id in ids
    ensures |es| < |ids|
  {
    DistinctSize(es);
    forall id | id in IdSet(es) ensures id in ids - {x} {
      assert Holds(es, id);
    }
    SubsetCount(IdSet(es), ids - {x});
  }

  /** With no more messages than entries, an added ID pushes nothing out. */
  lemma AddKeepsAll(c: Config, es: seq<Entry>, ids: set<Id>, x: Id, now: int, t0: int)
    requires c.Ok() && DistinctIds(es) && |ids| <= c.max && x in ids && Since(es, t0) && t0 <= now
    requires forall id :: Holds(es, id) ==> id in ids
    ensures DistinctIds(Added(es, x, now, c.ttl, c.max)) && Since(Added(es, x, now, c.ttl, c.max), t0)
    ensures forall id :: Holds(es, id) ==> Holds(Added(es, x, now, c.ttl, c.max), id)
  {
    if !Holds(es, x) {
      FewerEntries(es, ids, x);
      forall id | Holds(es, id) ensures Holds(Added(es, x, now, c.ttl, c.max), id) {
        AddedHolds(c, es, x, now, id);
      }
    }
  }

  lemma RoomStep(c: Config, n: Net, s: Step, nodes: set<Node>, t0: int)
    requires c.Ok() && Enabled(n, s) && Known(n, nodes) && Orderly(n, t0)
    requires (s.Inject? || s.Receive? ==> t0 <= s.now) && (s.Sweep? ==> s.now <= t0 + c.ttl)
    requires |Apply(c, n, s).traffic| <= c.max
    ensures Orderly(Apply(c, n, s), t0)
    ensures forall v, id :: !Evicts(c, n, s, v, id)
  {
    var m := Apply(c, n, s);
    if s.Inject? || s.Receive? {
      var v := if s.Inject? then s.v else s.copy.dst;
      AddKeepsAll(c, n.caches[v], m.traffic.Keys, s.id, s.now, t0);
    } else if s.Sweep? {
      var es := n.caches[s.v];
      LiveSince(es, |es|, s.now - c.ttl);
      assert es[..|es|] == es;
      assert m.caches == n.caches;
    }
  }

  lemma TrafficGrows(c: Config, n: Net, s: Step)
    requires c.Ok() && Enabled(n, s)
    ensures n.traffic.Keys <= Apply(c, n, s).traffic.Keys
  {
  }

  /** With no more messages than entries, and none of them expired, no cache drops an ID. */
  lemma {:induction false} RoomRun(c: Config, run: Run, t0: int, id: Id, v: Node)
    requires c.Ok() && Play(c, run).Some? && Young(run, t0, c.ttl) && |Play(c, run).value.traffic| <= c.max
    ensures Orderly(Play(c, run).value, t0) && Evictions(c, run, id, v) == 0
  {
    match run
    case Boot(_, _) =>
    case Then(earlier, s) =>
      var n := Play(c, earlier).value;
      KnownAlways(c, earlier);
      TrafficGrows(c, n, s);
      SubsetCount(n.traffic.Keys, Play(c, run).value.traffic.Keys);
      RoomRun(c, earlier, t0, id, v);
      RoomStep(c, n, s, NodesOf(run), t0);
  }

  lemma UndisturbedIsLossless(c: Config, run: Run, id: Id, step: Floods.Step)
    requires c.Ok() && Play(c, run).Some? && Explained(c, run, id, step) && NeverLoses(run) && FixedLinks(run)
    requires forall v :: Evictions(c, run, id, v) == 0
    ensures Floods.Lossless(step)
  {
  }

  /** Delivered exactly once by every node, at a cost of exactly 2|E| - |V| + 1 copies. */
  predicate CoveredExactly(run: Run, t: Traffic) {
    && (forall v :: v in NodesOf(run) ==> t.delivered[v] == 1)
    && t.sent == t.received == 2 * |Floods.Links(ArcsOf(run))| - |NodesOf(run)| + 1
  }

  predicate Settled(t: Traffic) {
    t.flight == multiset{} && t.pending == multiset{}
  }

  /**
   Many messages at once: in a fixed connected mesh that loses nothing, each message that has nothing
   left under way and that no cache has dropped has been delivered exactly once by every node, at the
   exact cost, whatever else is sent, swept or dropped meanwhile.
   */
  lemma GossipCoverage(c: Config, run: Run, id: Id)
    requires c.Ok() && Play(c, run).Some? && NeverLoses(run) && FixedLinks(run)
    requires Floods.Mesh(NodesOf(run), ArcsOf(run)) && Floods.Connected(NodesOf(run), ArcsOf(run))
    requires id in Play(c, run).value.traffic && Settled(Play(c, run).value.traffic[id])
    requires forall v :: Evictions(c, run, id, v) == 0
    ensures CoveredExactly(run, Play(c, run).value.traffic[id])
  {
    var n := Play(c, run).value;
    var arcs, origin, steps, f := GossipRefines(c, run, id);
    LinksStay(c, run);
    forall step | step in steps ensures Floods.Lossless(step) {
      UndisturbedIsLossless(c, run, id, step);
    }
    assert f == multiset{};
    Floods.FloodCoverage(NodesOf(run), arcs, origin, steps, View(n, id, f));
  }

  /** In particular, with no more messages than a cache has entries and no sweep that meets an expired one. */
  lemma RoomyCoverage(c: Config, run: Run, t0: int, id: Id)
    requires c.Ok() && Play(c, run).Some? && NeverLoses(run) && FixedLinks(run)
    requires Floods.Mesh(NodesOf(run), ArcsOf(run)) && Floods.Connected(NodesOf(run), ArcsOf(run))
    requires id in Play(c, run).value.traffic && Settled(Play(c, run).value.traffic[id])
    requires Young(run, t0, c.ttl) && |Play(c, run).value.traffic| <= c.max
    ensures CoveredExactly(run, Play(c, run).value.traffic[id])
  {
    forall v ensures Evictions(c, run, id, v) == 0 {
      RoomRun(c, run, t0, id, v);
    }
    GossipCoverage(c, run, id);
  }
}
