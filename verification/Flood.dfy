/**
 The flood of one message ID over a mesh of nodes. Each node remembers the ID, delivers the message
 and later forwards it over every link except the one it came from. A link is a pair of opposite
 arcs; copies travel along arcs and may be delivered in any order.
 */
module Floods {
  import opened Basics

  type Node = string

  datatype Arc = Arc(src: Node, dst: Node)

  /** A node that has accepted the ID and has yet to forward it. */
  datatype Work = Work(node: Node, from: Option<Node>)

  datatype State = State(
    arcs: set<Arc>, seen: set<Node>, pending: multiset<Work>, flight: multiset<Arc>,
    delivered: multiset<Node>, forgets: multiset<Node>, sent: nat, received: nat, lost: nat)

  /** `Lose` is a copy that never arrives; `Forget` is the seen cache dropping the ID. */
  datatype Step =
    | Receive(copy: Arc)
    | Forward(work: Work)
    | Lose(copy: Arc)
    | Close(a: Node, b: Node)
    | Open(a: Node, b: Node)
    | Forget(node: Node)

  predicate Enabled(s: State, step: Step) {
    match step
    case Receive(a) => a in s.flight
    case Forward(w) => w in s.pending
    case Lose(a) => a in s.flight
    case Close(a, b) => Arc(a, b) in s.arcs
    case Open(a, b) => a != b
    case Forget(v) => v in s.seen
  }

  /** The arcs that leave the given nodes. */
  function Out(arcs: set<Arc>, nodes: set<Node>): set<Arc> {
    set a | a in arcs && a.src in nodes
  }

  /** The copies a broadcast sends: one per link, except back to where the message came from. */
  function Copies(arcs: set<Arc>, w: Work): set<Arc> {
    set a | a in arcs && a.src == w.node && w.from != Some(a.dst)
  }

  /** A new ID is remembered and delivered, and its broadcast is due. */
  function Accept(s: State, w: Work): State {
    s.(seen := s.seen + {w.node}, delivered := s.delivered + multiset{w.node},
       pending := s.pending + multiset{w})
  }

  function Apply(s: State, step: Step): State
    requires Enabled(s, step)
  {
    match step
    case Receive(a) =>
      var s' := s.(flight := s.flight - multiset{a}, received := s.received + 1);
      if a.dst in s.seen then s' else Accept(s', Work(a.dst, Some(a.src)))
    case Forward(w) =>
      var copies := Copies(s.arcs, w);
      s.(pending := s.pending - multiset{w}, flight := s.flight + multiset(copies),
         sent := s.sent + |copies|)
    case Lose(a) => s.(flight := s.flight - multiset{a}, lost := s.lost + 1)
    case Close(a, b) => s.(arcs := s.arcs - {Arc(a, b), Arc(b, a)})
    case Open(a, b) => s.(arcs := s.arcs + {Arc(a, b), Arc(b, a)})
    case Forget(v) => s.(seen := s.seen - {v}, forgets := s.forgets + multiset{v})
  }

  /** The origin accepts its own message; nothing is excluded from its broadcast. */
  function Inject(arcs: set<Arc>, origin: Node): State {
    Accept(State(arcs, {}, multiset{}, multiset{}, multiset{}, multiset{}, 0, 0, 0), Work(origin, None))
  }

  predicate Runs(s: State, steps: seq<Step>, t: State)
    decreases |steps|
  {
    if steps == [] then s == t
    else Enabled(s, steps[0]) && Runs(Apply(s, steps[0]), steps[1..], t)
  }

  /** A run is its first step and the run of the rest. */
  lemma RunsCons(s: State, steps: seq<Step>, u: State)
    requires steps != [] && Enabled(s, steps[0]) && Runs(Apply(s, steps[0]), steps[1..], u)
    ensures Runs(s, steps, u)
  {
  }

  lemma {:induction false} RunsAppend(s: State, a: seq<Step>, t: State, b: seq<Step>, u: State)
    requires Runs(s, a, t) && Runs(t, b, u)
    ensures Runs(s, a + b, u)
    decreases |a|
  {
    if a == [] {
      AppendEmpty(b);
    } else {
      RunsAppend(Apply(s, a[0]), a[1..], t, b, u);
      AppendTail(a, b);
      RunsCons(s, a + b, u);
    }
  }

  /** A session that closes or opens takes or adds both directions, and no other link. */
  lemma LinkSteps(s: State, step: Step, x: Arc)
    requires Enabled(s, step)
    ensures var now := x in Apply(s, step).arcs;
      var between := (step.Close? || step.Open?) && ((x.src == step.a && x.dst == step.b) || (x.src == step.b && x.dst == step.a));
      now <==> if between then step.Open? else x in s.arcs
  {
  }

  // ----- Safety on any mesh, with loss, changing links and forgetting caches

  /** A node has delivered the ID once for every time it forgot it, and once more if it holds it. */
  ghost predicate Safe(s: State) {
    && (forall v :: s.delivered[v] == s.forgets[v] + (if v in s.seen then 1 else 0))
    && s.sent == s.received + s.lost + |s.flight|
  }

  lemma {:induction false} SafeRun(s: State, steps: seq<Step>, t: State)
    requires Safe(s) && Runs(s, steps, t)
    ensures Safe(t)
    decreases |steps|
  {
    if steps != [] {
      SafeRun(Apply(s, steps[0]), steps[1..], t);
    }
  }

  /** Copies are conserved and nobody delivers twice without having forgotten the ID in between. */
  lemma FloodSafety(arcs: set<Arc>, origin: Node, steps: seq<Step>, t: State)
    requires Runs(Inject(arcs, origin), steps, t)
    ensures forall v :: t.delivered[v] == t.forgets[v] + (if v in t.seen then 1 else 0)
    ensures forall v :: Forget(v) !in steps ==> t.delivered[v] <= 1
    ensures t.sent == t.received + t.lost + |t.flight|
  {
    SafeRun(Inject(arcs, origin), steps, t);
    forall v | Forget(v) !in steps ensures t.delivered[v] <= 1 {
      NotForgotten(Inject(arcs, origin), steps, t, v);
    }
  }

  lemma {:induction false} NotForgotten(s: State, steps: seq<Step>, t: State, v: Node)
    requires Runs(s, steps, t) && Forget(v) !in steps
    ensures t.forgets[v] == s.forgets[v]
    decreases |steps|
  {
    if steps != [] {
      assert steps[0] in steps;
      NotForgotten(Apply(s, steps[0]), steps[1..], t, v);
    }
  }

  // ----- Termination on any mesh that loses copies and links

  function PendingNodes(s: State): set<Node> {
    set w | w in s.pending :: w.node
  }

  /** Each node owes at most one broadcast. */
  ghost predicate OneEach(s: State) {
    && (forall w :: w in s.pending ==> s.pending[w] == 1 && w.node in s.seen)
    && (forall w, w' :: w in s.pending && w' in s.pending && w.node == w'.node ==> w == w')
  }

  /** The nodes that have broadcast. */
  function Done(s: State): set<Node> {
    s.seen - PendingNodes(s)
  }

  function Unsent(s: State): set<Arc> {
    set a | a in s.arcs && a.src !in Done(s)
  }

  function Measure(s: State): nat {
    2 * |s.flight| + |s.pending| + 2 * |Unsent(s)| + |s.arcs|
  }

  predicate Decaying(step: Step) {
    step.Receive? || step.Forward? || step.Lose? || step.Close?
  }

  lemma AcceptShape(s: State, a: Arc)
    requires OneEach(s) && a in s.flight && a.dst !in s.seen
    ensures var t := Apply(s, Receive(a));
      OneEach(t) && PendingNodes(t) == PendingNodes(s) + {a.dst} && Done(t) == Done(s)
  {
    var t, w := Apply(s, Receive(a)), Work(a.dst, Some(a.src));
    assert forall x :: x in t.pending <==> x in s.pending || x == w;
    assert w !in s.pending;
    assert PendingNodes(t) == PendingNodes(s) + {a.dst} by {
      assert forall x :: x in s.pending ==> x.node in PendingNodes(s);
      assert w.node in PendingNodes(t);
    }
    assert PendingNodes(s) <= s.seen;
  }

  lemma PendingWithout(pending: multiset<Work>, w: Work)
    requires w in pending && pending[w] == 1
    requires forall x, y :: x in pending && y in pending && x.node == y.node ==> x == y
    ensures (set x | x in pending - multiset{w} :: x.node) == (set x | x in pending :: x.node) - {w.node}
  {
    forall x | x in pending && x != w ensures x in pending - multiset{w} {
    }
  }

  lemma ForwardShape(s: State, w: Work)
    requires OneEach(s) && w in s.pending
    ensures var t := Apply(s, Forward(w));
      && OneEach(t) && w.node in PendingNodes(s) && w.node in s.seen
      && PendingNodes(t) == PendingNodes(s) - {w.node} && Done(t) == Done(s) + {w.node}
  {
    var t := Apply(s, Forward(w));
    assert forall x :: x in t.pending <==> x in s.pending && x != w;
    PendingWithout(s.pending, w);
    assert PendingNodes(t) == PendingNodes(s) - {w.node};
  }

  lemma ForwardDrops(s: State, w: Work)
    requires OneEach(s) && w in s.pending
    ensures Measure(Apply(s, Forward(w))) < Measure(s)
  {
    var t, mine := Apply(s, Forward(w)), Out(s.arcs, {w.node});
    ForwardShape(s, w);
    assert Unsent(t) == Unsent(s) - mine && mine <= Unsent(s);
    SubsetCount(Copies(s.arcs, w), mine);
  }

  lemma CloseDrops(s: State, a: Node, b: Node)
    requires Arc(a, b) in s.arcs
    ensures Measure(Apply(s, Close(a, b))) < Measure(s)
  {
    var t := Apply(s, Close(a, b));
    SubsetCount(Unsent(t), Unsent(s));
    SubsetCount(t.arcs, s.arcs - {Arc(a, b)});
  }

  /** Every receive, broadcast, loss and disconnect uses up part of the measure. */
  lemma MeasureDrops(s: State, step: Step)
    requires OneEach(s) && Decaying(step) && Enabled(s, step)
    ensures OneEach(Apply(s, step)) && Measure(Apply(s, step)) < Measure(s)
  {
    var t := Apply(s, step);
    match step
    case Receive(a) =>
      if a.dst !in s.seen {
        AcceptShape(s, a);
      }
      assert Done(t) == Done(s);
    case Forward(w) =>
      ForwardShape(s, w);
      ForwardDrops(s, w);
    case Lose(a) =>
    case Close(a, b) =>
      CloseDrops(s, a, b);
  }

  lemma {:induction false} MeasureRun(s: State, steps: seq<Step>, t: State)
    requires OneEach(s) && Runs(s, steps, t) && forall step :: step in steps ==> Decaying(step)
    ensures OneEach(t) && |steps| + Measure(t) <= Measure(s)
    decreases |steps|
  {
    if steps != [] {
      assert steps[0] in steps;
      MeasureDrops(s, steps[0]);
      MeasureRun(Apply(s, steps[0]), steps[1..], t);
    }
  }

  /** Whatever is lost or disconnected on the way, a flood ends within 3 steps per arc, plus one. */
  lemma FloodTerminates(arcs: set<Arc>, origin: Node, steps: seq<Step>, t: State)
    requires Runs(Inject(arcs, origin), steps, t) && forall step :: step in steps ==> Decaying(step)
    ensures |steps| <= 3 * |arcs| + 1
  {
    var s := Inject(arcs, origin);
    assert forall w :: w in s.pending ==> w == Work(origin, None);
    MeasureRun(s, steps, t);
    assert Unsent(s) <= arcs;
    SubsetCount(Unsent(s), arcs);
  }

  // ----- Termination with links that open and caches that forget

  /** Links and copies stay among the given nodes. */
  ghost predicate Among(s: State, nodes: set<Node>) {
    && (forall a :: a in s.arcs ==> a.dst in nodes)
    && (forall a :: a in s.flight ==> a.dst in nodes)
  }

  predicate OpensAmong(step: Step, nodes: set<Node>) {
    step.Open? ==> step.a in nodes && step.b in nodes
  }

  /** What is under way, with as many copies for each broadcast that is due or may come as there are nodes. */
  function Potential(s: State, nodes: set<Node>): nat {
    |s.flight| + Times(|nodes| + 1, |s.pending| + |nodes - s.seen|) + |s.arcs|
  }

  function Times(k: nat, n: nat): nat {
    if n == 0 then 0 else Times(k, n - 1) + k
  }

  lemma {:induction false} TimesIs(k: nat, n: nat)
    ensures Times(k, n) == k * n
  {
    if n > 0 {
      TimesIs(k, n - 1);
      assert k * n == k * (n - 1) + k;
    }
  }

  lemma {:induction false} FewCopies(copies: set<Arc>, v: Node, nodes: set<Node>)
    requires forall a :: a in copies ==> a.src == v && a.dst in nodes
    ensures |copies| <= |nodes|
  {
    if copies != {} {
      var a :| a in copies;
      FewCopies(copies - {a}, v, nodes - {a.dst});
    }
  }

  /** What a step may add to the potential. */
  function Gain(step: Step, nodes: set<Node>): nat {
    if step.Forget? then |nodes| + 1 else if step.Open? then 2 else 0
  }

  lemma ReceivePotential(s: State, a: Arc, nodes: set<Node>)
    requires Among(s, nodes) && a in s.flight
    ensures Among(Apply(s, Receive(a)), nodes)
    ensures Potential(Apply(s, Receive(a)), nodes) < Potential(s, nodes)
  {
    var t := Apply(s, Receive(a));
    assert |t.flight| == |s.flight| - 1;
    if a.dst !in s.seen {
      assert nodes - t.seen == (nodes - s.seen) - {a.dst};
      assert |t.pending| == |s.pending| + 1;
    }
  }

  lemma ForwardPotential(s: State, w: Work, nodes: set<Node>)
    requires Among(s, nodes) && w in s.pending
    ensures Among(Apply(s, Forward(w)), nodes)
    ensures Potential(Apply(s, Forward(w)), nodes) < Potential(s, nodes)
  {
    var t := Apply(s, Forward(w));
    FewCopies(Copies(s.arcs, w), w.node, nodes);
    assert |t.pending| == |s.pending| - 1;
    assert |t.flight| == |s.flight| + |Copies(s.arcs, w)|;
  }

  lemma ForgetPotential(s: State, v: Node, nodes: set<Node>)
    requires Among(s, nodes) && v in s.seen
    ensures Among(Apply(s, Forget(v)), nodes)
    ensures Potential(Apply(s, Forget(v)), nodes) <= Potential(s, nodes) + |nodes| + 1
  {
    var t := Apply(s, Forget(v));
    if v in nodes {
      assert nodes - t.seen == (nodes - s.seen) + {v};
    } else {
      assert nodes - t.seen == nodes - s.seen;
    }
  }

  lemma LinkPotential(s: State, step: Step, nodes: set<Node>)
    requires Among(s, nodes) && OpensAmong(step, nodes) && Enabled(s, step) && (step.Open? || step.Close?)
    ensures Among(Apply(s, step), nodes)
    ensures Potential(Apply(s, step), nodes) + (if step.Close? then 1 else 0) <= Potential(s, nodes) + Gain(step, nodes)
  {
    var t, both := Apply(s, step), {Arc(step.a, step.b), Arc(step.b, step.a)};
    if step.Open? {
      assert t.arcs == s.arcs + (both - s.arcs);
      SubsetCount(both - s.arcs, both);
    } else {
      SubsetCount(t.arcs, s.arcs - {Arc(step.a, step.b)});
    }
  }

  lemma PotentialStep(s: State, step: Step, nodes: set<Node>)
    requires Among(s, nodes) && OpensAmong(step, nodes) && Enabled(s, step)
    ensures Among(Apply(s, step), nodes)
    ensures Potential(Apply(s, step), nodes) + (if Decaying(step) then 1 else 0) <= Potential(s, nodes) + Gain(step, nodes)
  {
    match step
    case Receive(a) => ReceivePotential(s, a, nodes);
    case Forward(w) => ForwardPotential(s, w, nodes);
    case Forget(v) => ForgetPotential(s, v, nodes);
    case Lose(a) => assert |Apply(s, step).flight| == |s.flight| - 1;
    case _ => LinkPotential(s, step, nodes);
  }

  /** How many steps carry the flood on, and what the others add to it. */
  function Progress(steps: seq<Step>): nat {
    if steps == [] then 0 else (if Decaying(steps[0]) then 1 else 0) + Progress(steps[1..])
  }

  function Gains(steps: seq<Step>, nodes: set<Node>): nat {
    if steps == [] then 0 else Gain(steps[0], nodes) + Gains(steps[1..], nodes)
  }

  lemma {:induction false} PotentialRun(s: State, steps: seq<Step>, t: State, nodes: set<Node>)
    requires Runs(s, steps, t) && Among(s, nodes) && forall step :: step in steps ==> OpensAmong(step, nodes)
    ensures Progress(steps) + Potential(t, nodes) <= Potential(s, nodes) + Gains(steps, nodes)
    decreases |steps|
  {
    if steps != [] {
      assert steps[0] in steps;
      PotentialStep(s, steps[0], nodes);
      PotentialRun(Apply(s, steps[0]), steps[1..], t, nodes);
    }
  }

  lemma InjectPotential(nodes: set<Node>, arcs: set<Arc>, origin: Node)
    requires origin in nodes
    ensures Potential(Inject(arcs, origin), nodes) == (|nodes| + 1) * |nodes| + |arcs|
  {
    var s := Inject(arcs, origin);
    assert nodes - s.seen == nodes - {origin};
    assert |s.pending| + |nodes - s.seen| == |nodes|;
    TimesIs(|nodes| + 1, |nodes|);
  }

  /**
   A flood ends unless links keep opening or caches keep forgetting the ID: among n nodes, the receives,
   broadcasts, losses and disconnects of any run are at most n(n + 1) and one for each initial arc, plus
   n + 1 for each time a cache forgot the ID and two for each time a link opened.
   */
  lemma FloodEnds(nodes: set<Node>, arcs: set<Arc>, origin: Node, steps: seq<Step>, t: State)
    requires Runs(Inject(arcs, origin), steps, t) && origin in nodes
    requires (forall a :: a in arcs ==> a.dst in nodes) && forall step :: step in steps ==> OpensAmong(step, nodes)
    ensures Progress(steps) <= (|nodes| + 1) * |nodes| + |arcs| + Gains(steps, nodes)
  {
    InjectPotential(nodes, arcs, origin);
    PotentialRun(Inject(arcs, origin), steps, t, nodes);
  }

  // ----- Coverage and cost in a fixed mesh

  ghost predicate Mesh(nodes: set<Node>, arcs: set<Arc>) {
    forall a :: a in arcs ==>
      a.src in nodes && a.dst in nodes && a.src != a.dst && Arc(a.dst, a.src) in arcs
  }

  ghost predicate Path(arcs: set<Arc>, p: seq<Node>) {
    p != [] && forall i :: 0 <= i < |p| - 1 ==> Arc(p[i], p[i + 1]) in arcs
  }

  ghost predicate Reaches(arcs: set<Arc>, u: Node, v: Node) {
    exists p :: Path(arcs, p) && p[0] == u && p[|p| - 1] == v
  }

  ghost predicate Connected(nodes: set<Node>, arcs: set<Arc>) {
    forall u, v {:trigger Reaches(arcs, u, v)} :: u in nodes && v in nodes ==> Reaches(arcs, u, v)
  }

  /** The links of a mesh, each once. */
  function Links(arcs: set<Arc>): set<Arc> {
    set a | a in arcs && Less(a.src, a.dst)
  }

  /**
   For each link with one end that has seen the ID, the other end has seen it too, a copy is under
   way to it, or the broadcast is still due.
   */
  ghost predicate Covered(s: State) {
    forall a :: a in s.arcs && a.src in s.seen ==> a.dst in s.seen || a in s.flight || a.src in PendingNodes(s)
  }

  /** Whoever owes a broadcast, other than the origin, got the ID over a link from a node that has it. */
  ghost predicate Owed(s: State, origin: Node) {
    forall w :: w in s.pending ==>
      if w.node == origin then w.from == None
      else w.from.Some? && w.from.value in s.seen && Arc(w.node, w.from.value) in s.arcs
  }

  ghost predicate Airborne(s: State) {
    forall a :: a in s.flight ==> a in s.arcs && a.src in Done(s)
  }

  /** Each node that has broadcast has paid one copy per link, less one unless it is the origin. */
  ghost predicate Paid(s: State, origin: Node) {
    s.sent == |Out(s.arcs, Done(s))| - |Done(s) - {origin}|
  }

  ghost predicate Inv(s: State, nodes: set<Node>, origin: Node) {
    && Mesh(nodes, s.arcs) && OneEach(s) && Covered(s) && Owed(s, origin) && Airborne(s) && Paid(s, origin)
    && origin in s.seen && s.seen <= nodes
  }

  lemma ReceiveKeeps(s: State, a: Arc, nodes: set<Node>, origin: Node)
    requires Inv(s, nodes, origin) && a in s.flight
    ensures Inv(Apply(s, Receive(a)), nodes, origin)
  {
    if a.dst in s.seen {
      ReceiveAgain(s, a, nodes, origin);
    } else {
      AcceptShape(s, a);
      ReceiveOwes(s, a, nodes, origin);
      ReceiveCovers(s, a, nodes, origin);
    }
  }

  lemma ReceiveAgain(s: State, a: Arc, nodes: set<Node>, origin: Node)
    requires Inv(s, nodes, origin) && a in s.flight && a.dst in s.seen
    ensures Inv(Apply(s, Receive(a)), nodes, origin)
  {
    var t := Apply(s, Receive(a));
    assert PendingNodes(t) == PendingNodes(s);
    assert forall x :: x in s.flight && x != a ==> x in t.flight;
  }

  lemma ReceiveCovers(s: State, a: Arc, nodes: set<Node>, origin: Node)
    requires Inv(s, nodes, origin) && a in s.flight && a.dst !in s.seen
    ensures Covered(Apply(s, Receive(a)))
  {
    AcceptShape(s, a);
  }

  lemma ReceiveOwes(s: State, a: Arc, nodes: set<Node>, origin: Node)
    requires Inv(s, nodes, origin) && a in s.flight && a.dst !in s.seen
    ensures Owed(Apply(s, Receive(a)), origin)
  {
    var t := Apply(s, Receive(a));
    forall w | w in t.pending && w !in s.pending ensures w == Work(a.dst, Some(a.src)) {
    }
  }

  /** A broadcast sends one copy per link, less the one it came over. */
  lemma CopiesCount(s: State, w: Work, nodes: set<Node>, origin: Node)
    requires Inv(s, nodes, origin) && w in s.pending
    ensures |Copies(s.arcs, w)| == |Out(s.arcs, {w.node})| - (if w.node == origin then 0 else 1)
  {
    if w.node == origin {
      assert Copies(s.arcs, w) == Out(s.arcs, {w.node});
    } else {
      CopiesBut(s.arcs, w.node, w.from.value);
    }
  }

  lemma CopiesBut(arcs: set<Arc>, v: Node, from: Node)
    requires Arc(v, from) in arcs
    ensures |Copies(arcs, Work(v, Some(from)))| == |Out(arcs, {v})| - 1
  {
    assert Copies(arcs, Work(v, Some(from))) == Out(arcs, {v}) - {Arc(v, from)};
  }

  lemma ForwardKeeps(s: State, w: Work, nodes: set<Node>, origin: Node)
    requires Inv(s, nodes, origin) && w in s.pending
    ensures Inv(Apply(s, Forward(w)), nodes, origin)
  {
    var t := Apply(s, Forward(w));
    ForwardShape(s, w);
    ForwardPaid(s, w, nodes, origin);
    CoveredForward(s, w, nodes, origin);
    assert Owed(t, origin) by {
      assert forall x :: x in t.pending ==> x in s.pending;
    }
    assert Airborne(t) by {
      assert forall b :: b in t.flight ==> b in s.flight || b in Copies(s.arcs, w);
    }
  }

  lemma ForwardPaid(s: State, w: Work, nodes: set<Node>, origin: Node)
    requires Inv(s, nodes, origin) && w in s.pending
    ensures Paid(Apply(s, Forward(w)), origin)
  {
    var t := Apply(s, Forward(w));
    ForwardShape(s, w);
    CopiesCount(s, w, nodes, origin);
    OutCount(s.arcs, Done(s), w.node, origin);
  }

  lemma OutCount(arcs: set<Arc>, done: set<Node>, v: Node, origin: Node)
    requires v !in done
    ensures |Out(arcs, done + {v})| == |Out(arcs, done)| + |Out(arcs, {v})|
    ensures |done + {v} - {origin}| == |done - {origin}| + (if v == origin then 0 else 1)
  {
    assert Out(arcs, done + {v}) == Out(arcs, done) + Out(arcs, {v});
    assert Out(arcs, done) !! Out(arcs, {v});
    assert done + {v} - {origin} == if v == origin then done - {origin} else done - {origin} + {v};
  }

  lemma CoveredForward(s: State, w: Work, nodes: set<Node>, origin: Node)
    requires Inv(s, nodes, origin) && w in s.pending
    ensures Covered(Apply(s, Forward(w)))
  {
    var t := Apply(s, Forward(w));
    ForwardShape(s, w);
    forall a | a in t.arcs && a.src in t.seen && a.dst !in t.seen
      ensures a in t.flight || a.src in PendingNodes(t)
    {
      if a.src == w.node {
        assert a in Copies(s.arcs, w);
      }
    }
  }

  predicate Lossless(step: Step) {
    step.Receive? || step.Forward?
  }

  lemma {:induction false} InvRun(s: State, steps: seq<Step>, t: State, nodes: set<Node>, origin: Node)
    requires Inv(s, nodes, origin) && Runs(s, steps, t) && forall step :: step in steps ==> Lossless(step)
    ensures Inv(t, nodes, origin) && t.arcs == s.arcs && t.lost == s.lost && t.forgets == s.forgets
    decreases |steps|
  {
    if steps != [] {
      assert steps[0] in steps;
      match steps[0] {
        case Receive(a) => ReceiveKeeps(s, a, nodes, origin);
        case Forward(w) => ForwardKeeps(s, w, nodes, origin);
      }
      InvRun(Apply(s, steps[0]), steps[1..], t, nodes, origin);
    }
  }

  lemma InjectInv(nodes: set<Node>, arcs: set<Arc>, origin: Node)
    requires Mesh(nodes, arcs) && origin in nodes
    ensures Inv(Inject(arcs, origin), nodes, origin)
  {
    var s := Inject(arcs, origin);
    assert forall w :: w in s.pending ==> w == Work(origin, None);
    assert Work(origin, None) in s.pending;
    assert PendingNodes(s) == {origin};
    assert Done(s) == {};
    assert Out(s.arcs, Done(s)) == {};
  }

  /** What is closed under the links of a path and holds its start holds its end. */
  lemma {:induction false} ClosedPath(arcs: set<Arc>, seen: set<Node>, p: seq<Node>)
    requires Path(arcs, p) && p[0] in seen
    requires forall a :: a in arcs && a.src in seen ==> a.dst in seen
    ensures p[|p| - 1] in seen
    decreases |p|
  {
    if |p| > 1 {
      assert Arc(p[0], p[1]) in arcs;
      assert forall i :: 0 <= i < |p| - 2 ==> Arc(p[1..][i], p[1..][i + 1]) == Arc(p[i + 1], p[i + 1 + 1]);
      ClosedPath(arcs, seen, p[1..]);
    }
  }

  /** Two arcs make a link. */
  lemma ArcsAreTwiceLinks(nodes: set<Node>, arcs: set<Arc>)
    requires Mesh(nodes, arcs)
    ensures |arcs| == 2 * |Links(arcs)|
  {
    var back := set a | a in Links(arcs) :: Arc(a.dst, a.src);
    forall a | a in arcs ensures (a in Links(arcs)) != (a in back) {
      LessTotal(a.src, a.dst);
      if !Less(a.src, a.dst) {
        assert Arc(a.dst, a.src) in Links(arcs);
      }
    }
    assert arcs == Links(arcs) + back;
    ReverseCount(Links(arcs));
  }

  lemma {:induction false} ReverseCount(arcs: set<Arc>)
    ensures |set a | a in arcs :: Arc(a.dst, a.src)| == |arcs|
  {
    if arcs != {} {
      var x :| x in arcs;
      ReverseCount(arcs - {x});
      var back := set a | a in arcs :: Arc(a.dst, a.src);
      assert back == (set a | a in arcs - {x} :: Arc(a.dst, a.src)) + {Arc(x.dst, x.src)};
    }
  }

  /**
   Coverage with an exact cost: in a fixed, connected, lossless mesh, whatever the order of steps,
   once nothing is left to do every node has delivered the message exactly once, and 2|E| - |V| + 1
   copies have been sent and received.
   */
  lemma FloodCoverage(nodes: set<Node>, arcs: set<Arc>, origin: Node, steps: seq<Step>, t: State)
    requires Mesh(nodes, arcs) && Connected(nodes, arcs) && origin in nodes
    requires Runs(Inject(arcs, origin), steps, t) && forall step :: step in steps ==> Lossless(step)
    requires t.flight == multiset{} && t.pending == multiset{}
    ensures t.seen == nodes
    ensures forall v :: v in nodes ==> t.delivered[v] == 1
    ensures t.sent == t.received == 2 * |Links(arcs)| - |nodes| + 1
  {
    var s := Inject(arcs, origin);
    InjectInv(nodes, arcs, origin);
    InvRun(s, steps, t, nodes, origin);
    SafeRun(s, steps, t);
    QuiescentCounts(t, nodes, origin);
  }

  lemma QuiescentCounts(t: State, nodes: set<Node>, origin: Node)
    requires Inv(t, nodes, origin) && Connected(nodes, t.arcs) && origin in nodes
    requires t.flight == multiset{} && t.pending == multiset{}
    requires Safe(t) && t.forgets == multiset{} && t.lost == 0
    ensures t.seen == nodes
    ensures forall v :: v in nodes ==> t.delivered[v] == 1
    ensures t.sent == t.received == 2 * |Links(t.arcs)| - |nodes| + 1
  {
    QuiescentCovers(t, nodes, origin);
    ArcsAreTwiceLinks(nodes, t.arcs);
  }

  lemma QuiescentCovers(t: State, nodes: set<Node>, origin: Node)
    requires Inv(t, nodes, origin) && Connected(nodes, t.arcs) && origin in nodes
    requires t.flight == multiset{} && t.pending == multiset{}
    ensures t.seen == nodes && t.sent == |t.arcs| - |nodes| + 1
  {
    assert PendingNodes(t) == {};
    forall v | v in nodes ensures v in t.seen {
      assert Reaches(t.arcs, origin, v);
      var p :| Path(t.arcs, p) && p[0] == origin && p[|p| - 1] == v;
      ClosedPath(t.arcs, t.seen, p);
    }
    assert Done(t) == nodes;
    assert Out(t.arcs, nodes) == t.arcs;
    assert |nodes - {origin}| == |nodes| - 1;
  }

  /** While a copy or a broadcast is outstanding the flood can go on. */
  lemma FloodProgress(s: State)
    requires s.flight != multiset{} || s.pending != multiset{}
    ensures exists step :: Lossless(step) && Enabled(s, step)
  {
    if s.flight != multiset{} {
      var a :| a in s.flight;
      assert Enabled(s, Receive(a));
    } else {
      var w :| w in s.pending;
      assert Enabled(s, Forward(w));
    }
  }
}
