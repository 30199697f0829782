/**
 Two peers dialling each other. Any number of sessions, dialled from either end, have come through
 their handshakes; both managers adopt, close and unregister their ends in any interleaving, and
 exchange nothing about it. The steps are the sections a manager runs under its lock, plus the
 closing of sockets outside it.
 */
module CrossingDials {
  import opened Basics
  import Peers

  type Sid = nat

  /** `smalls` and `larges` are the sessions dialled by the smaller and by the larger ID. */
  datatype Setup = Setup(smallID: Peers.PeerId, largeID: Peers.PeerId, smalls: set<Sid>, larges: set<Sid>) {
    ghost predicate Ok() {
      Less(smallID, largeID) && smalls !! larges
    }
    function Sessions(): set<Sid> {
      smalls + larges
    }
  }

  datatype End = Small | Large

  function Other(e: End): End {
    if e.Small? then Large else Small
  }

  /** One manager's view: sessions to adopt, the table entry for the peer, sessions to close, closed
      sessions, and sessions whose read loop runs. */
  datatype Side = Side(pending: set<Sid>, table: Option<Sid>, doomed: set<Sid>, closed: set<Sid>, running: set<Sid>)

  datatype World = World(small: Side, large: Side) {
    function At(e: End): Side {
      if e.Small? then small else large
    }
    function With(e: End, s: Side): World {
      if e.Small? then this.(small := s) else this.(large := s)
    }
  }

  /** A handshake may fail, and a read loop ends, once the other end has closed the session. */
  datatype Step = Adopt(at: End, s: Sid) | Shut(at: End, s: Sid) | Fail(at: End, s: Sid) | Unregister(at: End, s: Sid)

  predicate Inbound(c: Setup, at: End, s: Sid) {
    if at.Small? then s in c.larges else s in c.smalls
  }

  predicate Beats(c: Setup, at: End, old': Sid, new': Sid) {
    if at.Small? then Peers.Replaces(c.smallID, c.largeID, Inbound(c, at, old'), Inbound(c, at, new'))
    else Peers.Replaces(c.largeID, c.smallID, Inbound(c, at, old'), Inbound(c, at, new'))
  }

  predicate Enabled(w: World, step: Step) {
    var here, there := w.At(step.at), w.At(Other(step.at));
    match step
    case Adopt(_, s) => s in here.pending
    case Shut(_, s) => s in here.doomed
    case Fail(_, s) => s in here.pending && s in there.closed
    case Unregister(_, s) => s in here.running && (s in here.closed || s in there.closed)
  }

  function Adopts(c: Setup, at: End, x: Side, s: Sid): Side {
    var y := x.(pending := x.pending - {s});
    match x.table
    case None => y.(table := Some(s), running := x.running + {s})
    case Some(t) =>
      if Beats(c, at, t, s) then y.(table := Some(s), running := x.running + {s}, doomed := x.doomed + {t})
      else y.(doomed := x.doomed + {s})
  }

  function Apply(c: Setup, w: World, step: Step): World {
    var x := w.At(step.at);
    match step
    case Adopt(at, s) => w.With(at, Adopts(c, at, x, s))
    case Shut(at, s) => w.With(at, x.(doomed := x.doomed - {s}, closed := x.closed + {s}))
    case Fail(at, s) => w.With(at, x.(pending := x.pending - {s}, closed := x.closed + {s}))
    case Unregister(at, s) =>
      w.With(at, x.(running := x.running - {s}, closed := x.closed + {s},
                    table := if x.table == Some(s) then None else x.table))
  }

  function Init(c: Setup): World {
    var x := Side(c.Sessions(), None, {}, {}, {});
    World(x, x)
  }

  /** The world after a schedule, None if the schedule cannot be played. */
  function Play(c: Setup, steps: seq<Step>): Option<World> {
    if steps == [] then Some(Init(c))
    else
      match Play(c, steps[..|steps| - 1])
      case None => None
      case Some(w) => if Enabled(w, steps[|steps| - 1]) then Some(Apply(c, w, steps[|steps| - 1])) else None
  }

  ghost predicate Reachable(c: Setup, w: World) {
    exists steps :: Play(c, steps) == Some(w)
  }

  ghost predicate Terminal(w: World) {
    forall step :: !Enabled(w, step)
  }

  predicate Open(w: World, s: Sid) {
    s !in w.small.closed && s !in w.large.closed
  }

  ghost predicate Agreed(w: World) {
    exists s :: w.small.table == Some(s) && w.large.table == Some(s) && Open(w, s)
  }

  ghost predicate AlwaysAgrees(c: Setup) {
    forall w :: Reachable(c, w) && Terminal(w) ==> Agreed(w)
  }

  // ----- What the managers do is what the steps say

  function LocalID(c: Setup, at: End): Peers.PeerId {
    if at.Small? then c.smallID else c.largeID
  }

  function PeerID(c: Setup, at: End): Peers.PeerId {
    LocalID(c, Other(at))
  }

  /** One end's session objects, one per session, under the peer's ID and with the right direction. */
  ghost predicate Ends(c: Setup, at: End, ends: map<Sid, Peers.Conn>) {
    && ends.Keys == c.Sessions()
    && (forall s :: s in ends ==> ends[s].peer == PeerID(c, at) && ends[s].inbound == Inbound(c, at, s))
    && (forall s, t :: s in ends && t in ends && s != t ==> ends[s] != ends[t])
  }

  /** A manager's table, which may hold other peers too, has this entry for the peer. */
  ghost predicate Shows(c: Setup, at: End, ends: map<Sid, Peers.Conn>, conns: Peers.Table, entry: Option<Sid>) {
    match entry
    case None => PeerID(c, at) !in conns
    case Some(s) => s in ends && PeerID(c, at) in conns && conns[PeerID(c, at)] == ends[s]
  }

  /** The session that `Peers.Manager.Adopt` closes for a decision, if any. */
  function Loser(d: Peers.Decision, entry: Option<Sid>, s: Sid): set<Sid> {
    if d.Insert? then {} else if d.Replace? && entry.Some? then {entry.value} else {s}
  }

  /**
   Adopting a session at a manager is the adopt step: the entry for the peer and the session that is
   closed are those of `Adopts`, unless the manager refuses because it has too many peers.
   */
  lemma AdoptRefines(c: Setup, at: End, ends: map<Sid, Peers.Conn>, conns: Peers.Table, maxPeers: int, x: Side, s: Sid)
    requires c.Ok() && Ends(c, at, ends) && Shows(c, at, ends, conns, x.table) && s in ends
    requires x.table.Some? || maxPeers <= 0 || |conns| < maxPeers
    ensures var d := Peers.Decide(LocalID(c, at), maxPeers, conns, ends[s]);
      && Shows(c, at, ends, Peers.Adopted(LocalID(c, at), maxPeers, conns, ends[s]), Adopts(c, at, x, s).table)
      && Adopts(c, at, x, s).doomed == x.doomed + Loser(d, x.table, s)
      && (s in Adopts(c, at, x, s).running <==> s in x.running || d.Insert? || d.Replace?)
  {
    LessTotal(c.smallID, c.largeID);
    Peers.DecideExact(LocalID(c, at), maxPeers, conns, ends[s]);
  }

  /** Unregistering a session at a manager is the unregister step. */
  lemma UnregisterRefines(c: Setup, at: End, ends: map<Sid, Peers.Conn>, conns: Peers.Table, w: World, s: Sid)
    requires c.Ok() && Ends(c, at, ends) && Shows(c, at, ends, conns, w.At(at).table) && s in ends
    ensures Shows(c, at, ends, Peers.Unregistered(conns, ends[s]), Apply(c, w, Unregister(at, s)).At(at).table)
  {
    Peers.UnregisteredExact(conns, ends[s]);
  }

  /** The table of one manager after a schedule, by what `Peers.Manager` does in each step. */
  function TableAfter(c: Setup, at: End, ends: map<Sid, Peers.Conn>, maxPeers: int, conns: Peers.Table, steps: seq<Step>): Peers.Table {
    if steps == [] then conns
    else
      var t, step := TableAfter(c, at, ends, maxPeers, conns, steps[..|steps| - 1]), steps[|steps| - 1];
      if step.at != at || step.s !in ends then t
      else if step.Adopt? then Peers.Adopted(LocalID(c, at), maxPeers, t, ends[step.s])
      else if step.Unregister? then Peers.Unregistered(t, ends[step.s])
      else t
  }

  /** The table without the entry for the peer stays as it was. */
  ghost predicate OthersStay(c: Setup, at: End, conns: Peers.Table, t: Peers.Table) {
    t - {PeerID(c, at)} == conns
  }

  lemma OthersStep(c: Setup, at: End, ends: map<Sid, Peers.Conn>, maxPeers: int, conns: Peers.Table, t: Peers.Table, s: Sid)
    requires Ends(c, at, ends) && s in ends && OthersStay(c, at, conns, t)
    ensures OthersStay(c, at, conns, Peers.Adopted(LocalID(c, at), maxPeers, t, ends[s]))
    ensures OthersStay(c, at, conns, Peers.Unregistered(t, ends[s]))
  {
  }

  lemma OwnStep(c: Setup, at: End, ends: map<Sid, Peers.Conn>, maxPeers: int, conns: Peers.Table, t: Peers.Table, w: World, step: Step)
    requires c.Ok() && Ends(c, at, ends) && PeerID(c, at) !in conns && (maxPeers <= 0 || |conns| < maxPeers)
    requires Shows(c, at, ends, t, w.At(at).table) && OthersStay(c, at, conns, t)
    requires step.at == at && step.s in ends
    ensures step.Adopt? ==>
      Shows(c, at, ends, Peers.Adopted(LocalID(c, at), maxPeers, t, ends[step.s]), Apply(c, w, step).At(at).table)
    ensures step.Unregister? ==>
      Shows(c, at, ends, Peers.Unregistered(t, ends[step.s]), Apply(c, w, step).At(at).table)
  {
    if step.Adopt? {
      if w.At(at).table == None {
        assert t - {PeerID(c, at)} == t;
      }
      AdoptRefines(c, at, ends, t, maxPeers, w.At(at), step.s);
    } else if step.Unregister? {
      UnregisterRefines(c, at, ends, t, w, step.s);
    }
  }

  /** Sessions are those of the setup. */
  ghost predicate Known(c: Setup, x: Side) {
    x.pending <= c.Sessions() && x.doomed <= c.Sessions() && x.running <= c.Sessions()
    && (x.table.Some? ==> x.table.value in c.Sessions())
  }

  lemma {:induction false} KnownAlways(c: Setup, steps: seq<Step>)
    requires Play(c, steps).Some?
    ensures Known(c, Play(c, steps).value.small) && Known(c, Play(c, steps).value.large)
    decreases |steps|
  {
    if steps != [] {
      KnownAlways(c, steps[..|steps| - 1]);
    }
  }

  /** Over whole schedules, the tables of the managers show what the steps say. */
  lemma {:induction false} TablesFollow(c: Setup, at: End, ends: map<Sid, Peers.Conn>, maxPeers: int, conns: Peers.Table, steps: seq<Step>)
    requires c.Ok() && Ends(c, at, ends) && PeerID(c, at) !in conns && (maxPeers <= 0 || |conns| < maxPeers)
    requires Play(c, steps).Some?
    ensures var t := TableAfter(c, at, ends, maxPeers, conns, steps);
      Shows(c, at, ends, t, Play(c, steps).value.At(at).table) && OthersStay(c, at, conns, t)
    decreases |steps|
  {
    if steps == [] {
      assert conns - {PeerID(c, at)} == conns;
    } else {
      var init, step := steps[..|steps| - 1], steps[|steps| - 1];
      var t, w := TableAfter(c, at, ends, maxPeers, conns, init), Play(c, init).value;
      TablesFollow(c, at, ends, maxPeers, conns, init);
      KnownAlways(c, init);
      assert step.s in ends;
      OthersStep(c, at, ends, maxPeers, conns, t, step.s);
      if step.at == at {
        OwnStep(c, at, ends, maxPeers, conns, t, w, step);
      }
    }
  }

  // ----- Every schedule ends

  function Weight(x: Side): nat {
    3 * |x.pending| + |x.doomed| + |x.running|
  }

  lemma WeightDrops(c: Setup, w: World, step: Step)
    requires Enabled(w, step)
    ensures var v := Apply(c, w, step);
      Weight(v.small) + Weight(v.large) < Weight(w.small) + Weight(w.large)
  {
    var x := w.At(step.at);
    if step.Adopt? {
      AddOne(x.running, step.s);
      AddOne(x.doomed, step.s);
      if x.table.Some? {
        AddOne(x.doomed, x.table.value);
      }
    }
  }

  lemma AddOne(xs: set<Sid>, s: Sid)
    ensures |xs + {s}| <= |xs| + 1
  {
    if s in xs {
      assert xs + {s} == xs;
    }
  }

  /** No schedule is longer than six steps per session. */
  lemma {:induction false} SchedulesEnd(c: Setup, steps: seq<Step>)
    requires Play(c, steps).Some?
    ensures |steps| + Weight(Play(c, steps).value.small) + Weight(Play(c, steps).value.large) <= 6 * |c.Sessions()|
    decreases |steps|
  {
    if steps != [] {
      var init := steps[..|steps| - 1];
      SchedulesEnd(c, init);
      WeightDrops(c, Play(c, init).value, steps[|steps| - 1]);
    }
  }

  // ----- The winner survives

  /** `p` is preferred to every other session, or is the only one. */
  ghost predicate Winner(c: Setup, p: Sid) {
    p in c.Sessions() && forall s :: s in c.Sessions() && s != p ==> p in c.smalls && s in c.larges
  }

  ghost predicate Holds(c: Setup, x: Side, p: Sid) {
    && x.pending <= c.Sessions()
    && (x.table.Some? ==> x.table.value in c.Sessions())
    && p !in x.doomed && p !in x.closed
    && (if p in x.pending then x.table != Some(p) else x.table == Some(p))
  }

  /** Both ends rank the winner above every other session and no other session above the winner. */
  lemma WinnerBeats(c: Setup, at: End, p: Sid, s: Sid)
    requires c.Ok() && Winner(c, p) && s in c.Sessions() && s != p
    ensures Beats(c, at, s, p) && !Beats(c, at, p, s)
  {
    LessTotal(c.smallID, c.largeID);
  }

  lemma WinnerStep(c: Setup, w: World, step: Step, p: Sid)
    requires c.Ok() && Winner(c, p) && Holds(c, w.small, p) && Holds(c, w.large, p) && Enabled(w, step)
    ensures var v := Apply(c, w, step); Holds(c, v.small, p) && Holds(c, v.large, p)
  {
    if step.Adopt? {
      var x := w.At(step.at);
      if step.s != p {
        WinnerBeats(c, step.at, p, step.s);
      }
      if x.table.Some? && x.table.value != p {
        WinnerBeats(c, step.at, p, x.table.value);
      }
    }
  }

  lemma {:induction false} WinnerHolds(c: Setup, steps: seq<Step>, p: Sid)
    requires c.Ok() && Winner(c, p) && Play(c, steps).Some?
    ensures var w := Play(c, steps).value; Holds(c, w.small, p) && Holds(c, w.large, p)
    decreases |steps|
  {
    if steps != [] {
      var init := steps[..|steps| - 1];
      WinnerHolds(c, init, p);
      WinnerStep(c, Play(c, init).value, steps[|steps| - 1], p);
    }
  }

  /**
   Crossing dials agree: when the smaller ID has dialled once, under every interleaving its session
   is never closed by either manager, and once no step remains both tables hold exactly it. The same
   holds of a session that is the only one.
   */
  lemma CrossingDialsAgree(c: Setup, w: World, p: Sid)
    requires c.Ok() && Winner(c, p) && Reachable(c, w)
    ensures Open(w, p)
    ensures Terminal(w) ==> w.small.table == Some(p) && w.large.table == Some(p)
  {
    var steps :| Play(c, steps) == Some(w);
    WinnerHolds(c, steps, p);
    if Terminal(w) {
      assert !Enabled(w, Adopt(Small, p)) && !Enabled(w, Adopt(Large, p));
    }
  }

  /**
   So two managers that adopt and unregister as the program does agree: whatever the interleaving and
   whatever other peers they have, once no step remains each holds its end of the winning session.
   */
  lemma ManagersAgree(c: Setup, steps: seq<Step>, p: Sid, at: End, ends: map<Sid, Peers.Conn>, maxPeers: int, conns: Peers.Table)
    requires c.Ok() && Winner(c, p) && Play(c, steps).Some? && Terminal(Play(c, steps).value)
    requires Ends(c, at, ends) && PeerID(c, at) !in conns && (maxPeers <= 0 || |conns| < maxPeers)
    ensures TableAfter(c, at, ends, maxPeers, conns, steps) == conns[PeerID(c, at) := ends[p]]
  {
    var t := TableAfter(c, at, ends, maxPeers, conns, steps);
    CrossingDialsAgree(c, Play(c, steps).value, p);
    TablesFollow(c, at, ends, maxPeers, conns, steps);
    assert t == (t - {PeerID(c, at)})[PeerID(c, at) := ends[p]];
  }

  // ----- Two sessions dialled in the same direction may both be lost

  lemma Reach(c: Setup, w: World, step: Step)
    requires Reachable(c, w) && Enabled(w, step)
    ensures Reachable(c, Apply(c, w, step))
  {
    var steps :| Play(c, steps) == Some(w);
    assert (steps + [step])[..|steps|] == steps;
    assert Play(c, steps + [step]) == Some(Apply(c, w, step));
  }

  /** A session that no other session replaces. */
  ghost predicate Unbeaten(c: Setup, at: End, x: Sid) {
    forall s :: s in c.Sessions() ==> !Beats(c, at, x, s)
  }

  /** Once an unbeaten session is in the table, adopting the rest dooms the rest. */
  lemma {:induction false} AdoptRest(c: Setup, w: World, at: End, x: Sid)
    requires Reachable(c, w) && Unbeaten(c, at, x)
    requires w.At(at).table == Some(x) && w.At(at).pending <= c.Sessions()
    ensures var here := w.At(at);
      Reachable(c, w.With(at, here.(pending := {}, doomed := here.doomed + here.pending)))
    decreases w.At(at).pending
  {
    var here := w.At(at);
    if here.pending == {} {
      assert here.(pending := {}, doomed := here.doomed + here.pending) == here;
      assert w.With(at, here) == w;
    } else {
      var s :| s in here.pending;
      var v := Apply(c, w, Adopt(at, s));
      Reach(c, w, Adopt(at, s));
      AdoptRest(c, v, at, x);
      assert v.At(at).doomed + v.At(at).pending == here.doomed + here.pending;
    }
  }

  lemma {:induction false} ShutRest(c: Setup, w: World, at: End)
    requires Reachable(c, w)
    ensures var here := w.At(at);
      Reachable(c, w.With(at, here.(doomed := {}, closed := here.closed + here.doomed)))
    decreases w.At(at).doomed
  {
    var here := w.At(at);
    if here.doomed == {} {
      assert here.(doomed := {}, closed := here.closed + here.doomed) == here;
      assert w.With(at, here) == w;
    } else {
      var s :| s in here.doomed;
      var v := Apply(c, w, Shut(at, s));
      Reach(c, w, Shut(at, s));
      ShutRest(c, v, at);
      assert v.At(at).closed + v.At(at).doomed == here.closed + here.doomed;
    }
  }

  /** One end adopts `x` first and drops everything else. */
  lemma Favour(c: Setup, w: World, at: End, x: Sid)
    requires Reachable(c, w) && Unbeaten(c, at, x) && x in c.Sessions()
    requires w.At(at) == Side(c.Sessions(), None, {}, {}, {})
    ensures Reachable(c, w.With(at, Side({}, Some(x), {}, c.Sessions() - {x}, {x})))
  {
    Reach(c, w, Adopt(at, x));
    var v := Apply(c, w, Adopt(at, x));
    AdoptRest(c, v, at, x);
    var u := v.With(at, Side({}, Some(x), c.Sessions() - {x}, {}, {x}));
    assert v.At(at).(pending := {}, doomed := v.At(at).doomed + v.At(at).pending) == u.At(at);
    assert Reachable(c, u);
    ShutRest(c, u, at);
    assert u.At(at).(doomed := {}, closed := u.At(at).closed + u.At(at).doomed)
        == Side({}, Some(x), {}, c.Sessions() - {x}, {x});
    assert u.With(at, Side({}, Some(x), {}, c.Sessions() - {x}, {x}))
        == w.With(at, Side({}, Some(x), {}, c.Sessions() - {x}, {x}));
  }

  /** The two ends favour different sessions, and end up with none. */
  lemma BothLost(c: Setup, x: Sid, y: Sid)
    requires x != y && x in c.Sessions() && y in c.Sessions()
    requires Unbeaten(c, Small, x) && Unbeaten(c, Large, y)
    ensures var w := World(Side({}, None, {}, c.Sessions(), {}), Side({}, None, {}, c.Sessions(), {}));
      Reachable(c, w) && Terminal(w) && !Agreed(w)
  {
    var all := c.Sessions();
    assert Play(c, []) == Some(Init(c));
    Favour(c, Init(c), Small, x);
    var w1 := World(Side({}, Some(x), {}, all - {x}, {x}), Side(all, None, {}, {}, {}));
    Favour(c, w1, Large, y);
    var w2 := World(w1.small, Side({}, Some(y), {}, all - {y}, {y}));
    Reach(c, w2, Unregister(Small, x));
    var w3 := Apply(c, w2, Unregister(Small, x));
    assert w3 == World(Side({}, None, {}, all, {}), w2.large);
    Reach(c, w3, Unregister(Large, y));
    assert Apply(c, w3, Unregister(Large, y)) == World(Side({}, None, {}, all, {}), Side({}, None, {}, all, {}));
  }

  /**
   Exactly when the two tables agree under every interleaving: the smaller ID has dialled once, or it
   has not dialled at all and the larger ID has dialled once. A second session in the same direction
   lets each end drop the one the other keeps.
   */
  lemma AgreementExact(c: Setup)
    requires c.Ok()
    ensures AlwaysAgrees(c) <==> |c.smalls| == 1 || (c.smalls == {} && |c.larges| == 1)
  {
    LessTotal(c.smallID, c.largeID);
    var favourites := if c.smalls != {} then c.smalls else c.larges;
    assert forall x, at :: x in favourites ==> Unbeaten(c, at, x);
    if favourites == {} {
      assert Play(c, []) == Some(Init(c));
      assert Terminal(Init(c)) && !Agreed(Init(c));
    } else {
      var x :| x in favourites;
      if favourites == {x} {
        forall w | Reachable(c, w) && Terminal(w) ensures Agreed(w) {
          CrossingDialsAgree(c, w, x);
        }
      } else {
        var y :| y in favourites && y != x;
        assert {x, y} <= favourites;
        SubsetCount({x, y}, favourites);
        BothLost(c, x, y);
      }
    }
  }

  // ----- The tables never split

  /** Each session is still to be adopted, on its way out, or in the table, whose session is being read. */
  ghost predicate Placed(c: Setup, x: Side) {
    && (forall s :: s in c.Sessions() ==> s in x.pending || s in x.doomed || s in x.closed || x.table == Some(s))
    && x.pending <= c.Sessions()
    && (x.table.Some? ==> x.table.value in x.running && x.table.value in c.Sessions())
  }

  lemma PlacedStep(c: Setup, w: World, step: Step)
    requires Placed(c, w.small) && Placed(c, w.large) && Enabled(w, step)
    ensures Placed(c, Apply(c, w, step).small) && Placed(c, Apply(c, w, step).large)
  {
  }

  lemma {:induction false} PlacedAlways(c: Setup, steps: seq<Step>)
    requires Play(c, steps).Some?
    ensures Placed(c, Play(c, steps).value.small) && Placed(c, Play(c, steps).value.large)
    decreases |steps|
  {
    if steps != [] {
      var init := steps[..|steps| - 1];
      PlacedAlways(c, init);
      PlacedStep(c, Play(c, init).value, steps[|steps| - 1]);
    }
  }

  /** A session that one end holds when no step remains is open, and the other end holds it too. */
  lemma HeldByBoth(c: Setup, w: World, at: End, s: Sid)
    requires Placed(c, w.small) && Placed(c, w.large) && Terminal(w) && w.At(at).table == Some(s)
    ensures Open(w, s) && w.At(Other(at)).table == Some(s)
  {
    assert !Enabled(w, Unregister(at, s));
    assert !Enabled(w, Adopt(Other(at), s)) && !Enabled(w, Shut(Other(at), s));
  }

  /**
   However many sessions were dialled from either end, the tables never split: once no step remains
   either both hold the same open session or both are empty. They are empty in the end, under some
   interleaving, exactly outside the condition of `AgreementExact`.
   */
  lemma NeverSplit(c: Setup, w: World)
    requires Reachable(c, w) && Terminal(w)
    ensures w.small.table == w.large.table
    ensures Agreed(w) || (w.small.table == None && w.large.table == None)
  {
    var steps :| Play(c, steps) == Some(w);
    PlacedAlways(c, steps);
    if w.small.table.Some? {
      HeldByBoth(c, w, Small, w.small.table.value);
    } else if w.large.table.Some? {
      HeldByBoth(c, w, Large, w.large.table.value);
    }
  }

  /** Two sessions from "a" to "b" and none back: some schedule leaves both tables empty. */
  lemma TwoDialsMayBothBeLost()
    ensures !AlwaysAgrees(Setup("a", "b", {0, 1}, {}))
  {
    var c := Setup("a", "b", {0, 1}, {});
    assert Less("a", "b");
    assert |c.smalls| == 2;
    AgreementExact(c);
  }
}
