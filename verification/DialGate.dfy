/**
 Concurrent dialling: workers of any number of calls compete for a claim on their address, for four
 global dial slots and for the four places of their call, and report one result each. A lone
 `dialOne` is a call with one worker.
 */
module DialGate {
  import opened Basics

  type Addr = string
  type Call = nat

  const DIAL_SLOTS: nat := 4
  const CALL_PLACES: nat := 4

  /** What an attempt came to; a session dropped as a duplicate counts as success. */
  datatype Res = Ok | Canceled | Already | Failed(reason: string)

  /**
   Where a worker is. It has a place in its call from `Entered` to `Reported`, the claim on its
   address from `Claimed` to `Slotless`, and a dial slot in `Dialing` and `Dialled`.
   */
  datatype Pc =
    | Start
    | Entered
    | Claimed
    | Dialing
    | Dialled(r: Res)
    | Slotless(r: Res)
    | Finished(r: Res)
    | Announced(r: Res)
    | Reported(r: Res)
    | Done(r: Res)

  datatype Worker = Worker(call: Call, addr: Addr, pc: Pc)

  datatype Sent = Sent(w: nat, r: Res)

  /** Shared state: the dial slots in use, claimed addresses, places in use per call, cancelled
      calls, and the results sent so far. */
  datatype World = World(
    ws: seq<Worker>, slots: nat, dialing: set<Addr>, places: map<Call, nat>, cancelled: set<Call>, log: seq<Sent>)

  datatype Step =
    | Enter(i: nat)
    | Abort(i: nat)
    | Claim(i: nat)
    | Refuse(i: nat)
    | TakeSlot(i: nat)
    | GiveUp(i: nat)
    | Outcome(i: nat, r: Res)
    | FreeSlot(i: nat)
    | FreeClaim(i: nat)
    | Announce(i: nat)
    | Report(i: nat)
    | Leave(i: nat)
    | Stop(c: Call)

  // ----- Steps

  predicate Enabled(w: World, s: Step) {
    if s.Stop? then s.c in w.places && s.c !in w.cancelled
    else
      && s.i < |w.ws|
      && var x := w.ws[s.i];
         match s
         case Enter(_) => x.pc.Start? && x.call in w.places && w.places[x.call] < CALL_PLACES
         case Abort(_) => x.pc.Start? && x.call in w.cancelled
         case Claim(_) => x.pc.Entered? && x.addr !in w.dialing
         case Refuse(_) => x.pc.Entered? && x.addr in w.dialing
         case TakeSlot(_) => x.pc.Claimed? && w.slots < DIAL_SLOTS
         case GiveUp(_) => x.pc.Claimed? && x.call in w.cancelled
         case Outcome(_, r) => x.pc.Dialing? && !r.Already? && (r.Canceled? ==> x.call in w.cancelled)
         case FreeSlot(_) => x.pc.Dialled? && w.slots > 0
         case FreeClaim(_) => x.pc.Slotless?
         case Announce(_) => x.pc.Finished?
         case Report(_) => x.pc.Announced?
         case Leave(_) => x.pc.Reported? && x.call in w.places && w.places[x.call] > 0
  }

  function At(w: World, i: nat, pc: Pc): World
    requires i < |w.ws|
  {
    w.(ws := w.ws[i := w.ws[i].(pc := pc)])
  }

  function Apply(w: World, s: Step): World
    requires Enabled(w, s)
  {
    if s.Stop? then w.(cancelled := w.cancelled + {s.c})
    else
      var x := w.ws[s.i];
      match s
      case Enter(i) => At(w, i, Entered).(places := w.places[x.call := w.places[x.call] + 1])
      case Abort(i) => At(w, i, Done(Canceled)).(log := w.log + [Sent(i, Canceled)])
      case Claim(i) => At(w, i, Claimed).(dialing := w.dialing + {x.addr})
      case Refuse(i) => At(w, i, Finished(Already))
      case TakeSlot(i) => At(w, i, Dialing).(slots := w.slots + 1)
      case GiveUp(i) => At(w, i, Slotless(Canceled))
      case Outcome(i, r) => At(w, i, Dialled(r))
      case FreeSlot(i) => At(w, i, Slotless(x.pc.r)).(slots := w.slots - 1)
      case FreeClaim(i) => At(w, i, Finished(x.pc.r)).(dialing := w.dialing - {x.addr})
      case Announce(i) =>
        At(w, i, Announced(x.pc.r)).(cancelled := if x.pc.r.Ok? then w.cancelled + {x.call} else w.cancelled)
      case Report(i) => At(w, i, Reported(x.pc.r)).(log := w.log + [Sent(i, x.pc.r)])
      case Leave(i) => At(w, i, Done(x.pc.r)).(places := w.places[x.call := w.places[x.call] - 1])
  }

  /** Schedules: steps in sequence, latest last. */
  datatype Run = Begin | Then(earlier: Run, s: Step)

  ghost predicate Fresh(w: World) {
    && (forall i :: 0 <= i < |w.ws| ==> w.ws[i].pc.Start? && w.ws[i].call in w.places)
    && (forall c :: c in w.places ==> w.places[c] == 0)
    && w.slots == 0 && w.dialing == {} && w.cancelled == {} && w.log == []
  }

  function Play(w: World, run: Run): Option<World> {
    match run
    case Begin => Some(w)
    case Then(earlier, s) =>
      match Play(w, earlier)
      case None => None
      case Some(v) => if Enabled(v, s) then Some(Apply(v, s)) else None
  }

  // ----- Counting workers

  function Total(ws: seq<Worker>, f: Worker -> nat): nat {
    if ws == [] then 0 else Total(ws[..|ws| - 1], f) + f(ws[|ws| - 1])
  }

  lemma {:induction false} TotalUpdate(ws: seq<Worker>, i: nat, x: Worker, f: Worker -> nat)
    requires i < |ws|
    ensures Total(ws[i := x], f) + f(ws[i]) == Total(ws, f) + f(x)
  {
    var n := |ws| - 1;
    if i < n {
      assert ws[i := x][..n] == ws[..n][i := x];
      TotalUpdate(ws[..n], i, x, f);
    } else {
      assert ws[i := x][..n] == ws[..n];
    }
  }

  lemma {:induction false} TotalZero(ws: seq<Worker>, f: Worker -> nat)
    requires forall i :: 0 <= i < |ws| ==> f(ws[i]) == 0
    ensures Total(ws, f) == 0
  {
    if ws != [] {
      TotalZero(ws[..|ws| - 1], f);
    }
  }

  lemma {:induction false} TotalAtLeast(ws: seq<Worker>, i: nat, f: Worker -> nat)
    requires i < |ws|
    ensures Total(ws, f) >= f(ws[i])
  {
    if i < |ws| - 1 {
      TotalAtLeast(ws[..|ws| - 1], i, f);
    }
  }

  predicate HasPlace(pc: Pc) {
    !pc.Start? && !pc.Done?
  }

  predicate HasClaim(pc: Pc) {
    pc.Claimed? || pc.Dialing? || pc.Dialled? || pc.Slotless?
  }

  predicate HasSlot(pc: Pc) {
    pc.Dialing? || pc.Dialled?
  }

  predicate HasSent(pc: Pc) {
    pc.Reported? || pc.Done?
  }

  const SlotOf: Worker -> nat := (x: Worker) => if HasSlot(x.pc) then 1 else 0

  function PlaceOf(c: Call): Worker -> nat {
    (x: Worker) => if x.call == c && HasPlace(x.pc) then 1 else 0
  }

  /** Slots of workers of other calls. */
  function SlotBut(c: Call): Worker -> nat {
    (x: Worker) => if x.call != c && HasSlot(x.pc) then 1 else 0
  }

  function In(c: Call): Worker -> nat {
    (x: Worker) => if x.call == c then 1 else 0
  }

  function SentIn(c: Call): Worker -> nat {
    (x: Worker) => if x.call == c && HasSent(x.pc) then 1 else 0
  }

  /** Workers of a call that have sent this result. */
  function SentBy(c: Call, r: Res): Worker -> nat {
    (x: Worker) => if x.call == c && HasSent(x.pc) && x.pc.r == r then 1 else 0
  }

  lemma {:induction false} TotalSame(ws: seq<Worker>, f: Worker -> nat, g: Worker -> nat)
    requires forall i :: 0 <= i < |ws| ==> f(ws[i]) == g(ws[i])
    ensures Total(ws, f) == Total(ws, g)
  {
    if ws != [] {
      TotalSame(ws[..|ws| - 1], f, g);
    }
  }

  // ----- Invariant

  ghost predicate SlotsOk(w: World) {
    w.slots == Total(w.ws, SlotOf) && w.slots <= DIAL_SLOTS
  }

  ghost predicate PlacesOk(w: World) {
    && (forall i :: 0 <= i < |w.ws| ==> w.ws[i].call in w.places)
    && (forall c :: c in w.places ==> w.places[c] == Total(w.ws, PlaceOf(c)) && w.places[c] <= CALL_PLACES)
  }

  /** An address is claimed exactly while one worker holds its claim. */
  ghost predicate ClaimsOk(w: World) {
    && (forall i :: 0 <= i < |w.ws| && HasClaim(w.ws[i].pc) ==> w.ws[i].addr in w.dialing)
    && (forall a :: a in w.dialing ==> exists i :: 0 <= i < |w.ws| && HasClaim(w.ws[i].pc) && w.ws[i].addr == a)
    && (forall i, j :: 0 <= i < j < |w.ws| && HasClaim(w.ws[i].pc) && HasClaim(w.ws[j].pc) ==>
          w.ws[i].addr != w.ws[j].addr)
  }

  ghost predicate Inv(w: World) {
    SlotsOk(w) && PlacesOk(w) && ClaimsOk(w)
  }

  lemma FreshInv(w: World)
    requires Fresh(w)
    ensures Inv(w)
  {
    TotalZero(w.ws, SlotOf);
    forall c | c in w.places ensures Total(w.ws, PlaceOf(c)) == 0 {
      TotalZero(w.ws, PlaceOf(c));
    }
  }

  /** Every step but `Stop` moves one worker and leaves its job alone. */
  lemma Moves(w: World, s: Step)
    requires Enabled(w, s) && !s.Stop?
    ensures s.i < |w.ws| && |Apply(w, s).ws| == |w.ws|
    ensures Apply(w, s).ws == w.ws[s.i := w.ws[s.i].(pc := Apply(w, s).ws[s.i].pc)]
  {
  }

  lemma SlotsKept(w: World, s: Step)
    requires Enabled(w, s) && SlotsOk(w)
    ensures SlotsOk(Apply(w, s))
  {
    if !s.Stop? {
      TotalUpdate(w.ws, s.i, Apply(w, s).ws[s.i], SlotOf);
    }
  }

  lemma PlacesKept(w: World, s: Step)
    requires Enabled(w, s) && PlacesOk(w)
    ensures PlacesOk(Apply(w, s))
  {
    var v := Apply(w, s);
    if !s.Stop? {
      Moves(w, s);
      assert v.places.Keys == w.places.Keys;
      forall c | c in v.places ensures v.places[c] == Total(v.ws, PlaceOf(c)) && v.places[c] <= CALL_PLACES {
        TotalUpdate(w.ws, s.i, v.ws[s.i], PlaceOf(c));
        PlaceDelta(w, s, c);
      }
    }
  }

  lemma PlaceDelta(w: World, s: Step, c: Call)
    requires Enabled(w, s) && !s.Stop? && c in w.places && w.places[c] <= CALL_PLACES
    ensures var v := Apply(w, s);
      && c in v.places && v.places[c] <= CALL_PLACES
      && v.places[c] + PlaceOf(c)(w.ws[s.i]) == w.places[c] + PlaceOf(c)(v.ws[s.i])
  {
  }

  /** A worker that neither gains nor loses a claim. */
  lemma ClaimsSame(w: World, v: World, i: nat, pc: Pc)
    requires ClaimsOk(w) && i < |w.ws| && v.ws == w.ws[i := w.ws[i].(pc := pc)]
    requires HasClaim(pc) == HasClaim(w.ws[i].pc) && v.dialing == w.dialing
    ensures ClaimsOk(v)
  {
    forall a | a in v.dialing ensures exists k :: 0 <= k < |v.ws| && HasClaim(v.ws[k].pc) && v.ws[k].addr == a {
      var k :| 0 <= k < |w.ws| && HasClaim(w.ws[k].pc) && w.ws[k].addr == a;
      assert HasClaim(v.ws[k].pc) && v.ws[k].addr == a;
    }
  }

  lemma ClaimsGained(w: World, v: World, i: nat)
    requires ClaimsOk(w) && i < |w.ws| && v.ws == w.ws[i := w.ws[i].(pc := Claimed)]
    requires w.ws[i].addr !in w.dialing && v.dialing == w.dialing + {w.ws[i].addr}
    ensures ClaimsOk(v)
  {
    forall a | a in v.dialing ensures exists k :: 0 <= k < |v.ws| && HasClaim(v.ws[k].pc) && v.ws[k].addr == a {
      if a in w.dialing {
        var k :| 0 <= k < |w.ws| && HasClaim(w.ws[k].pc) && w.ws[k].addr == a;
        assert HasClaim(v.ws[k].pc) && v.ws[k].addr == a;
      } else {
        assert HasClaim(v.ws[i].pc) && v.ws[i].addr == a;
      }
    }
  }

  lemma ClaimsLost(w: World, v: World, i: nat, pc: Pc)
    requires ClaimsOk(w) && i < |w.ws| && v.ws == w.ws[i := w.ws[i].(pc := pc)]
    requires HasClaim(w.ws[i].pc) && !HasClaim(pc) && v.dialing == w.dialing - {w.ws[i].addr}
    ensures ClaimsOk(v)
  {
    forall a | a in v.dialing ensures exists k :: 0 <= k < |v.ws| && HasClaim(v.ws[k].pc) && v.ws[k].addr == a {
      var k :| 0 <= k < |w.ws| && HasClaim(w.ws[k].pc) && w.ws[k].addr == a;
      assert HasClaim(v.ws[k].pc) && v.ws[k].addr == a;
    }
  }

  lemma ClaimsKept(w: World, s: Step)
    requires Enabled(w, s) && ClaimsOk(w)
    ensures ClaimsOk(Apply(w, s))
  {
    var v := Apply(w, s);
    if s.Claim? {
      ClaimsGained(w, v, s.i);
    } else if s.FreeClaim? {
      ClaimsLost(w, v, s.i, v.ws[s.i].pc);
    } else if !s.Stop? {
      Moves(w, s);
      ClaimsSame(w, v, s.i, v.ws[s.i].pc);
    }
  }

  lemma InvStep(w: World, s: Step)
    requires Enabled(w, s) && Inv(w)
    ensures Inv(Apply(w, s))
  {
    SlotsKept(w, s);
    PlacesKept(w, s);
    ClaimsKept(w, s);
  }

  lemma {:induction false} InvAlways(w: World, run: Run)
    requires Fresh(w) && Play(w, run).Some?
    ensures Inv(Play(w, run).value)
  {
    match run
    case Begin => FreshInv(w);
    case Then(earlier, s) =>
      InvAlways(w, earlier);
      InvStep(Play(w, earlier).value, s);
  }

  // ----- What a call receives

  /** The results of one call, in the order in which they arrive. */
  function ResultsOf(w: World, c: Call, n: nat): seq<Res>
    requires n <= |w.log|
  {
    if n == 0 then []
    else
      var last := w.log[n - 1];
      ResultsOf(w, c, n - 1) + (if last.w < |w.ws| && w.ws[last.w].call == c then [last.r] else [])
  }

  /** Workers stay in their calls. */
  ghost predicate SameCalls(w: World, v: World) {
    |v.ws| == |w.ws| && forall i :: 0 <= i < |w.ws| ==> v.ws[i].call == w.ws[i].call
  }

  lemma {:induction false} ResultsStay(w: World, v: World, c: Call, n: nat)
    requires SameCalls(w, v) && w.log <= v.log && n <= |w.log|
    ensures ResultsOf(v, c, n) == ResultsOf(w, c, n)
  {
    if n > 0 {
      ResultsStay(w, v, c, n - 1);
    }
  }

  /** A step adds to a call's results what its worker sends. */
  lemma ResultsStep(w: World, s: Step, c: Call)
    requires Enabled(w, s)
    ensures var v := Apply(w, s);
      ResultsOf(v, c, |v.log|) == ResultsOf(w, c, |w.log|) +
        (if !s.Stop? && (s.Abort? || s.Report?) && w.ws[s.i].call == c then [v.ws[s.i].pc.r] else [])
  {
    var v := Apply(w, s);
    ResultsStay(w, v, c, |w.log|);
  }

  /** A worker comes to have sent a result exactly by sending it. */
  lemma SentStep(w: World, s: Step, c: Call, r: Res)
    requires Enabled(w, s) && !s.Stop?
    ensures var x, y := w.ws[s.i], Apply(w, s).ws[s.i];
      SentBy(c, r)(y) == SentBy(c, r)(x) + (if (s.Abort? || s.Report?) && x.call == c && y.pc.r == r then 1 else 0)
  {
  }

  /** Whether a step sends this result for this call. */
  function Sends(w: World, s: Step, c: Call, r: Res): nat
    requires Enabled(w, s)
  {
    if !s.Stop? && (s.Abort? || s.Report?) && w.ws[s.i].call == c && Apply(w, s).ws[s.i].pc.r == r then 1 else 0
  }

  lemma SentTotal(w: World, s: Step, c: Call, r: Res)
    requires Enabled(w, s)
    ensures Total(Apply(w, s).ws, SentBy(c, r)) == Total(w.ws, SentBy(c, r)) + Sends(w, s, c, r)
  {
    if !s.Stop? {
      SentStep(w, s, c, r);
      Moves(w, s);
      TotalUpdate(w.ws, s.i, Apply(w, s).ws[s.i], SentBy(c, r));
    }
  }

  lemma ReceivedTotal(w: World, s: Step, c: Call, r: Res)
    requires Enabled(w, s)
    ensures var v := Apply(w, s);
      multiset(ResultsOf(v, c, |v.log|))[r] == multiset(ResultsOf(w, c, |w.log|))[r] + Sends(w, s, c, r)
  {
    ResultsStep(w, s, c);
  }

  /** The collector of a call has received each result from as many workers as have sent it. */
  lemma {:induction false} ResultsAlways(w: World, run: Run, c: Call, r: Res)
    requires Fresh(w) && Play(w, run).Some?
    ensures var v := Play(w, run).value; multiset(ResultsOf(v, c, |v.log|))[r] == Total(v.ws, SentBy(c, r))
  {
    match run
    case Begin => TotalZero(w.ws, SentBy(c, r));
    case Then(earlier, s) =>
      var u := Play(w, earlier).value;
      ResultsAlways(w, earlier, c, r);
      SentTotal(u, s, c, r);
      ReceivedTotal(u, s, c, r);
  }

  lemma {:induction false} ResultsCount(w: World, run: Run, c: Call)
    requires Fresh(w) && Play(w, run).Some?
    ensures var v := Play(w, run).value; |ResultsOf(v, c, |v.log|)| == Total(v.ws, SentIn(c))
  {
    match run
    case Begin => TotalZero(w.ws, SentIn(c));
    case Then(earlier, s) =>
      var u := Play(w, earlier).value;
      ResultsCount(w, earlier, c);
      ResultsStep(u, s, c);
      if !s.Stop? {
        Moves(u, s);
        TotalUpdate(u.ws, s.i, Apply(u, s).ws[s.i], SentIn(c));
      }
  }

  // ----- Results

  ghost predicate Complete(w: World) {
    forall i :: 0 <= i < |w.ws| ==> w.ws[i].pc.Done?
  }

  ghost predicate Holder(w: World, i: nat, a: Addr) {
    i < |w.ws| && HasClaim(w.ws[i].pc) && w.ws[i].addr == a
  }

  /**
   At every point of every interleaving: an address is claimed exactly while one worker holds its claim,
   so it is in flight at most once; dial slots in use are the workers past acquisition, and places in use
   are the workers inside their call, never more than four; and a call has received each result exactly
   as often as its workers have come to send it.
   */
  lemma DialGateConserves(w: World, run: Run)
    requires Fresh(w) && Play(w, run).Some?
    ensures var v := Play(w, run).value;
      && v.slots == Total(v.ws, SlotOf) <= DIAL_SLOTS
      && (forall c :: c in v.places ==> v.places[c] == Total(v.ws, PlaceOf(c)) <= CALL_PLACES)
      && (forall a :: a in v.dialing <==> exists i: nat :: Holder(v, i, a))
      && (forall a, i: nat, j: nat :: Holder(v, i, a) && Holder(v, j, a) ==> i == j)
      && (forall i :: 0 <= i < |v.ws| && HasSlot(v.ws[i].pc) ==> Holder(v, i, v.ws[i].addr))
      && (forall c, r :: multiset(ResultsOf(v, c, |v.log|))[r] == Total(v.ws, SentBy(c, r)))
  {
    InvAlways(w, run);
    var v := Play(w, run).value;
    forall a | a in v.dialing ensures exists i: nat :: Holder(v, i, a) {
      var i :| 0 <= i < |v.ws| && HasClaim(v.ws[i].pc) && v.ws[i].addr == a;
      assert Holder(v, i, a);
    }
    forall c, r ensures multiset(ResultsOf(v, c, |v.log|))[r] == Total(v.ws, SentBy(c, r)) {
      ResultsAlways(w, run, c, r);
    }
  }

  /** A call is over when all its workers are done, whatever other calls are doing. */
  ghost predicate Over(w: World, c: Call) {
    forall i :: 0 <= i < |w.ws| && w.ws[i].call == c ==> w.ws[i].pc.Done?
  }

  /**
   A call that is over has released everything: it has no place in use, every claim and every slot is
   held by a worker of another call, and it has received one result per worker.
   */
  lemma CallReleases(w: World, run: Run, c: Call)
    requires Fresh(w) && Play(w, run).Some? && Over(Play(w, run).value, c)
    ensures var v := Play(w, run).value;
      && (c in v.places ==> v.places[c] == 0)
      && (forall a :: a in v.dialing ==> exists i: nat :: Holder(v, i, a) && v.ws[i].call != c)
      && v.slots == Total(v.ws, SlotBut(c))
      && |ResultsOf(v, c, |v.log|)| == Total(v.ws, In(c))
  {
    var v := Play(w, run).value;
    InvAlways(w, run);
    OverTotals(v, c);
    ResultsCount(w, run, c);
    forall a | a in v.dialing ensures exists i: nat :: Holder(v, i, a) && v.ws[i].call != c {
      var i :| 0 <= i < |v.ws| && HasClaim(v.ws[i].pc) && v.ws[i].addr == a;
      assert Holder(v, i, a) && v.ws[i].call != c;
    }
  }

  lemma OverTotals(v: World, c: Call)
    requires Over(v, c)
    ensures Total(v.ws, PlaceOf(c)) == 0 && Total(v.ws, SlotOf) == Total(v.ws, SlotBut(c))
    ensures Total(v.ws, SentIn(c)) == Total(v.ws, In(c))
  {
    TotalZero(v.ws, PlaceOf(c));
    TotalSame(v.ws, SlotOf, SlotBut(c));
    TotalSame(v.ws, SentIn(c), In(c));
  }

  /** Someone can always go on: no claim, slot or place is waited for in a circle. */
  lemma NoDeadlock(w: World)
    requires Inv(w) && !Complete(w)
    ensures exists s :: Enabled(w, s) && !s.Stop?
  {
    if i :| 0 <= i < |w.ws| && HasSlot(w.ws[i].pc) {
      Mover(w, i);
    } else if i :| 0 <= i < |w.ws| && HasPlace(w.ws[i].pc) {
      TotalZero(w.ws, SlotOf);
      Mover(w, i);
    } else {
      var i :| 0 <= i < |w.ws| && !w.ws[i].pc.Done?;
      TotalZero(w.ws, PlaceOf(w.ws[i].call));
      assert Enabled(w, Enter(i));
    }
  }

  lemma Mover(w: World, i: nat)
    requires Inv(w) && i < |w.ws| && HasPlace(w.ws[i].pc)
    requires HasSlot(w.ws[i].pc) || w.slots == 0
    ensures exists s :: Enabled(w, s) && !s.Stop?
  {
    TotalAtLeast(w.ws, i, SlotOf);
    TotalAtLeast(w.ws, i, PlaceOf(w.ws[i].call));
    match w.ws[i].pc
    case Entered => assert Enabled(w, Claim(i)) || Enabled(w, Refuse(i));
    case Claimed => assert Enabled(w, TakeSlot(i));
    case Dialing => assert Enabled(w, Outcome(i, Ok));
    case Dialled(_) => assert Enabled(w, FreeSlot(i));
    case Slotless(_) => assert Enabled(w, FreeClaim(i));
    case Finished(_) => assert Enabled(w, Announce(i));
    case Announced(_) => assert Enabled(w, Report(i));
    case Reported(_) => assert Enabled(w, Leave(i));
  }

  /** How many steps a worker can still take. */
  function Rank(pc: Pc): nat {
    match pc
    case Start => 9
    case Entered => 8
    case Claimed => 7
    case Dialing => 6
    case Dialled(_) => 5
    case Slotless(_) => 4
    case Finished(_) => 3
    case Announced(_) => 2
    case Reported(_) => 1
    case Done(_) => 0
  }

  const RankOf: Worker -> nat := (x: Worker) => Rank(x.pc)

  function Running(w: World): set<Call> {
    w.places.Keys - w.cancelled
  }

  function Work(w: World): nat {
    Total(w.ws, RankOf) + |Running(w)|
  }

  lemma RankDrops(w: World, s: Step)
    requires Enabled(w, s) && !s.Stop?
    ensures Rank(Apply(w, s).ws[s.i].pc) < Rank(w.ws[s.i].pc)
  {
  }

  lemma RunningShrinks(w: World, s: Step)
    requires Enabled(w, s)
    ensures |Running(Apply(w, s))| <= |Running(w)|
    ensures s.Stop? ==> |Running(Apply(w, s))| < |Running(w)|
  {
    var v := Apply(w, s);
    assert v.places.Keys == w.places.Keys;
    assert w.cancelled <= v.cancelled;
    SubsetCount(Running(v), Running(w));
    if s.Stop? {
      assert Running(v) == Running(w) - {s.c};
    }
  }

  lemma WorkDrops(w: World, s: Step)
    requires Enabled(w, s)
    ensures Work(Apply(w, s)) < Work(w)
  {
    RunningShrinks(w, s);
    if !s.Stop? {
      RankDrops(w, s);
      Moves(w, s);
      TotalUpdate(w.ws, s.i, Apply(w, s).ws[s.i], RankOf);
    }
  }

  function Length(run: Run): nat {
    match run
    case Begin => 0
    case Then(earlier, _) => Length(earlier) + 1
  }

  /** No schedule has more steps than the work there is, so with `NoDeadlock` every call comes to an end. */
  lemma {:induction false} SchedulesEnd(w: World, run: Run)
    requires Play(w, run).Some?
    ensures Length(run) + Work(Play(w, run).value) <= Work(w)
  {
    match run
    case Begin =>
    case Then(earlier, s) =>
      SchedulesEnd(w, earlier);
      WorkDrops(Play(w, earlier).value, s);
  }

  // ----- First success wins

  datatype Verdict = Success | Error(e: Res) | NoAddresses

  predicate SomeFailed(rs: seq<Res>) {
    exists i :: 0 <= i < |rs| && rs[i].Failed?
  }

  /** Success if any attempt succeeded, else the last real failure, else "already connecting". */
  ghost predicate Collects(rs: seq<Res>, v: Verdict) {
    if Ok in rs then v == Success
    else if SomeFailed(rs) then
      exists i :: 0 <= i < |rs| && rs[i].Failed? && v == Error(rs[i]) && forall j :: i < j < |rs| ==> !rs[j].Failed?
    else if Already in rs then v == Error(Already)
    else v == NoAddresses
  }

  /** The collector's loop over the results of one call. */
  method Collect(rs: seq<Res>) returns (v: Verdict)
    ensures Collects(rs, v)
    ensures v == Success <==> Ok in rs
    ensures v == NoAddresses <==> forall i :: 0 <= i < |rs| ==> rs[i].Canceled?
    ensures v == Error(Already) <==> Ok !in rs && Already in rs && forall i :: 0 <= i < |rs| ==> !rs[i].Failed?
    ensures v.Error? && v.e.Failed? ==>
      exists i :: 0 <= i < |rs| && rs[i] == v.e && forall j :: i < j < |rs| ==> !rs[j].Failed?
  {
    var last: Option<Res> := None;
    var ok := false;
    ghost var at := 0;
    for i := 0 to |rs|
      invariant ok <==> Ok in rs[..i]
      invariant last == None ==> forall j :: 0 <= j < i ==> !rs[j].Failed? && !rs[j].Already?
      invariant last.Some? && last.value.Failed? ==>
        0 <= at < i && rs[at] == last.value && forall j :: at < j < i ==> !rs[j].Failed?
      invariant last.Some? && !last.value.Failed? ==>
        last.value == Already && Already in rs[..i] && forall j :: 0 <= j < i ==> !rs[j].Failed?
    {
      assert rs[..i + 1] == rs[..i] + [rs[i]];
      match rs[i]
      case Ok => ok := true;
      case Canceled =>
      case Already =>
        if last == None {
          last := Some(Already);
        }
      case Failed(_) =>
        last, at := Some(rs[i]), i;
    }
    assert rs[..|rs|] == rs;
    if ok {
      return Success;
    }
    if last == None {
      assert Already !in rs;
      return NoAddresses;
    }
    return Error(last.value);
  }

  /** Some worker of a call that is over has sent this result exactly if one is done with it. */
  lemma SentIfDone(v: World, c: Call, r: Res)
    requires Over(v, c)
    ensures Total(v.ws, SentBy(c, r)) > 0 <==> exists i :: 0 <= i < |v.ws| && v.ws[i].call == c && v.ws[i].pc == Done(r)
  {
    if i :| 0 <= i < |v.ws| && v.ws[i].call == c && v.ws[i].pc == Done(r) {
      TotalAtLeast(v.ws, i, SentBy(c, r));
    } else {
      TotalZero(v.ws, SentBy(c, r));
    }
  }

  /** A call that is over succeeds exactly when one of its attempts did, whatever other calls are doing. */
  lemma DialFirstExact(w: World, run: Run, c: Call, verdict: Verdict)
    requires Fresh(w) && Play(w, run).Some? && Over(Play(w, run).value, c)
    requires var v := Play(w, run).value; Collects(ResultsOf(v, c, |v.log|), verdict)
    ensures var v := Play(w, run).value;
      verdict == Success <==> exists i :: 0 <= i < |v.ws| && v.ws[i].call == c && v.ws[i].pc == Done(Ok)
  {
    var v := Play(w, run).value;
    var rs := ResultsOf(v, c, |v.log|);
    assert Ok in rs <==> multiset(rs)[Ok] > 0;
    ResultsAlways(w, run, c, Ok);
    SentIfDone(v, c, Ok);
  }

  // ----- When a call is cancelled

  /** Whether a step occurs in a schedule. */
  predicate Occurs(run: Run, s: Step) {
    match run
    case Begin => false
    case Then(earlier, last) => last == s || Occurs(earlier, s)
  }

  predicate HasAnnounced(pc: Pc) {
    pc.Announced? || pc.Reported? || pc.Done?
  }

  /** Some worker of the call has announced a success. */
  ghost predicate Succeeded(w: World, c: Call) {
    exists i :: 0 <= i < |w.ws| && w.ws[i].call == c && HasAnnounced(w.ws[i].pc) && w.ws[i].pc.r == Ok
  }

  lemma SucceededStep(w: World, s: Step, c: Call)
    requires Enabled(w, s)
    ensures Succeeded(Apply(w, s), c) <==>
      Succeeded(w, c) || (s.Announce? && w.ws[s.i].call == c && w.ws[s.i].pc.r == Ok)
  {
    var v := Apply(w, s);
    if i :| 0 <= i < |w.ws| && w.ws[i].call == c && HasAnnounced(w.ws[i].pc) && w.ws[i].pc.r == Ok {
      assert v.ws[i].call == c && HasAnnounced(v.ws[i].pc) && v.ws[i].pc.r == Ok;
    }
    if s.Announce? && w.ws[s.i].call == c && w.ws[s.i].pc.r == Ok {
      assert v.ws[s.i].call == c && HasAnnounced(v.ws[s.i].pc) && v.ws[s.i].pc.r == Ok;
    }
    if i :| 0 <= i < |v.ws| && v.ws[i].call == c && HasAnnounced(v.ws[i].pc) && v.ws[i].pc.r == Ok {
      if !s.Stop? {
        Moves(w, s);
      }
      assert !(s.Announce? && s.i == i) ==> w.ws[i].call == c && HasAnnounced(w.ws[i].pc) && w.ws[i].pc.r == Ok;
    }
  }

  /** First success wins: a call is cancelled exactly if it was stopped from outside or one of its workers
      has succeeded. A failure cancels nothing. */
  lemma {:induction false} CancelledExact(w: World, run: Run, c: Call)
    requires Fresh(w) && Play(w, run).Some?
    ensures c in Play(w, run).value.cancelled <==> Occurs(run, Stop(c)) || Succeeded(Play(w, run).value, c)
  {
    match run
    case Begin =>
    case Then(earlier, s) =>
      CancelledExact(w, earlier, c);
      SucceededStep(Play(w, earlier).value, s, c);
  }

  // ----- Where results come from

  predicate HasResult(pc: Pc) {
    pc.Dialled? || pc.Slotless? || pc.Finished? || HasAnnounced(pc)
  }

  /** A result was dialled for, refused while the address was taken, or cancelled with the call. */
  ghost predicate Explained(run: Run, v: World, i: nat)
    requires i < |v.ws| && HasResult(v.ws[i].pc)
  {
    match v.ws[i].pc.r
    case Already => Occurs(run, Refuse(i))
    case Canceled => v.ws[i].call in v.cancelled
    case r => Occurs(run, Outcome(i, r))
  }

  lemma {:induction false} ResultsExplained(w: World, run: Run, i: nat)
    requires Fresh(w) && Play(w, run).Some? && i < |Play(w, run).value.ws|
    requires HasResult(Play(w, run).value.ws[i].pc)
    ensures Explained(run, Play(w, run).value, i)
  {
    var u, s := Play(w, run.earlier).value, run.s;
    if !s.Stop? {
      Moves(u, s);
    }
    if HasResult(u.ws[i].pc) {
      ResultsExplained(w, run.earlier, i);
    }
  }

  /** A worker is refused only while another one holds the claim on its address. */
  lemma RefusedOnlyInFlight(w: World, run: Run, i: nat)
    requires Fresh(w) && Play(w, run).Some? && Enabled(Play(w, run).value, Refuse(i))
    ensures var v := Play(w, run).value; exists j: nat :: j != i && Holder(v, j, v.ws[i].addr)
  {
    var v := Play(w, run).value;
    InvAlways(w, run);
    var j :| 0 <= j < |v.ws| && HasClaim(v.ws[j].pc) && v.ws[j].addr == v.ws[i].addr;
    assert Holder(v, j, v.ws[i].addr);
  }

  /**
   No address of a call is given up on its own: if a call is over, was not stopped and has not succeeded,
   then every one of its workers was refused or has dialled and failed.
   */
  lemma EveryAddressTried(w: World, run: Run, c: Call, i: nat)
    requires Fresh(w) && Play(w, run).Some? && Over(Play(w, run).value, c) && !Occurs(run, Stop(c))
    requires forall k :: 0 <= k < |Play(w, run).value.ws| && Play(w, run).value.ws[k].call == c ==>
      Play(w, run).value.ws[k].pc != Done(Ok)
    requires i < |Play(w, run).value.ws| && Play(w, run).value.ws[i].call == c
    ensures Occurs(run, Refuse(i)) || exists e :: Occurs(run, Outcome(i, Failed(e))) && Play(w, run).value.ws[i].pc == Done(Failed(e))
  {
    var v := Play(w, run).value;
    CancelledExact(w, run, c);
    ResultsExplained(w, run, i);
    assert !Succeeded(v, c);
  }
}
