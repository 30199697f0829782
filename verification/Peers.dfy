/**
 The table of live peer sessions: adopting a session after its handshake, dropping one of two
 sessions with the same peer, and unregistering a session when its read loop ends. Sessions are
 objects compared by reference; peer IDs are compared as raw strings.
 */
module Peers {
  import opened Basics
  import opened Messages

  type PeerId = string

  const SEND_QUEUE: nat := 64

  /** One end of a TCP session, after the handshake. */
  class Conn {
    const peer: PeerId
    const inbound: bool
    var closed: bool
    var queue: seq<Message>

    constructor (peer: PeerId, inbound: bool)
      ensures this.peer == peer && this.inbound == inbound && !closed && queue == []
    {
      this.peer, this.inbound, closed, queue := peer, inbound, false, [];
    }

    method Close()
      modifies this`closed
      ensures closed
    {
      closed := true;
    }

    /**
     Queues a message, or reports that the queue is full. On a closed session both the queue and the
     cancellation may be ready, and either may be chosen.
     */
    method Send(m: Message) returns (full: bool)
      modifies this`queue
      ensures full <==> !closed && |old(queue)| >= SEND_QUEUE
      ensures queue == old(queue) || (|old(queue)| < SEND_QUEUE && queue == old(queue) + [m])
      ensures !closed && !full ==> queue == old(queue) + [m]
    {
      full := false;
      var cancelFirst: bool := *;
      if closed && (cancelFirst || |queue| >= SEND_QUEUE) {
        return;
      }
      if |queue| < SEND_QUEUE {
        queue := queue + [m];
      } else {
        full := true;
      }
    }
  }

  type Table = map<PeerId, Conn>

  // ----- The decision taken under the lock

  datatype Decision = Self | TooMany | Insert | Replace | DropNew

  /** Which of two opposite sessions a node keeps: the one the smaller ID dialled. */
  predicate WantsOutbound(localID: PeerId, peer: PeerId) {
    Less(localID, peer)
  }

  /** The duplicate rule, on directions only. */
  predicate Replaces(localID: PeerId, peer: PeerId, oldInbound: bool, newInbound: bool) {
    newInbound != oldInbound && !newInbound == WantsOutbound(localID, peer)
  }

  function Decide(localID: PeerId, maxPeers: int, conns: Table, c: Conn): Decision {
    if c.peer == localID then Self
    else if c.peer !in conns then (if maxPeers > 0 && |conns| >= maxPeers then TooMany else Insert)
    else if Replaces(localID, c.peer, conns[c.peer].inbound, c.inbound) then Replace
    else DropNew
  }

  function Adopted(localID: PeerId, maxPeers: int, conns: Table, c: Conn): Table {
    var d := Decide(localID, maxPeers, conns, c);
    if d.Insert? || d.Replace? then conns[c.peer := c] else conns
  }

  /**
   The decision in full. In particular, a new session replaces the one in the table exactly when they
   were dialled from opposite ends and the new one was dialled by the smaller of the two IDs.
   */
  lemma DecideExact(localID: PeerId, maxPeers: int, conns: Table, c: Conn)
    ensures var d := Decide(localID, maxPeers, conns, c);
      && (d.Self? <==> c.peer == localID)
      && (d.TooMany? <==> c.peer != localID && c.peer !in conns && 0 < maxPeers <= |conns|)
      && (d.Insert? <==> c.peer != localID && c.peer !in conns && (maxPeers <= 0 || |conns| < maxPeers))
      && (d.Replace? <==>
            && c.peer != localID && c.peer in conns && conns[c.peer].inbound != c.inbound
            && (c.inbound <==> Less(c.peer, localID)))
      && (d.DropNew? <==>
            && c.peer != localID && c.peer in conns
            && (conns[c.peer].inbound == c.inbound || (c.inbound <==> Less(localID, c.peer))))
  {
    LessTotal(localID, c.peer);
  }

  /** Adopting changes at most the entry of the session's own peer, to the session, unless that is refused. */
  lemma AdoptedExact(localID: PeerId, maxPeers: int, conns: Table, c: Conn)
    ensures var t := Adopted(localID, maxPeers, conns, c);
      && (forall id :: id != c.peer ==> (id in t <==> id in conns) && (id in t ==> t[id] == conns[id]))
      && (Decide(localID, maxPeers, conns, c) in {Insert, Replace} ==> c.peer in t && t[c.peer] == c)
      && (Decide(localID, maxPeers, conns, c) in {Self, TooMany, DropNew} ==> t == conns)
  {
  }

  predicate IsCurrent(conns: Table, c: Conn) {
    c.peer in conns && conns[c.peer] == c
  }

  function Unregistered(conns: Table, c: Conn): Table {
    if IsCurrent(conns, c) then conns - {c.peer} else conns
  }

  /** Only the very session in the table is removed; a late call for a replaced one changes nothing. */
  lemma UnregisteredExact(conns: Table, c: Conn)
    ensures var t := Unregistered(conns, c);
      && (forall id :: id in t <==> id in conns && !(id == c.peer && conns[id] == c))
      && (forall id :: id in t ==> t[id] == conns[id])
  {
  }

  // ----- Lookup by ID or prefix

  predicate Matches(id: PeerId, prefix: string) {
    ByteLen(prefix) >= 4 && prefix <= id
  }

  function Candidates(ids: set<PeerId>, prefix: string): set<PeerId> {
    set id | id in ids && Matches(id, prefix)
  }

  datatype Found = Peer(id: PeerId) | Unknown | Ambiguous

  /** An exact ID, else the only ID with that prefix. */
  ghost predicate Resolves(ids: set<PeerId>, key: string, r: Found) {
    match r
    case Peer(id) => if key in ids then id == key else Candidates(ids, key) == {id}
    case Unknown => key !in ids && Candidates(ids, key) == {}
    case Ambiguous => key !in ids && |Candidates(ids, key)| >= 2
  }

  /** An ID that the key could mean when it is not itself an ID. */
  ghost predicate Extends(ids: set<PeerId>, id: PeerId, key: string) {
    id in ids && |key| <= |id| && id[..|key|] == key
  }

  lemma CandidatesAre(ids: set<PeerId>, key: string, id: PeerId)
    ensures id in Candidates(ids, key) <==> ByteLen(key) >= 4 && Extends(ids, id, key)
  {
  }

  /** Every ID that extends the key is this one. */
  ghost predicate OnlyExtension(ids: set<PeerId>, id: PeerId, key: string) {
    Extends(ids, id, key) && forall j :: Extends(ids, j, key) ==> j == id
  }

  /** What a key resolves to, in terms of the IDs alone: itself, else the only ID it is a prefix of. */
  lemma ResolvesExact(ids: set<PeerId>, key: string, r: Found)
    requires Resolves(ids, key, r)
    ensures key in ids ==> r == Peer(key)
    ensures key !in ids && ByteLen(key) < 4 ==> r == Unknown
    ensures key !in ids && ByteLen(key) >= 4 ==>
      match r
      case Peer(id) => OnlyExtension(ids, id, key)
      case Unknown => forall id :: !Extends(ids, id, key)
      case Ambiguous => exists i, j :: i != j && Extends(ids, i, key) && Extends(ids, j, key)
  {
    var cs := Candidates(ids, key);
    forall id ensures id in cs <==> ByteLen(key) >= 4 && Extends(ids, id, key) {
      CandidatesAre(ids, key, id);
    }
    if r.Ambiguous? {
      TwoOf(cs);
    }
  }

  lemma TwoOf(s: set<PeerId>)
    requires |s| >= 2
    ensures exists i, j :: i != j && i in s && j in s
  {
    var i :| i in s;
    assert |s - {i}| >= 1;
    var j :| j in s - {i};
  }

  /** The answer does not depend on the order in which the table is walked. */
  lemma ResolvesUnique(ids: set<PeerId>, key: string, r: Found, r': Found)
    requires Resolves(ids, key, r) && Resolves(ids, key, r')
    ensures r == r'
  {
    if key !in ids && r.Peer? {
      assert r.id in Candidates(ids, key) && |Candidates(ids, key)| == 1;
    }
    if key !in ids && r'.Peer? {
      assert |Candidates(ids, key)| == 1;
    }
  }

  /** Walks the IDs in any order; a second match makes the prefix ambiguous. */
  method ByPrefix(ids: set<PeerId>, key: string) returns (r: Found)
    requires key !in ids
    ensures Resolves(ids, key, r)
  {
    var todo := ids;
    r := Unknown;
    while todo != {}
      invariant todo <= ids
      invariant r.Unknown? || r.Peer?
      invariant Candidates(ids - todo, key) == if r.Peer? then {r.id} else {}
      decreases todo
    {
      var id :| id in todo;
      ghost var before := Candidates(ids - todo, key);
      todo := todo - {id};
      assert Candidates(ids - todo, key) == before + (if Matches(id, key) then {id} else {});
      if Matches(id, key) {
        if r.Peer? {
          assert {r.id, id} <= Candidates(ids, key) && |{r.id, id}| == 2;
          SubsetCount({r.id, id}, Candidates(ids, key));
          return Ambiguous;
        }
        r := Peer(id);
      }
    }
    assert ids - todo == ids;
  }

  class Manager {
    const localID: PeerId
    const maxPeers: int
    var conns: Table

    ghost predicate Valid()
      reads this
    {
      && (forall id :: id in conns ==> conns[id].peer == id)
      && localID !in conns
      && (maxPeers > 0 ==> |conns| <= maxPeers)
    }

    constructor (localID: PeerId, maxPeers: int)
      ensures Valid() && conns == map[] && this.localID == localID && this.maxPeers == maxPeers
    {
      this.localID, this.maxPeers, conns := localID, maxPeers, map[];
    }

    /** The session in the table that `c` would replace or be dropped for. */
    ghost function Rivals(c: Conn): set<Conn>
      reads this
    {
      if c.peer in conns then {conns[c.peer]} else {}
    }

    /** Registers a session whose handshake has finished; closes whichever session loses. */
    method Adopt(c: Conn) returns (d: Decision)
      requires Valid()
      modifies this`conns, c`closed, Rivals(c)`closed
      ensures Valid()
      ensures d == Decide(localID, maxPeers, old(conns), c)
      ensures conns == Adopted(localID, maxPeers, old(conns), c)
      ensures forall x :: x in old(Rivals(c)) && x != c ==> x.closed == (old(x.closed) || d.Replace?)
      ensures d.Insert? || d.Replace? ==> c.closed == old(c.closed)
      ensures d.Self? || d.TooMany? || d.DropNew? ==> c.closed
    {
      if c.peer == localID {
        c.Close();
        return Self;
      }
      if c.peer !in conns {
        if maxPeers > 0 && |conns| >= maxPeers {
          c.Close();
          return TooMany;
        }
        conns := conns[c.peer := c];
        return Insert;
      }
      var existing := conns[c.peer];
      var wantOutbound, newOutbound, oldOutbound := WantsOutbound(localID, c.peer), !c.inbound, !existing.inbound;
      if newOutbound == oldOutbound {
        c.Close();
        d := DropNew;
      } else if newOutbound == wantOutbound {
        conns := conns[c.peer := c];
        existing.Close();
        d := Replace;
        assert conns.Keys == old(conns.Keys);
      } else {
        c.Close();
        d := DropNew;
      }
    }

    /** Late calls for a session that has been replaced leave the table alone. */
    method Unregister(c: Conn) returns (down: bool)
      requires Valid()
      modifies this`conns
      ensures Valid()
      ensures conns == Unregistered(old(conns), c)
      ensures down <==> IsCurrent(old(conns), c)
    {
      down := c.peer in conns && conns[c.peer] == c;
      if down {
        conns := conns - {c.peer};
      }
    }

    method Find(key: string) returns (r: Found)
      requires Valid()
      ensures Resolves(conns.Keys, key, r)
    {
      if key in conns {
        return Peer(key);
      }
      r := ByPrefix(conns.Keys, key);
    }

    /**
     One copy for every live session but the excluded one, each in its own queue; a live session whose
     queue is full is closed instead. Closed sessions stay closed, and the excluded one is untouched.
     */
    method Broadcast(m: Message, except: PeerId)
      requires Valid()
      modifies conns.Values
      ensures forall id :: id in conns && id != except && !old(conns[id].closed) ==>
        if |old(conns[id].queue)| < SEND_QUEUE then !conns[id].closed && conns[id].queue == old(conns[id].queue) + [m]
        else conns[id].closed && conns[id].queue == old(conns[id].queue)
      ensures forall id :: id in conns && id != except && old(conns[id].closed) ==> conns[id].closed
      ensures except in conns ==>
        conns[except].queue == old(conns[except].queue) && conns[except].closed == old(conns[except].closed)
    {
      var todo := conns.Keys;
      while todo != {}
        invariant todo <= conns.Keys
        invariant forall id :: id in conns && (id in todo || id == except) ==>
          conns[id].queue == old(conns[id].queue) && conns[id].closed == old(conns[id].closed)
        invariant forall id :: id in conns && id !in todo && id != except && !old(conns[id].closed) ==>
          if |old(conns[id].queue)| < SEND_QUEUE then !conns[id].closed && conns[id].queue == old(conns[id].queue) + [m]
          else conns[id].closed && conns[id].queue == old(conns[id].queue)
        invariant forall id :: id in conns && id !in todo && id != except && old(conns[id].closed) ==> conns[id].closed
        decreases todo
      {
        var id :| id in todo;
        todo := todo - {id};
        if id != except {
          var full := conns[id].Send(m);
          if full {
            conns[id].Close();
          }
        }
      }
    }
  }

  // ----- Accounting over whole runs

  datatype Op = Adopt(c: Conn) | Unregister(c: Conn)

  function Step(localID: PeerId, maxPeers: int, conns: Table, op: Op): Table {
    match op
    case Adopt(c) => Adopted(localID, maxPeers, conns, c)
    case Unregister(c) => Unregistered(conns, c)
  }

  function After(localID: PeerId, maxPeers: int, ops: seq<Op>): Table {
    if ops == [] then map[]
    else Step(localID, maxPeers, After(localID, maxPeers, ops[..|ops| - 1]), ops[|ops| - 1])
  }

  /** A peer comes up when it is inserted, not when one of its sessions replaces another. */
  function Ups(localID: PeerId, maxPeers: int, ops: seq<Op>, id: PeerId): nat {
    if ops == [] then 0
    else
      var init, op := ops[..|ops| - 1], ops[|ops| - 1];
      Ups(localID, maxPeers, init, id) +
      (if op.Adopt? && op.c.peer == id && Decide(localID, maxPeers, After(localID, maxPeers, init), op.c).Insert?
       then 1 else 0)
  }

  function Downs(localID: PeerId, maxPeers: int, ops: seq<Op>, id: PeerId): nat {
    if ops == [] then 0
    else
      var init, op := ops[..|ops| - 1], ops[|ops| - 1];
      Downs(localID, maxPeers, init, id) +
      (if op.Unregister? && op.c.peer == id && IsCurrent(After(localID, maxPeers, init), op.c) then 1 else 0)
  }

  /**
   In every run each peer is up exactly when it has come up once more than it has gone down; the
   table stays within its bound, files sessions under their own ID and never holds the node itself.
   */
  lemma {:induction false} TableAccounting(localID: PeerId, maxPeers: int, ops: seq<Op>, id: PeerId)
    ensures var conns := After(localID, maxPeers, ops);
      && Ups(localID, maxPeers, ops, id) - Downs(localID, maxPeers, ops, id) == (if id in conns then 1 else 0)
      && (id in conns ==> conns[id].peer == id)
      && localID !in conns
      && (maxPeers > 0 ==> |conns| <= maxPeers)
    decreases |ops|
  {
    if ops != [] {
      var init, op := ops[..|ops| - 1], ops[|ops| - 1];
      TableAccounting(localID, maxPeers, init, id);
      var conns := After(localID, maxPeers, init);
      if op.Adopt? && op.c.peer in conns {
        assert conns[op.c.peer := op.c].Keys == conns.Keys;
      }
    }
  }
}
