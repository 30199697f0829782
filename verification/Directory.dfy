/**
 The table of known peers and local aliases: alias uniqueness up to case, lookup whatever the order
 in which the table is walked, and the save protocol that races with changes. Case folding is a
 parameter: it maps each character to the representative of its case-folding class.
 */
module Directory {
  import opened Basics
  import opened Messages
  import Peers

  datatype Record = Record(
    peerID: string, publicKey: string, nickname: string, alias: string,
    lastAddr: string, extraAddrs: seq<string>, lastSeen: string)

  type Table = map<string, Record>
  type Folding = char -> char

  // ----- Aliases

  function FoldAll(s: string, fold: Folding): string {
    seq(|s|, i requires 0 <= i < |s| => fold(s[i]))
  }

  predicate EqualFold(a: string, b: string, fold: Folding) {
    FoldAll(a, fold) == FoldAll(b, fold)
  }

  /** Equality up to case: the same length, and each character in the class of its counterpart. */
  lemma EqualFoldExact(a: string, b: string, fold: Folding)
    ensures EqualFold(a, b, fold) <==> |a| == |b| && forall i :: 0 <= i < |a| ==> fold(a[i]) == fold(b[i])
  {
    var x, y := FoldAll(a, fold), FoldAll(b, fold);
    assert |x| == |a| && |y| == |b|;
    if x == y {
      assert forall i :: 0 <= i < |a| ==> x[i] == fold(a[i]) && y[i] == fold(b[i]);
    }
  }

  predicate IsForbidden(c: char) {
    c as int < 32 || c as int == 127 || c in ".:/@#"
  }

  predicate ValidAlias(raw: string) {
    var s := TrimSpace(raw);
    s != "" && |s| <= 32 && forall i :: 0 <= i < |s| ==> !IsForbidden(s[i])
  }

  /** The record filed under `id` carries this alias, up to case. */
  predicate Carries(t: Table, id: string, alias: string, fold: Folding) {
    id in t && t[id].alias != "" && EqualFold(t[id].alias, alias, fold)
  }

  ghost predicate DistinctAliases(t: Table, fold: Folding) {
    forall i, j :: i in t && j in t && i != j && t[i].alias != "" && t[j].alias != "" ==>
      !EqualFold(t[i].alias, t[j].alias, fold)
  }

  /** An answer the alias search may give: a record that carries the alias, or "" if there is none. */
  ghost predicate AliasAnswer(t: Table, alias: string, fold: Folding, id: string) {
    Carries(t, id, alias, fold) || (id == "" && forall k :: !Carries(t, k, alias, fold))
  }

  // ----- Lookup

  /** An answer lookup may give: exact ID before alias before unique prefix. */
  ghost predicate LookupAnswer(t: Table, raw: string, fold: Folding, r: Peers.Found) {
    var key := TrimSpace(raw);
    if key in t then r == Peers.Peer(key)
    else exists id ::
      AliasAnswer(t, key, fold, id) && if id != "" then r == Peers.Peer(id) else Peers.Resolves(t.Keys, key, r)
  }

  ghost predicate LookupSettled(t: Table, raw: string, fold: Folding) {
    forall r, r' :: LookupAnswer(t, raw, fold, r) && LookupAnswer(t, raw, fold, r') ==> r == r'
  }

  /**
   At most one named record carries the alias; and if a nameless one does too, the named one is also
   what the prefix search finds, to which a search that meets the nameless one first falls through.
   */
  ghost predicate Undisputed(t: Table, alias: string, fold: Folding) {
    && (forall i, j :: i != "" && j != "" && Carries(t, i, alias, fold) && Carries(t, j, alias, fold) ==> i == j)
    && (Carries(t, "", alias, fold) ==>
          forall i :: i != "" && Carries(t, i, alias, fold) ==> Peers.Resolves(t.Keys, alias, Peers.Peer(i)))
  }

  lemma DistinctUndisputed(t: Table, alias: string, fold: Folding)
    requires DistinctAliases(t, fold)
    ensures Undisputed(t, alias, fold)
  {
  }

  lemma LookupUnique(t: Table, raw: string, fold: Folding, r: Peers.Found, r': Peers.Found)
    requires Undisputed(t, TrimSpace(raw), fold)
    requires LookupAnswer(t, raw, fold, r) && LookupAnswer(t, raw, fold, r')
    ensures r == r'
  {
    var key := TrimSpace(raw);
    if key !in t {
      var i :| AliasAnswer(t, key, fold, i) && if i != "" then r == Peers.Peer(i) else Peers.Resolves(t.Keys, key, r);
      var j :| AliasAnswer(t, key, fold, j) && if j != "" then r' == Peers.Peer(j) else Peers.Resolves(t.Keys, key, r');
      if i == "" || j == "" {
        Peers.ResolvesUnique(t.Keys, key, r, r');
      }
    }
  }

  /** The prefix search has an answer for every key. */
  lemma Resolvable(ids: set<string>, key: string) returns (r: Peers.Found)
    ensures Peers.Resolves(ids, key, r)
  {
    var cs := Peers.Candidates(ids, key);
    if key in ids {
      r := Peers.Peer(key);
    } else if cs == {} {
      r := Peers.Unknown;
    } else {
      var id :| id in cs;
      if other :| other in cs && other != id {
        SubsetCount({id, other}, cs);
        r := Peers.Ambiguous;
      } else {
        assert cs == {id};
        r := Peers.Peer(id);
      }
    }
  }

  /** Lookup of a key gives the same answer for every iteration order exactly when the key is an ID or
      an undisputed alias. */
  lemma LookupExact(t: Table, raw: string, fold: Folding)
    ensures LookupSettled(t, raw, fold) <==> TrimSpace(raw) in t || Undisputed(t, TrimSpace(raw), fold)
  {
    var key := TrimSpace(raw);
    if key in t {
    } else if Undisputed(t, key, fold) {
      forall r, r' | LookupAnswer(t, raw, fold, r) && LookupAnswer(t, raw, fold, r') ensures r == r' {
        LookupUnique(t, raw, fold, r, r');
      }
    } else if i, j :| i != "" && j != "" && i != j && Carries(t, i, key, fold) && Carries(t, j, key, fold) {
      assert AliasAnswer(t, key, fold, i) && AliasAnswer(t, key, fold, j);
      assert LookupAnswer(t, raw, fold, Peers.Peer(i)) && LookupAnswer(t, raw, fold, Peers.Peer(j));
    } else {
      var i :| i != "" && Carries(t, i, key, fold) && !Peers.Resolves(t.Keys, key, Peers.Peer(i));
      var r := Resolvable(t.Keys, key);
      assert AliasAnswer(t, key, fold, i) && AliasAnswer(t, key, fold, "");
      assert LookupAnswer(t, raw, fold, Peers.Peer(i)) && LookupAnswer(t, raw, fold, r);
    }
  }

  /** What lookup may answer: the exact ID; else a named record that carries the alias, if there is one and
      no nameless record does; else, if no record does, what the prefix resolves to. */
  lemma LookupOrder(t: Table, raw: string, fold: Folding, r: Peers.Found)
    requires LookupAnswer(t, raw, fold, r)
    ensures TrimSpace(raw) in t ==> r == Peers.Peer(TrimSpace(raw))
    ensures TrimSpace(raw) !in t && (exists k :: Carries(t, k, TrimSpace(raw), fold)) && !Carries(t, "", TrimSpace(raw), fold) ==>
      r.Peer? && Carries(t, r.id, TrimSpace(raw), fold)
    ensures TrimSpace(raw) !in t && (forall k :: !Carries(t, k, TrimSpace(raw), fold)) ==>
      Peers.Resolves(t.Keys, TrimSpace(raw), r)
  {
  }

  // ----- Changes

  function Ensured(t: Table, id: string): Record {
    if id in t then t[id] else Record(id, "", "", "", "", [], "")
  }

  datatype Sighting = Sighting(publicKey: string, nickname: string, addr: string, addrs: Option<seq<string>>, seen: string)

  /** Non-empty news replace what is recorded; `addrs` is the sanitized merged list, if any
      addresses came. */
  function Updated(rec: Record, s: Sighting): Record {
    rec.(publicKey := if s.publicKey != "" then s.publicKey else rec.publicKey,
         nickname := if s.nickname != "" then s.nickname else rec.nickname,
         lastAddr := if s.addr != "" then s.addr else rec.lastAddr,
         extraAddrs := if s.addrs.Some? then s.addrs.value else rec.extraAddrs,
         lastSeen := s.seen)
  }

  datatype Op = Observe(id: string, s: Sighting) | SetAlias(id: string, alias: string) | ClearAlias(key: string)

  /** What a change may do: the table afterwards, and whether it went through. */
  ghost predicate May(t: Table, op: Op, fold: Folding, t': Table, ok: bool) {
    match op
    case Observe(id, s) =>
      if id == "" then !ok && t' == t else ok && t' == t[id := Updated(Ensured(t, id), s)]
    case SetAlias(id, raw) =>
      var alias := TrimSpace(raw);
      if !ValidAlias(alias) then !ok && t' == t
      else exists other :: AliasAnswer(t, alias, fold, other) && AliasGiven(t, id, alias, other, t', ok)
    case ClearAlias(key) =>
      exists r :: LookupAnswer(t, key, fold, r) && AliasTaken(t, r, t', ok)
  }

  /** An alias that the search found with someone else is refused. */
  ghost predicate AliasGiven(t: Table, id: string, alias: string, other: string, t': Table, ok: bool) {
    if other != "" && other != id then !ok && t' == t
    else ok && t' == t[id := Ensured(t, id).(alias := alias)]
  }

  ghost predicate AliasTaken(t: Table, r: Peers.Found, t': Table, ok: bool) {
    if !r.Peer? || r.id !in t || t[r.id].alias == "" then !ok && t' == t
    else ok && t' == t[r.id := t[r.id].(alias := "")]
  }

  /**
   What an observation records: news replace what they bring and an empty string erases nothing, so a
   change of nickname alone keeps the address; ID and alias stay, and so do all other records.
   */
  lemma ObserveExact(t: Table, id: string, s: Sighting, fold: Folding, t': Table, ok: bool)
    requires May(t, Observe(id, s), fold, t', ok)
    ensures ok <==> id != ""
    ensures !ok ==> t' == t
    ensures ok ==> t'.Keys == t.Keys + {id} && forall k :: k in t && k != id ==> t'[k] == t[k]
    ensures ok ==>
      var old', new' := if id in t then t[id] else Record(id, "", "", "", "", [], ""), t'[id];
      && new'.peerID == old'.peerID && new'.alias == old'.alias && new'.lastSeen == s.seen
      && new'.publicKey == (if s.publicKey == "" then old'.publicKey else s.publicKey)
      && new'.nickname == (if s.nickname == "" then old'.nickname else s.nickname)
      && new'.lastAddr == (if s.addr == "" then old'.lastAddr else s.addr)
      && new'.extraAddrs == (if s.addrs.None? then old'.extraAddrs else s.addrs.value)
  {
  }

  /** What a directory accepts as an alias. */
  predicate Acceptable(alias: string) {
    && 1 <= |alias| <= 32
    && forall i :: 0 <= i < |alias| ==> alias[i] as int >= 32 && alias[i] as int != 127 && alias[i] !in ['.', ':', '/', '@', '#']
  }

  lemma {:induction false} TrimTwice(s: string)
    ensures TrimSpace(TrimSpace(s)) == TrimSpace(s)
  {
    TrimmedIsBare(s);
    var t := TrimSpace(s);
    TrimExact([], t, []);
    assert [] + t + [] == t;
  }

  lemma {:induction false} TrimmedIsBare(s: string)
    ensures Bare(TrimSpace(s))
  {
    LeftBare(s);
    RightBare(TrimLeft(s));
  }

  lemma {:induction false} LeftBare(s: string)
    ensures TrimLeft(s) != [] ==> !IsSpace(TrimLeft(s)[0])
  {
    if s != [] && IsSpace(s[0]) {
      LeftBare(s[1..]);
    }
  }

  lemma {:induction false} RightBare(s: string)
    requires s != [] ==> !IsSpace(s[0])
    ensures Bare(TrimRight(s))
  {
    if s != [] && IsSpace(s[|s| - 1]) {
      RightBare(s[..|s| - 1]);
    }
  }

  /**
   Setting an alias: refused if the trimmed text is unacceptable; if it goes through, the peer carries it,
   nothing else about any record changes, and in a table whose named peers have distinct aliases nobody
   else carries it.
   */
  lemma SetAliasExact(t: Table, id: string, raw: string, fold: Folding, t': Table, ok: bool)
    requires May(t, SetAlias(id, raw), fold, t', ok)
    ensures ok ==> Acceptable(TrimSpace(raw))
    ensures !ok ==> t' == t
    ensures Acceptable(TrimSpace(raw)) && (forall k :: k != id ==> !Carries(t, k, TrimSpace(raw), fold)) ==> ok
    ensures ok ==>
      && t'.Keys == t.Keys + {id} && t'[id].alias == TrimSpace(raw)
      && t'[id].(alias := "") == (if id in t then t[id] else Record(id, "", "", "", "", [], "")).(alias := "")
      && forall k :: k in t && k != id ==> t'[k] == t[k]
    ensures ok && "" !in t && DistinctAliases(t, fold) ==> forall k :: Carries(t', k, TrimSpace(raw), fold) ==> k == id
  {
    TrimTwice(raw);
    var alias := TrimSpace(raw);
    assert ValidAlias(alias) <==> Acceptable(alias);
    if ok && "" !in t && DistinctAliases(t, fold) {
      SetAliasAlone(t, id, alias, fold, t');
    }
  }

  lemma SetAliasAlone(t: Table, id: string, alias: string, fold: Folding, t': Table)
    requires ValidAlias(alias) && "" !in t && DistinctAliases(t, fold) && TrimSpace(alias) == alias
    requires exists other :: AliasAnswer(t, alias, fold, other) && AliasGiven(t, id, alias, other, t', true)
    ensures forall k :: Carries(t', k, alias, fold) ==> k == id
  {
    var other :| AliasAnswer(t, alias, fold, other) && AliasGiven(t, id, alias, other, t', true);
    forall k | Carries(t', k, alias, fold) ensures k == id {
      assert k == id || Carries(t, k, alias, fold);
    }
  }

  /** So a peer is found under the alias it was given, unless that is itself an ID. */
  lemma AliasFound(t: Table, id: string, raw: string, fold: Folding, t': Table, r: Peers.Found)
    requires May(t, SetAlias(id, raw), fold, t', true) && "" !in t && id != "" && DistinctAliases(t, fold)
    requires TrimSpace(raw) !in t' && LookupAnswer(t', raw, fold, r)
    ensures r == Peers.Peer(id)
  {
    SetAliasExact(t, id, raw, fold, t', true);
    assert Carries(t', id, TrimSpace(raw), fold);
  }

  /** Clearing an alias takes it from the record that lookup finds, and changes nothing else. */
  lemma ClearAliasExact(t: Table, key: string, fold: Folding, t': Table, ok: bool)
    requires May(t, ClearAlias(key), fold, t', ok)
    ensures !ok ==> t' == t
    ensures ok ==> exists id ::
      && LookupAnswer(t, key, fold, Peers.Peer(id)) && id in t && t[id].alias != ""
      && t' == t[id := t[id].(alias := "")]
  {
  }

  /** A nameless record carries the alias that a named peer asks for. */
  ghost predicate Shadowed(t: Table, op: Op, fold: Folding) {
    && op.SetAlias? && op.id != "" && ValidAlias(TrimSpace(op.alias))
    && Carries(t, "", TrimSpace(op.alias), fold)
  }

  lemma SetAliasDistinct(t: Table, id: string, alias: string, fold: Folding)
    requires DistinctAliases(t, fold)
    requires forall k :: Carries(t, k, alias, fold) ==> k == id
    ensures DistinctAliases(t[id := Ensured(t, id).(alias := alias)], fold)
  {
    var t' := t[id := Ensured(t, id).(alias := alias)];
    forall i, j | i in t' && j in t' && i != j && t'[i].alias != "" && t'[j].alias != ""
      ensures !EqualFold(t'[i].alias, t'[j].alias, fold)
    {
      assert i != id ==> i in t && t'[i] == t[i];
      assert j != id ==> j in t && t'[j] == t[j];
      if i == id {
        assert !Carries(t, j, alias, fold);
      } else if j == id {
        assert !Carries(t, i, alias, fold);
      }
    }
  }

  /**
   From a table with distinct aliases, a change leaves the aliases distinct exactly when it is not a
   SetAlias for a named peer whose alias a nameless record already carries.
   */
  lemma AliasesExact(t: Table, op: Op, fold: Folding, t': Table, ok: bool)
    requires DistinctAliases(t, fold) && May(t, op, fold, t', ok)
    ensures DistinctAliases(t', fold) <==> !Shadowed(t, op, fold)
  {
    match op
    case Observe(id, s) =>
      if id != "" {
        assert forall k :: k in t' && t'[k].alias != "" ==> k in t && t'[k].alias == t[k].alias;
      }
    case ClearAlias(key) =>
      assert forall k :: k in t' && t'[k].alias != "" ==> k in t && t'[k].alias == t[k].alias;
    case SetAlias(id, raw) =>
      var alias := TrimSpace(raw);
      DistinctUndisputed(t, alias, fold);
      if ok {
        if Shadowed(t, op, fold) {
          ShadowBreaks(t, id, alias, fold);
        } else {
          SetAliasDistinct(t, id, alias, fold);
        }
      }
  }

  lemma ShadowBreaks(t: Table, id: string, alias: string, fold: Folding)
    requires id != "" && alias != "" && Carries(t, "", alias, fold)
    ensures !DistinctAliases(t[id := Ensured(t, id).(alias := alias)], fold)
  {
    var t' := t[id := Ensured(t, id).(alias := alias)];
    assert t'[""] == t[""] && t'[id].alias == alias;
    assert EqualFold(t'[""].alias, t'[id].alias, fold);
  }

  /** A nameless record called "bob" lets a peer take the same alias. */
  lemma NamelessShadows(fold: Folding)
    ensures var bob := Record("", "", "", "bob", "", [], "");
      var t := map["" := bob];
      var t' := t["x" := Record("x", "", "", "bob", "", [], "")];
      DistinctAliases(t, fold) && May(t, SetAlias("x", "bob"), fold, t', true) && !DistinctAliases(t', fold)
  {
    var t := map["" := Record("", "", "", "bob", "", [], "")];
    assert Carries(t, "", "bob", fold);
    assert TrimSpace("bob") == "bob" && ValidAlias("bob");
    assert AliasAnswer(t, "bob", fold, "");
    assert Ensured(t, "x").(alias := "bob") == Record("x", "", "", "bob", "", [], "");
    ShadowBreaks(t, "x", "bob", fold);
  }

  /** Changes in sequence, latest last, with the tables they lead to. */
  datatype History = Start(t: Table) | Then(earlier: History, op: Op, t: Table, ok: bool)

  ghost predicate Happens(h: History, fold: Folding) {
    match h
    case Start(_) => true
    case Then(earlier, op, t, ok) => Happens(earlier, fold) && May(earlier.t, op, fold, t, ok)
  }

  function Origin(h: History): Table {
    match h
    case Start(t) => t
    case Then(earlier, _, _, _) => Origin(earlier)
  }

  predicate NamesPeers(h: History) {
    match h
    case Start(_) => true
    case Then(earlier, op, _, _) => NamesPeers(earlier) && (op.SetAlias? ==> op.id != "")
  }

  /** A table whose keys are its records' own IDs, none of them empty, with distinct aliases. */
  ghost predicate Clean(t: Table, fold: Folding) {
    "" !in t && (forall k :: k in t ==> t[k].peerID == k) && DistinctAliases(t, fold)
  }

  /** Every sequence of changes that names peers keeps aliases distinct, and lookup settled. */
  lemma {:induction false} AliasesStayDistinct(h: History, fold: Folding, raw: string)
    requires Happens(h, fold) && NamesPeers(h) && Clean(Origin(h), fold)
    ensures Clean(h.t, fold) && LookupSettled(h.t, raw, fold)
  {
    match h
    case Start(t) =>
      DistinctUndisputed(t, TrimSpace(raw), fold);
      LookupExact(t, raw, fold);
    case Then(earlier, op, t, ok) =>
      AliasesStayDistinct(earlier, fold, raw);
      AliasesExact(earlier.t, op, fold, t, ok);
      DistinctUndisputed(t, TrimSpace(raw), fold);
      LookupExact(t, raw, fold);
  }

  // ----- The mutable directory

  class Peerbook {
    var byID: Table
    var dirty: bool
    const fold: Folding

    constructor (t: Table, fold: Folding)
      ensures byID == t && !dirty && this.fold == fold
    {
      byID, dirty, this.fold := t, false, fold;
    }

    /** Walks the table in any order and stops at the first record that carries the alias. */
    method IdByAlias(alias: string) returns (id: string)
      ensures AliasAnswer(byID, alias, fold, id)
    {
      var todo := byID.Keys;
      while todo != {}
        invariant forall k :: Carries(byID, k, alias, fold) ==> k in todo
        decreases todo
      {
        var k :| k in todo;
        todo := todo - {k};
        if k in byID && byID[k].alias != "" && EqualFold(byID[k].alias, alias, fold) {
          return k;
        }
      }
      return "";
    }

    method Lookup(raw: string) returns (r: Peers.Found)
      ensures LookupAnswer(byID, raw, fold, r)
    {
      var key := TrimSpace(raw);
      if key in byID {
        return Peers.Peer(key);
      }
      var id := IdByAlias(key);
      if id != "" {
        return Peers.Peer(id);
      }
      r := Peers.ByPrefix(byID.Keys, key);
    }

    // Each change does what `May` allows, and marks the directory dirty exactly when it goes through.

    method Observe(id: string, s: Sighting) returns (ok: bool)
      modifies this
      ensures May(old(byID), Op.Observe(id, s), fold, byID, ok) && dirty == (old(dirty) || ok)
    {
      ok := id != "";
      if ok {
        byID := byID[id := Updated(Ensured(byID, id), s)];
        dirty := true;
      }
    }

    method SetAlias(id: string, raw: string) returns (ok: bool)
      modifies this
      ensures May(old(byID), Op.SetAlias(id, raw), fold, byID, ok) && dirty == (old(dirty) || ok)
    {
      var alias := TrimSpace(raw);
      if !ValidAlias(alias) {
        return false;
      }
      var other := IdByAlias(alias);
      if other != "" && other != id {
        return false;
      }
      byID := byID[id := Ensured(byID, id).(alias := alias)];
      dirty, ok := true, true;
    }

    method ClearAlias(key: string) returns (ok: bool)
      modifies this
      ensures May(old(byID), Op.ClearAlias(key), fold, byID, ok) && dirty == (old(dirty) || ok)
    {
      var r := Lookup(key);
      if !r.Peer? || r.id !in byID || byID[r.id].alias == "" {
        return false;
      }
      byID := byID[r.id := byID[r.id].(alias := "")];
      dirty, ok := true, true;
    }
  }
}
