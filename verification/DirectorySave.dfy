/**
 Saving the directory to disk. A save takes a snapshot and clears the dirty flag under the table's
 lock, then writes without it; changes may come in between, and every write may fail.
 */
module DirectorySave {
  import opened Basics
  import Dir = Directory
  import Messages

  type Table = Dir.Table
  type Record = Dir.Record

  // ----- The file

  /** Loading files records under their IDs, skips nameless ones, and lets the last one win. */
  function LoadTo(recs: seq<Record>, n: nat): Table
    requires n <= |recs|
  {
    if n == 0 then map[]
    else if recs[n - 1].peerID == "" then LoadTo(recs, n - 1)
    else LoadTo(recs, n - 1)[recs[n - 1].peerID := recs[n - 1]]
  }

  /** A missing file loads as an empty table. */
  function Load(file: Option<seq<Record>>): Table {
    match file
    case None => map[]
    case Some(recs) => LoadTo(recs, |recs|)
  }

  /** Of several records with one ID the last one is loaded; a nameless record never is. */
  lemma {:induction false} LoadToExact(recs: seq<Record>, n: nat, k: string)
    requires n <= |recs|
    ensures k in LoadTo(recs, n) <==> k != "" && exists i :: 0 <= i < n && recs[i].peerID == k
    ensures k in LoadTo(recs, n) ==>
      exists i :: 0 <= i < n && recs[i].peerID == k && LoadTo(recs, n)[k] == recs[i] && forall j :: i < j < n ==> recs[j].peerID != k
  {
    if n > 0 {
      LoadToExact(recs, n - 1, k);
      if recs[n - 1].peerID == k && k != "" {
        assert LoadTo(recs, n)[k] == recs[n - 1];
      } else if k in LoadTo(recs, n - 1) {
        var i :| 0 <= i < n - 1 && recs[i].peerID == k && LoadTo(recs, n - 1)[k] == recs[i]
              && forall j :: i < j < n - 1 ==> recs[j].peerID != k;
        assert LoadTo(recs, n)[k] == recs[i] && forall j :: i < j < n ==> recs[j].peerID != k;
      }
    }
  }

  ghost predicate Keyed(t: Table) {
    forall k :: k in t ==> t[k].peerID == k
  }

  /** The snapshot that is written: every record once, sorted by ID. */
  ghost predicate IsListing(recs: seq<Record>, t: Table) {
    && (forall i, j :: 0 <= i < j < |recs| ==> Less(recs[i].peerID, recs[j].peerID))
    && (forall i :: 0 <= i < |recs| ==> recs[i].peerID in t && t[recs[i].peerID] == recs[i])
    && (forall k :: k in t ==> exists i :: 0 <= i < |recs| && recs[i] == t[k])
  }

  lemma {:induction false} LoadToKeyed(recs: seq<Record>, n: nat)
    requires n <= |recs|
    ensures "" !in LoadTo(recs, n) && Keyed(LoadTo(recs, n))
    ensures forall k :: k in LoadTo(recs, n) ==> exists i :: 0 <= i < n && recs[i].peerID == k
  {
    if n > 0 {
      LoadToKeyed(recs, n - 1);
    }
  }

  lemma {:induction false} LoadToListing(recs: seq<Record>, n: nat, t: Table)
    requires n <= |recs| && forall i :: 0 <= i < |recs| ==> recs[i].peerID in t && t[recs[i].peerID] == recs[i]
    ensures forall k :: k in LoadTo(recs, n) ==> k in t && LoadTo(recs, n)[k] == t[k]
    ensures forall i :: 0 <= i < n && recs[i].peerID != "" ==> recs[i].peerID in LoadTo(recs, n)
  {
    if n > 0 {
      LoadToListing(recs, n - 1, t);
    }
  }

  /** What is written loads back as the table it was taken from, except for a nameless record. */
  lemma ListingLoads(recs: seq<Record>, t: Table)
    requires Keyed(t) && IsListing(recs, t)
    ensures Load(Some(recs)) == t - {""}
  {
    var r := LoadTo(recs, |recs|);
    forall k ensures k in r <==> k in t - {""} {
      ListedLoads(recs, t, k);
    }
    forall k | k in r ensures r[k] == t[k] {
      ListedLoads(recs, t, k);
    }
  }

  lemma ListedLoads(recs: seq<Record>, t: Table, k: string)
    requires Keyed(t) && IsListing(recs, t)
    ensures var r := LoadTo(recs, |recs|); (k in r <==> k in t && k != "") && (k in r ==> r[k] == t[k])
  {
    LoadToKeyed(recs, |recs|);
    LoadToListing(recs, |recs|, t);
    if k in t && k != "" {
      var i :| 0 <= i < |recs| && recs[i] == t[k];
      assert recs[i].peerID == k;
    }
  }

  // ----- The protocol

  /** `saving` is the snapshot being written, if a save is running. */
  datatype State = State(table: Table, dirty: bool, disk: Option<seq<Record>>, saving: Option<seq<Record>>)

  datatype Step =
    | Change(op: Dir.Op, t: Table, ok: bool)
    | Snapshot(recs: seq<Record>)
    | Written
    | WriteFailed

  /** Saves exclude each other; a save of a clean directory does nothing. */
  ghost predicate Enabled(s: State, step: Step, fold: Dir.Folding) {
    match step
    case Change(op, t, ok) => Dir.May(s.table, op, fold, t, ok)
    case Snapshot(recs) => s.saving.None? && s.dirty && IsListing(recs, s.table)
    case Written => s.saving.Some?
    case WriteFailed => s.saving.Some?
  }

  function Apply(s: State, step: Step): State {
    match step
    case Change(_, t, ok) => s.(table := t, dirty := s.dirty || ok)
    case Snapshot(recs) => s.(dirty := false, saving := Some(recs))
    case Written => s.(disk := s.saving, saving := None)
    case WriteFailed => s.(dirty := true, saving := None)
  }

  /** Steps in sequence after a successful load, latest last. */
  datatype Run = Loaded(disk: Option<seq<Record>>) | Then(earlier: Run, step: Step)

  function After(run: Run): State {
    match run
    case Loaded(disk) => State(Load(disk), false, disk, None)
    case Then(earlier, step) => Apply(After(earlier), step)
  }

  ghost predicate Happens(run: Run, fold: Dir.Folding) {
    match run
    case Loaded(_) => true
    case Then(earlier, step) => Happens(earlier, fold) && Enabled(After(earlier), step, fold)
  }

  /** Unless the directory is dirty, the file, or the snapshot about to become the file, is current. */
  ghost predicate Inv(s: State) {
    && Keyed(s.table)
    && (!s.dirty && s.saving.None? ==> Load(s.disk) == s.table - {""})
    && (!s.dirty && s.saving.Some? ==> Load(s.saving) == s.table - {""})
  }

  lemma ChangeKeyed(t: Table, op: Dir.Op, fold: Dir.Folding, t': Table, ok: bool)
    requires Keyed(t) && Dir.May(t, op, fold, t', ok)
    ensures Keyed(t') && (!ok ==> t' == t)
  {
  }

  lemma {:induction false} InvAlways(run: Run, fold: Dir.Folding)
    requires Happens(run, fold)
    ensures Inv(After(run))
  {
    match run
    case Loaded(disk) =>
      if disk.Some? {
        LoadToKeyed(disk.value, |disk.value|);
      }
      assert Load(disk) - {""} == Load(disk);
    case Then(earlier, step) =>
      InvAlways(earlier, fold);
      var s := After(earlier);
      match step {
        case Change(op, t, ok) => ChangeKeyed(s.table, op, fold, t, ok);
        case Snapshot(recs) => ListingLoads(recs, s.table);
        case Written =>
        case WriteFailed =>
      }
  }

  predicate Clean(s: State) {
    !s.dirty && s.saving.None?
  }

  /**
   For every interleaving of changes, snapshots, writes and failures: whenever the directory is not
   dirty and no save is running, the file loads back to exactly the table in memory, if and only if
   no nameless record has been created.
   */
  lemma SaveProtocolExact(run: Run, fold: Dir.Folding)
    requires Happens(run, fold) && Clean(After(run))
    ensures Load(After(run).disk) == After(run).table <==> "" !in After(run).table
  {
    InvAlways(run, fold);
    var s := After(run);
    assert "" !in s.table ==> s.table - {""} == s.table;
    assert "" !in s.table - {""};
  }

  lemma SingleListing(rec: Record)
    ensures IsListing([rec], map[rec.peerID := rec])
  {
    assert [rec][0] == rec;
  }

  /** An alias for the empty ID is written, but does not load back. */
  lemma NamelessIsLost(fold: Dir.Folding)
    ensures exists run :: Happens(run, fold) && Clean(After(run)) && Load(After(run).disk) != After(run).table
  {
    var bob := Dir.Record("", "", "", "bob", "", [], "");
    var t: Table := map["" := bob];
    var r1 := Then(Loaded(None), Change(Dir.SetAlias("", "bob"), t, true));
    assert Messages.TrimSpace("bob") == "bob" && Dir.ValidAlias("bob");
    assert Dir.AliasAnswer(map[], "bob", fold, "");
    assert Dir.Ensured(map[], "").(alias := "bob") == bob;
    assert Dir.AliasGiven(map[], "", "bob", "", t, true);
    var s0 := After(Loaded(None));
    assert s0.table == map[];
    assert Dir.May(s0.table, Dir.SetAlias("", "bob"), fold, t, true);
    assert Enabled(s0, r1.step, fold) && Happens(Loaded(None), fold);
    assert Happens(r1, fold);
    SingleListing(bob);
    assert After(r1) == State(t, true, None, None);
    var r2 := Then(r1, Snapshot([bob]));
    assert Happens(r2, fold);
    var run := Then(r2, Written);
    assert Happens(run, fold);
    SaveProtocolExact(run, fold);
  }
}
