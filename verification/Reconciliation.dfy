/** The reconciliation that opens a run of the ledger: four surfaces are compared
  with the store, and every one that differs gets a discrepancy row. A recovery
  starts from its result. */
module Reconciliation {
  import opened Options
  import opened Ledger
  import opened Recovery

  const SURFACES := ["events", "projection", "filesystem", "git"]

  /** What is reconciled: the file of a stored version. */
  datatype Scope = Scope(id: string, path: string, hash: string, identity: Option<string>)

  /** What the store and Git answer about the other surfaces. */
  datatype Checks = Checks(events: bool, projection: bool, git: bool)

  /** `observe(path, expected)`. */
  function ObserveAs(g: Digests, w: World, s: Scope): Option<(string, string)> {
    var seen := Observe(g, w, s.path);
    if seen.Some? && s.identity.Some? && seen.value.0 != s.identity.value then None else seen
  }

  predicate FileOk(g: Digests, w: World, s: Scope) {
    var seen := ObserveAs(g, w, s);
    seen.Some? && seen.value.1 == s.hash
  }

  function Listing(condition: bool, name: string): seq<string> { if condition then [name] else [] }

  /** The surfaces that differ, unless the caller names one. */
  function Mismatches(fileOk: bool, c: Checks, changed: string): seq<string> {
    if changed != "" then [changed]
    else
      Listing(!c.events, "events") + Listing(!c.projection, "projection") + Listing(!fileOk, "filesystem")
      + Listing(!c.git, "git")
  }

  predicate Listed(bad: seq<string>, surface: string) { surface in bad || (surface == "events" && "event" in bad) }

  /** Where the file was seen, or the logical target, or nothing. */
  function FileProvenance(g: Digests, w: World, s: Scope): string {
    var seen := ObserveAs(g, w, s);
    if seen.Some? then seen.value.0 else if s.path in w.targets then w.targets[s.path] else ""
  }

  function RunIds(rs: seq<Run>): seq<int> { seq(|rs|, i requires 0 <= i < |rs| => rs[i].id) }

  function DiscrepancyIds(ds: seq<Discrepancy>): seq<int> { seq(|ds|, i requires 0 <= i < |ds| => ds[i].id) }

  /** One more than the greatest number of a run of the scope. */
  function NextSequence(rs: seq<Run>, scope: string): (n: int)
    ensures forall r :: r in rs && r.scope == scope ==> r.sequence < n
    ensures (exists r :: r in rs && r.scope == scope && r.sequence == n - 1)
      || (n == 0 && forall r :: r in rs ==> r.scope != scope)
  {
    if rs == [] then 0
    else
      assert rs == [rs[0]] + rs[1..];
      var rest := NextSequence(rs[1..], scope);
      if rs[0].scope != scope then rest
      else if (exists r :: r in rs[1..] && r.scope == scope) && rs[0].sequence < rest then rest
      else rs[0].sequence + 1
  }

  function NewRun(db: Db, s: Scope, bad: seq<string>): Run {
    Run(NextId(RunIds(db.runs)), s.id, NextSequence(db.runs, s.id), if bad == [] then "clean" else "blocked", "native")
  }

  function NewDiscrepancy(db: Db, run: Run, surface: string, provenance: string): Discrepancy {
    Discrepancy(NextId(DiscrepancyIds(db.discrepancies)), run.id, run.scope, "native", None, None,
      if surface == "filesystem" then "filesystem" else "surface",
      if surface == "filesystem" then provenance else surface, 0, surface)
  }

  /** The rows of the listed surfaces, from one surface on; nothing if a guard aborts. */
  function AddRows(db: Db, ids: map<string, int>, run: Run, provenance: string, bad: seq<string>, from: nat)
    : Option<(Db, map<string, int>)>
    requires from <= 4
    decreases 4 - from
  {
    if from == 4 then Some((db, ids))
    else
      var surface := SURFACES[from];
      if !Listed(bad, surface) then AddRows(db, ids, run, provenance, bad, from + 1)
      else
        var d := NewDiscrepancy(db, run, surface, provenance);
        var next := InsertDiscrepancy(db, d);
        if next.None? then None else AddRows(next.value, ids[surface := d.id], run, provenance, bad, from + 1)
  }

  function Reconcile(g: Digests, db: Db, w: World, s: Scope, c: Checks, changed: string): Option<(Db, Reconciled)> {
    var bad := Mismatches(FileOk(g, w, s), c, changed);
    var run := NewRun(db, s, bad);
    var begun := InsertRun(db, run);
    if begun.None? then None
    else
      var rows := AddRows(begun.value, map[], run, FileProvenance(g, w, s), bad, 0);
      if rows.None? then None
      else Some((rows.value.0, Reconciled(bad == [], run.status, bad, rows.value.1, run.id, s.id, "native")))
  }

  // What a reconciliation leaves

  lemma NewIdsAreFresh(db: Db)
    ensures forall r :: r in db.runs ==> r.id < NextId(RunIds(db.runs))
    ensures forall d :: d in db.discrepancies ==> d.id < NextId(DiscrepancyIds(db.discrepancies))
  {
    hide NextId;
    forall r | r in db.runs ensures r.id < NextId(RunIds(db.runs)) {
      var i :| 0 <= i < |db.runs| && db.runs[i] == r;
      assert RunIds(db.runs)[i] in RunIds(db.runs);
    }
    forall d | d in db.discrepancies ensures d.id < NextId(DiscrepancyIds(db.discrepancies)) {
      var i :| 0 <= i < |db.discrepancies| && db.discrepancies[i] == d;
      assert DiscrepancyIds(db.discrepancies)[i] in DiscrepancyIds(db.discrepancies);
    }
  }

  /** The row behind an entry of the result: first of its chain and observed first. */
  ghost predicate RowBehind(db: Db, run: Run, provenance: string, surface: string, id: int) {
    exists d :: d in db.discrepancies && IsRowBehind(d, run, provenance, surface, id)
  }

  predicate IsRowBehind(d: Discrepancy, run: Run, provenance: string, surface: string, id: int) {
    && d.id == id && d.run == run.id && d.scope == run.scope && d.lineage == "native" && d.surface == surface
    && d.correctsId.None? && d.observation == 0
    && d.kind == (if surface == "filesystem" then "filesystem" else "surface")
    && d.provenance == (if surface == "filesystem" then provenance else surface)
  }

  /** The state of the loop before a surface: exactly the listed surfaces so far
    have their rows, and only discrepancies have been added. */
  ghost predicate RowsSoFar(
      start: Db, db: Db, ids: map<string, int>, run: Run, provenance: string, bad: seq<string>, from: nat)
    requires from <= 4
  {
    && Invariant(db) && run in db.runs && db.runs == start.runs && db.actions == start.actions
    && db.outcomes == start.outcomes && start.discrepancies <= db.discrepancies
    && ListedSoFar(ids.Keys, bad, from)
    && (forall k :: k in ids ==> RowBehind(db, run, provenance, k, ids[k]))
  }

  /** The names of the surfaces before `from` that are listed. */
  ghost predicate ListedSoFar(names: set<string>, bad: seq<string>, from: nat)
    requires from <= 4
  {
    forall k :: k in names <==> exists i :: 0 <= i < from && SURFACES[i] == k && Listed(bad, k)
  }

  lemma OneMoreListed(names: set<string>, bad: seq<string>, from: nat)
    requires from < 4 && ListedSoFar(names, bad, from)
    ensures ListedSoFar(if Listed(bad, SURFACES[from]) then names + {SURFACES[from]} else names, bad, from + 1)
  {
    hide Listed;
  }

  lemma RowAccepted(db: Db, run: Run, surface: string, provenance: string)
    requires Invariant(db) && run in db.runs
    ensures var d := NewDiscrepancy(db, run, surface, provenance);
      && InsertDiscrepancy(db, d) == Some(db.(discrepancies := db.discrepancies + [d]))
      && Invariant(db.(discrepancies := db.discrepancies + [d])) && IsRowBehind(d, run, provenance, surface, d.id)
  {
    hide Invariant;
    hide NextId;
    var d := NewDiscrepancy(db, run, surface, provenance);
    NewIdsAreFresh(db);
    assert AcceptsDiscrepancy(db, d);
    InsertKeepsInvariant(db, DiscrepancyRow(d));
  }

  lemma OneMoreRow(
      start: Db, db: Db, ids: map<string, int>, run: Run, provenance: string, bad: seq<string>, from: nat,
      d: Discrepancy)
    requires from < 4 && RowsSoFar(start, db, ids, run, provenance, bad, from) && Listed(bad, SURFACES[from])
    requires IsRowBehind(d, run, provenance, SURFACES[from], d.id)
    requires Invariant(db.(discrepancies := db.discrepancies + [d]))
    ensures RowsSoFar(
      start, db.(discrepancies := db.discrepancies + [d]), ids[SURFACES[from] := d.id], run, provenance, bad, from + 1)
  {
    hide Invariant, IsRowBehind, Listed, RowBehind, ListedSoFar;
    var surface := SURFACES[from];
    OneMoreListed(ids.Keys, bad, from);
    var db', ids' := db.(discrepancies := db.discrepancies + [d]), ids[surface := d.id];
    assert ids'.Keys == ids.Keys + {surface};
    RowOfLast(db, d, run, provenance, surface);
    forall k | k in ids' ensures RowBehind(db', run, provenance, k, ids'[k]) {
      if k != surface { RowOfMore(db, d, run, provenance, k, ids[k]); }
    }
  }

  lemma RowOfLast(db: Db, d: Discrepancy, run: Run, provenance: string, surface: string)
    requires IsRowBehind(d, run, provenance, surface, d.id)
    ensures RowBehind(db.(discrepancies := db.discrepancies + [d]), run, provenance, surface, d.id)
  {
    assert d in db.discrepancies + [d];
  }

  lemma RowOfMore(db: Db, d: Discrepancy, run: Run, provenance: string, surface: string, id: int)
    requires RowBehind(db, run, provenance, surface, id)
    ensures RowBehind(db.(discrepancies := db.discrepancies + [d]), run, provenance, surface, id)
  {
    var e :| e in db.discrepancies && IsRowBehind(e, run, provenance, surface, id);
    assert e in db.discrepancies + [d];
  }

  lemma NoRow(start: Db, db: Db, ids: map<string, int>, run: Run, provenance: string, bad: seq<string>, from: nat)
    requires from < 4 && RowsSoFar(start, db, ids, run, provenance, bad, from) && !Listed(bad, SURFACES[from])
    ensures RowsSoFar(start, db, ids, run, provenance, bad, from + 1)
  {
    hide Invariant, Listed, RowBehind, ListedSoFar;
    OneMoreListed(ids.Keys, bad, from);
  }

  lemma {:induction false} AllRows(
      start: Db, db: Db, ids: map<string, int>, run: Run, provenance: string, bad: seq<string>, from: nat)
    requires from <= 4 && RowsSoFar(start, db, ids, run, provenance, bad, from)
    ensures var rows := AddRows(db, ids, run, provenance, bad, from);
      rows.Some? && RowsSoFar(start, rows.value.0, rows.value.1, run, provenance, bad, 4)
    decreases 4 - from
  {
    hide RowsSoFar, NewDiscrepancy, InsertDiscrepancy, Listed;
    if from < 4 {
      var surface := SURFACES[from];
      if Listed(bad, surface) {
        var d := NewDiscrepancy(db, run, surface, provenance);
        RowsInvariant(start, db, ids, run, provenance, bad, from);
        RowAccepted(db, run, surface, provenance);
        OneMoreRow(start, db, ids, run, provenance, bad, from, d);
        AllRows(start, db.(discrepancies := db.discrepancies + [d]), ids[surface := d.id], run, provenance, bad,
          from + 1);
      } else {
        NoRow(start, db, ids, run, provenance, bad, from);
        AllRows(start, db, ids, run, provenance, bad, from + 1);
      }
    }
  }

  lemma RowsInvariant(start: Db, db: Db, ids: map<string, int>, run: Run, provenance: string, bad: seq<string>,
      from: nat)
    requires from <= 4 && RowsSoFar(start, db, ids, run, provenance, bad, from)
    ensures Invariant(db) && run in db.runs
  {
  }

  lemma RunAccepted(db: Db, s: Scope, bad: seq<string>)
    requires Invariant(db)
    ensures var run := NewRun(db, s, bad);
      InsertRun(db, run) == Some(db.(runs := db.runs + [run])) && Invariant(db.(runs := db.runs + [run]))
  {
    hide Invariant;
    hide NextId, NextSequence;
    var run := NewRun(db, s, bad);
    NewIdsAreFresh(db);
    assert AcceptsRun(db, run);
    InsertKeepsInvariant(db, RunRow(run));
  }

  /** A reconciliation always commits: one run with the next number of its scope,
    and behind the result exactly one discrepancy row for each surface listed. */
  lemma ReconcileCommits(g: Digests, db: Db, w: World, s: Scope, c: Checks, changed: string)
    requires Invariant(db)
    ensures var done := Reconcile(g, db, w, s, c, changed);
      var bad := Mismatches(FileOk(g, w, s), c, changed);
      var run := NewRun(db, s, bad);
      && done.Some? && done.value.1.mismatches == bad && done.value.1.run == run.id && done.value.1.scope == s.id
      && done.value.1.status == run.status && done.value.1.lineage == "native"
      && done.value.1.authoritative == (bad == [])
      && done.value.0.runs == db.runs + [run]
      && RowsSoFar(db.(runs := db.runs + [run]), done.value.0, done.value.1.discrepancies, run, FileProvenance(g, w, s),
        bad, 4)
  {
    hide FileOk, FileProvenance, Mismatches, AddRows, InsertRun, Invariant;
    hide NewRun;
    var bad := Mismatches(FileOk(g, w, s), c, changed);
    var run := NewRun(db, s, bad);
    RunAccepted(db, s, bad);
    var start := db.(runs := db.runs + [run]);
    assert run in start.runs;
    AllRows(start, start, map[], run, FileProvenance(g, w, s), bad, 0);
  }

  /** Each run is the first of its scope or follows the one numbered one less. */
  ghost predicate Dense(rs: seq<Run>) {
    forall r :: r in rs ==> r.sequence == 0 || exists p :: p in rs && Precedes(p, r)
  }

  predicate Precedes(p: Run, r: Run) { p.scope == r.scope && p.sequence == r.sequence - 1 }

  /** Reconciliations number the runs of a scope without gaps. */
  lemma RunsAreNumbered(g: Digests, db: Db, w: World, s: Scope, c: Checks, changed: string, after: Db, run: Reconciled)
    requires Invariant(db) && Dense(db.runs) && Reconcile(g, db, w, s, c, changed) == Some((after, run))
    ensures Dense(after.runs)
  {
    hide Reconcile, Invariant, RowsSoFar, Dense, NewRun;
    ReconcileCommits(g, db, w, s, c, changed);
    DenseMore(db, s, Mismatches(FileOk(g, w, s), c, changed));
  }

  lemma DenseMore(db: Db, s: Scope, bad: seq<string>)
    requires Dense(db.runs)
    ensures Dense(db.runs + [NewRun(db, s, bad)])
  {
    hide NextId;
    var run := NewRun(db, s, bad);
    var more := db.runs + [run];
    forall r | r in more ensures r.sequence == 0 || exists p :: p in more && Precedes(p, r) {
      if r in db.runs && r.sequence != 0 {
        var p :| p in db.runs && Precedes(p, r);
        assert p in more;
      } else if r == run && r.sequence != 0 {
        var p :| p in db.runs && p.scope == s.id && p.sequence == r.sequence - 1;
        assert p in more && Precedes(p, r);
      }
    }
  }

  /** A blocked run without any discrepancy is possible, and exactly when the caller
    names a surface that there is not. */
  lemma BlockedWithoutDiscrepancy(
      g: Digests, db: Db, w: World, s: Scope, c: Checks, changed: string, after: Db, run: Reconciled)
    requires Invariant(db) && Reconcile(g, db, w, s, c, changed) == Some((after, run))
    ensures run.status == "blocked" && run.discrepancies == map[] <==>
      changed != "" && changed != "event" && changed !in SURFACES
  {
    hide FileOk, Reconcile, Invariant, RowBehind, NewRun, FileProvenance;
    ReconcileCommits(g, db, w, s, c, changed);
    var bad := Mismatches(FileOk(g, w, s), c, changed);
    StatusOf(db, s, bad);
    assert forall i :: 0 <= i < 4 && Listed(bad, SURFACES[i]) ==> SURFACES[i] in run.discrepancies;
    if changed == "" && bad != [] {
      assert bad[0] in SURFACES && Listed(bad, bad[0]);
      assert bad[0] in run.discrepancies;
    } else if changed == "event" {
      assert Listed(bad, SURFACES[0]);
    } else if changed in SURFACES {
      assert Listed(bad, changed) && changed in run.discrepancies;
    } else if changed != "" {
      assert forall k :: k !in run.discrepancies;
    }
  }

  // From a reconciliation to a recovery

  /** No rendering of an inode is the name of a logical target: the one has a colon,
    the other is hexadecimal. */
  ghost predicate Renderings(g: Digests, w: World) {
    && (forall i: nat :: ':' in g.identity(i))
    && (forall p :: p in w.targets ==> ':' !in w.targets[p])
  }

  lemma ResultIsPersisted(
      g: Digests, db: Db, w: World, s: Scope, c: Checks, changed: string, after: Db, run: Reconciled)
    returns (d: Discrepancy)
    requires Invariant(db) && Reconcile(g, db, w, s, c, changed) == Some((after, run))
    requires "filesystem" in run.discrepancies
    ensures FindDiscrepancy(after, run, run.discrepancies["filesystem"], after.discrepancies) == Some(d)
    ensures d.observation == 0 && d.provenance == FileProvenance(g, w, s)
  {
    ReconcileCommits(g, db, w, s, c, changed);
    var row := NewRun(db, s, run.mismatches);
    hide Reconcile, FileProvenance, NewRun, FileOk, Mismatches, FindDiscrepancy;
    assert RowBehind(after, row, FileProvenance(g, w, s), "filesystem", run.discrepancies["filesystem"]);
    d :| d in after.discrepancies
      && IsRowBehind(d, row, FileProvenance(g, w, s), "filesystem", run.discrepancies["filesystem"]);
    assert row in after.runs;
    assert Persisted(after, run, d.id, row, d);
    IdsAreUnique(after);
    FindsTheOne(after, run, d.id, after.discrepancies, d, row);
  }

  ghost predicate UniqueIds(ds: seq<Discrepancy>) { forall i, j :: 0 <= i < j < |ds| ==> ds[i].id != ds[j].id }

  lemma IdsAreUnique(db: Db)
    requires Invariant(db)
    ensures UniqueIds(db.discrepancies)
  {
  }

  lemma {:induction false} FindsTheOne(db: Db, run: Reconciled, id: int, ds: seq<Discrepancy>, d: Discrepancy, r: Run)
    requires d in ds && UniqueIds(ds) && r in db.runs && Persisted(db, run, id, r, d)
    ensures FindDiscrepancy(db, run, id, ds) == Some(d)
    decreases |ds|
  {
    if ds[0] != d {
      var i :| 0 < i < |ds| && ds[i] == d;
      assert ds[0].id != d.id;
      assert d == ds[1..][i - 1];
      FindsTheOne(db, run, id, ds[1..], d, r);
    }
  }

  /** Recovery from a reconciliation is bound exactly when the file is the only
    surface that differs and could not be observed at all under its recorded
    identity. A file that was merely rewritten in place is never bound: the run
    then names the inode, and a recovery wants the logical target. */
  lemma RecoverableExactly(
      g: Digests, db: Db, w: World, s: Scope, c: Checks, changed: string, after: Db, run: Reconciled, later: World,
      q: Request)
    requires Invariant(db) && Reconcile(g, db, w, s, c, changed) == Some((after, run)) && Renderings(g, later)
    ensures Bind(g, after, later, run, q).Some? <==>
      && Mismatches(FileOk(g, w, s), c, changed) == ["filesystem"] && ObserveAs(g, w, s).None?
      && q.path.Some? && q.path.value in later.safe && q.path.value in later.targets
      && later.targets[q.path.value] == (if s.path in w.targets then w.targets[s.path] else "")
      && q.replacement.Some? && q.authorization != "" && q.authorizationScope != ""
  {
    hide Reconcile, FindDiscrepancy, Invariant, Mismatches, FileOk, RowsSoFar, Observe, NewRun;
    ReconcileCommits(g, db, w, s, c, changed);
    var bad := Mismatches(FileOk(g, w, s), c, changed);
    if bad == ["filesystem"] {
      OnlyTheFile(g, db, w, s, c, changed, after, run);
      var d := ResultIsPersisted(g, db, w, s, c, changed, after, run);
      StatusOf(db, s, bad);
      if ObserveAs(g, w, s).Some? { SeenIsInode(g, w, s); }
    }
  }

  lemma StatusOf(db: Db, s: Scope, bad: seq<string>)
    ensures NewRun(db, s, bad).status == if bad == [] then "clean" else "blocked"
  {
  }

  lemma SeenIsInode(g: Digests, w: World, s: Scope)
    requires ObserveAs(g, w, s).Some? && forall i: nat :: ':' in g.identity(i)
    ensures ':' in FileProvenance(g, w, s)
  {
  }

  lemma OnlyTheFile(
      g: Digests, db: Db, w: World, s: Scope, c: Checks, changed: string, after: Db, run: Reconciled)
    requires Invariant(db) && Reconcile(g, db, w, s, c, changed) == Some((after, run))
    requires Mismatches(FileOk(g, w, s), c, changed) == ["filesystem"]
    ensures run.discrepancies.Keys == {"filesystem"}
  {
    hide Reconcile, Invariant, Mismatches, FileOk, RowBehind, FileProvenance, NewRun, Listed;
    ReconcileCommits(g, db, w, s, c, changed);
    FileIsListed();
    assert SURFACES[2] == "filesystem";
    assert "filesystem" in run.discrepancies;
    assert forall k :: k in run.discrepancies ==> Listed(["filesystem"], k);
  }

  lemma FileIsListed()
    ensures forall k :: Listed(["filesystem"], k) <==> k == "filesystem"
  {
  }

  // Recoveries of a reconciliation's run, whenever they are made

  /** The ledger holds the run's discrepancy, observed first. */
  ghost predicate FoundFirst(db: Db, run: Reconciled) {
    "filesystem" in run.discrepancies ==>
      exists r, d :: r in db.runs && Persisted(db, run, run.discrepancies["filesystem"], r, d) && d.observation == 0
  }

  /** Whatever has been bound to the run carries its observation number. */
  ghost predicate BoundFirst(s: State, run: Reconciled) {
    && FoundFirst(s.db, run)
    && forall id :: id in s.calls && s.calls[id].run == run ==> s.calls[id].binding.observation == 0
  }

  lemma ReconciledIsFound(g: Digests, db: Db, w: World, s: Scope, c: Checks, changed: string, after: Db,
      run: Reconciled)
    requires Invariant(db) && Reconcile(g, db, w, s, c, changed) == Some((after, run))
    ensures FoundFirst(after, run)
  {
    if "filesystem" in run.discrepancies {
      var d := ResultIsPersisted(g, db, w, s, c, changed, after, run);
      hide Reconcile, FindDiscrepancy, Persisted;
      var r :| r in after.runs && Persisted(after, run, run.discrepancies["filesystem"], r, d);
    }
  }

  lemma FoundStays(db: Db, db': Db, run: Reconciled)
    requires FoundFirst(db, run) && Extends(db, db')
    ensures FoundFirst(db', run)
  {
    if "filesystem" in run.discrepancies {
      var r, d :| r in db.runs && Persisted(db, run, run.discrepancies["filesystem"], r, d) && d.observation == 0;
      assert r in db'.runs && Persisted(db', run, run.discrepancies["filesystem"], r, d);
    }
  }

  lemma BindsFirst(g: Digests, db: Db, w: World, run: Reconciled, q: Request)
    requires Invariant(db) && FoundFirst(db, run) && Bind(g, db, w, run, q).Some?
    ensures Bind(g, db, w, run, q).value.observation == 0
  {
    hide Invariant, FindDiscrepancy, Observe;
    var id := run.discrepancies["filesystem"];
    var r, d :| r in db.runs && Persisted(db, run, id, r, d) && d.observation == 0;
    IdsAreUnique(db);
    FindsTheOne(db, run, id, db.discrepancies, d, r);
  }

  lemma StepBindsFirst(g: Digests, s: State, step: Step, run: Reconciled)
    requires StateOk(g, s) && BoundFirst(s, run)
    ensures BoundFirst(Take(g, s, step), run)
  {
    hide StateOk, Take, FoundFirst, Bind, Extends, Invariant;
    var t := Take(g, s, step);
    StepExtends(g, s, step);
    LedgerIsOk(g, s);
    FoundStays(s.db, t.db, run);
    forall id | id in t.calls && t.calls[id].run == run ensures t.calls[id].binding.observation == 0 {
      BindingsStay(g, s, step, id);
      if step.Start? && id !in s.calls { BindsFirst(g, s.db, s.world, run, step.request); }
    }
  }

  lemma LedgerIsOk(g: Digests, s: State)
    requires StateOk(g, s)
    ensures Invariant(s.db)
  {
  }

  /** A call keeps what it was bound to when it started. */
  lemma BindingsStay(g: Digests, s: State, step: Step, id: nat)
    requires id in Take(g, s, step).calls
    ensures var c := Take(g, s, step).calls[id];
      if id in s.calls then c.run == s.calls[id].run && c.binding == s.calls[id].binding
      else step.Start? && c.run == step.run && Bind(g, s.db, s.world, step.run, step.request) == Some(c.binding)
  {
    hide Bind, Conclude, InsertAction, Insert, NewAction, Observe;
  }

  lemma {:induction false} RunBindsFirst(g: Digests, s: State, steps: seq<Step>, run: Reconciled)
    requires StateOk(g, s) && BoundFirst(s, run) && AllLegal(g, s, steps)
    ensures BoundFirst(TakeAll(g, s, steps), run)
    decreases |steps|
  {
    hide StateOk, BoundFirst, Take, Legal;
    if steps != [] {
      StepKeeps(g, s, steps[0]);
      StepBindsFirst(g, s, steps[0], run);
      RunBindsFirst(g, Take(g, s, steps[0]), steps[1..], run);
    }
  }

  /** A reconciliation may come between any two steps at which no transaction is open. */
  lemma ReconcileKeepsState(g: Digests, s: State, scope: Scope, c: Checks, changed: string, after: Db, run: Reconciled)
    requires StateOk(g, s) && s.writer.None? && Reconcile(g, s.db, s.world, scope, c, changed) == Some((after, run))
    ensures StateOk(g, s.(db := after)) && Extends(s.db, after)
  {
    hide Invariant, Reconcile, RowBehind, ListedSoFar, FileOk, FileProvenance, Mismatches, NewRun, History, Concluded;
    hide AcceptsAction, NewAction;
    ReconcileCommits(g, s.db, s.world, scope, c, changed);
    forall id | id in s.calls ensures CallOk(g, s.(db := after), id) { assert CallOk(g, s, id); }
  }

  /** Committing the call adds its action with both of its rows. */
  ghost predicate AddsBothRows(g: Digests, s: State, call: nat)
    requires call in s.calls
  {
    var c, db := s.calls[call], Take(g, s, Commit(call)).db;
    && "filesystem" in c.run.discrepancies
    && var a := NewAction(g, s.db, c.run, c.request, c.binding);
       && db.actions == s.db.actions + [a] && |History(db.outcomes, a.id)| == 2
       && History(db.outcomes, a.id)[1].result == TerminalOf(EffectOf(c.checkpoint))
  }

  lemma ReadyAddsBothRows(g: Digests, s: State, call: nat)
    requires StateOk(g, s) && call in s.calls && s.calls[call].phase.Ready? && s.calls[call].binding.observation >= 0
    ensures AddsBothRows(g, s, call)
  {
    hide StateOk, DoStart, DoBegin, DoCreate, DoWrite, DoCheck, DoCommit, Insert, Dropped, NewAction, History;
    hide Invariant, Completed, Conclude;
    ReplayedActionExists(g, s, call);
    CommitAdds(g, s, call);
  }

  /** A recovery of a reconciliation's run never fails at its outcome rows after its
    effect: in any later state, after any calls, crashes and edits, whatever call
    of that run has come to its commit adds its action with both rows. */
  lemma ReconciledRecoveryConcludes(
      g: Digests, s: State, scope: Scope, c: Checks, changed: string, after: Db, run: Reconciled, steps: seq<Step>,
      call: nat)
    requires StateOk(g, s) && s.writer.None? && Reconcile(g, s.db, s.world, scope, c, changed) == Some((after, run))
    requires (forall id :: id in s.calls ==> s.calls[id].run != run) && AllLegal(g, s.(db := after), steps)
    requires var t := TakeAll(g, s.(db := after), steps);
      call in t.calls && t.calls[call].run == run && t.calls[call].phase.Ready?
    ensures AddsBothRows(g, TakeAll(g, s.(db := after), steps), call)
  {
    var begun := s.(db := after);
    ReconcileKeepsState(g, s, scope, c, changed, after, run);
    ReconciledIsFound(g, s.db, s.world, scope, c, changed, after, run);
    hide StateOk, Reconcile, FoundFirst, AddsBothRows, TakeAll;
    RunKeeps(g, begun, steps);
    RunBindsFirst(g, begun, steps, run);
    ReadyAddsBothRows(g, TakeAll(g, begun, steps), call);
  }
}
