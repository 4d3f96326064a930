/** What a reconciliation reports, stated of the checks and of the file alone. */
module ReconciliationResults {
  import opened Options
  import opened Bytes
  import opened Ledger
  import opened Recovery
  import opened Reconciliation

  /** The file is there, readable, still the one that was recorded if one was, and
    holds what was recorded. */
  predicate FileIntact(g: Digests, w: World, s: Scope) {
    && s.path in w.names && s.path !in w.unreadable && w.names[s.path] in w.contents
    && (s.identity.Some? ==> s.identity.value == g.identity(w.names[s.path]))
    && g.content(w.contents[w.names[s.path]]) == s.hash
  }

  /** Where the file discrepancy is said to be: the file that was seen, or the target
    that the path names, or nothing. */
  function SeenAt(g: Digests, w: World, s: Scope): string {
    if s.path in w.names && s.path !in w.unreadable && w.names[s.path] in w.contents
       && (s.identity.Some? ==> s.identity.value == g.identity(w.names[s.path]))
    then g.identity(w.names[s.path])
    else if s.path in w.targets then w.targets[s.path]
    else ""
  }

  lemma IntactExactly(g: Digests, w: World, s: Scope)
    ensures FileOk(g, w, s) <==> FileIntact(g, w, s)
    ensures FileProvenance(g, w, s) == SeenAt(g, w, s)
  {
  }

  /** The row behind a surface: of the run, about the scope, first of its chain. */
  ghost predicate IsReported(db: Db, run: Reconciled, surface: string, provenance: string) {
    surface in run.discrepancies && exists d :: d in db.discrepancies && IsReportedBy(d, run, surface, provenance)
  }

  predicate IsReportedBy(d: Discrepancy, run: Reconciled, surface: string, provenance: string)
    requires surface in run.discrepancies
  {
    && d.id == run.discrepancies[surface] && d.run == run.run && d.scope == run.scope && d.lineage == "native"
    && d.surface == surface && d.correctsId.None? && d.observation == 0
    && d.kind == (if surface == "filesystem" then "filesystem" else "surface") && d.provenance == provenance
  }

  lemma FourChecks(events: bool, projection: bool, file: bool, git: bool)
    ensures var bad := Listing(!events, "events") + Listing(!projection, "projection") + Listing(!file, "filesystem")
        + Listing(!git, "git");
      && ("events" in bad <==> !events) && ("projection" in bad <==> !projection)
      && ("filesystem" in bad <==> !file) && ("git" in bad <==> !git) && "event" !in bad
      && (forall k :: k in bad ==> k in {"events", "projection", "filesystem", "git"})
      && (bad == [] <==> events && projection && file && git)
  {
    assert "event" != "events" && "event" != "projection" && "event" != "filesystem" && "event" != "git";
  }

  /** A reconciliation that is left to look for itself: it is clean, and carries
    authority, exactly when the events, the projections and Git are in order and
    the file is intact; otherwise it lists exactly what is not. */
  lemma CleanExactly(g: Digests, db: Db, w: World, s: Scope, c: Checks, after: Db, run: Reconciled)
    requires Invariant(db) && Reconcile(g, db, w, s, c, "") == Some((after, run))
    ensures (run.authoritative <==> c.events && c.projection && c.git && FileIntact(g, w, s))
    ensures run.status == if run.authoritative then "clean" else "blocked"
    ensures "events" in run.mismatches <==> !c.events
    ensures "projection" in run.mismatches <==> !c.projection
    ensures "filesystem" in run.mismatches <==> !FileIntact(g, w, s)
    ensures "git" in run.mismatches <==> !c.git
    ensures forall k :: k in run.mismatches ==> k in {"events", "projection", "filesystem", "git"}
    ensures run.discrepancies.Keys == set k | k in run.mismatches
  {
    hide Reconcile, Invariant, FileOk, FileProvenance, FileIntact, NewRun, RowBehind, Listing;
    ReconcileCommits(g, db, w, s, c, "");
    IntactExactly(g, w, s);
    var bad := Mismatches(FileOk(g, w, s), c, "");
    StatusOf(db, s, bad);
    FourChecks(c.events, c.projection, FileIntact(g, w, s), c.git);
    ListedIsMember(bad, run.discrepancies.Keys);
  }

  lemma ListedIsMember(bad: seq<string>, names: set<string>)
    requires ListedSoFar(names, bad, 4) && "event" !in bad
    requires forall k :: k in bad ==> k in {"events", "projection", "filesystem", "git"}
    ensures names == set k | k in bad
  {
    assert SURFACES[0] == "events" && SURFACES[1] == "projection";
    assert SURFACES[2] == "filesystem" && SURFACES[3] == "git";
  }

  /** A caller that names a surface gets just that one, whatever the checks say: the run
    is blocked, and has a row if there is such a surface. */
  lemma NamedSurfaceBlocks(
      g: Digests, db: Db, w: World, s: Scope, c: Checks, changed: string, after: Db, run: Reconciled)
    requires Invariant(db) && Reconcile(g, db, w, s, c, changed) == Some((after, run)) && changed != ""
    ensures run.mismatches == [changed] && run.status == "blocked" && !run.authoritative
    ensures run.discrepancies.Keys ==
      if changed in {"events", "projection", "filesystem", "git"} then {changed}
      else if changed == "event" then {"events"}
      else {}
  {
    hide Reconcile, Invariant, FileOk, FileProvenance, NewRun, RowBehind;
    ReconcileCommits(g, db, w, s, c, changed);
    StatusOf(db, s, [changed]);
    NamedIsListed(changed, run.discrepancies.Keys);
  }

  lemma NamedIsListed(changed: string, names: set<string>)
    requires ListedSoFar(names, [changed], 4)
    ensures names ==
      if changed in {"events", "projection", "filesystem", "git"} then {changed}
      else if changed == "event" then {"events"}
      else {}
  {
    assert SURFACES[0] == "events" && SURFACES[1] == "projection";
    assert SURFACES[2] == "filesystem" && SURFACES[3] == "git";
  }

  /** What a reconciliation reports of the checks, or of the surface that its caller names. */
  ghost predicate Reports(g: Digests, w: World, s: Scope, c: Checks, changed: string, run: Reconciled) {
    && run.authoritative == (run.mismatches == []) && run.status == (if run.authoritative then "clean" else "blocked")
    && if changed != "" then run.mismatches == [changed]
       else
         && ("events" in run.mismatches <==> !c.events) && ("projection" in run.mismatches <==> !c.projection)
         && ("filesystem" in run.mismatches <==> !FileIntact(g, w, s)) && ("git" in run.mismatches <==> !c.git)
         && (forall k :: k in run.mismatches ==> k in {"events", "projection", "filesystem", "git"})
         && run.discrepancies.Keys == set k | k in run.mismatches
  }

  lemma ReconcileReports(g: Digests, db: Db, w: World, s: Scope, c: Checks, changed: string)
    requires Invariant(db)
    ensures var done := Reconcile(g, db, w, s, c, changed);
      done.Some? && Reports(g, w, s, c, changed, done.value.1)
  {
    hide Reconcile, Invariant, FileOk, FileProvenance, FileIntact, NewRun, RowBehind, Mismatches;
    ReconcileCommits(g, db, w, s, c, changed);
    var (after, run) := Reconcile(g, db, w, s, c, changed).value;
    if changed == "" {
      CleanExactly(g, db, w, s, c, after, run);
    } else {
      NamedSurfaceBlocks(g, db, w, s, c, changed, after, run);
    }
    assert run.authoritative == (run.mismatches == []);
  }

  /** Behind every surface that is reported stands a row of the new run: the file's says where the
    file was seen, the others name their surface. One run is added, under the
    scope's next number; nothing else changes. */
  lemma EverySurfaceIsReported(
      g: Digests, db: Db, w: World, s: Scope, c: Checks, changed: string, after: Db, run: Reconciled)
    requires Invariant(db) && Reconcile(g, db, w, s, c, changed) == Some((after, run))
    ensures forall k :: k in run.discrepancies ==>
      IsReported(after, run, k, if k == "filesystem" then SeenAt(g, w, s) else k)
    ensures run.scope == s.id && run.lineage == "native"
    ensures |after.runs| == |db.runs| + 1 && db.runs <= after.runs
    ensures var r := after.runs[|db.runs|];
      && r.id == run.run && r.scope == s.id && r.status == run.status && r.lineage == "native"
      && (forall q :: q in db.runs && q.scope == s.id ==> q.sequence < r.sequence)
      && (r.sequence == 0 || exists q :: q in db.runs && q.scope == s.id && q.sequence == r.sequence - 1)
    ensures after.actions == db.actions && after.outcomes == db.outcomes && db.discrepancies <= after.discrepancies
  {
    hide Reconcile, Invariant, FileOk, FileProvenance, RowBehind, ListedSoFar, Mismatches, NextId;
    ReconcileCommits(g, db, w, s, c, changed);
    IntactExactly(g, w, s);
    var r := NewRun(db, s, Mismatches(FileOk(g, w, s), c, changed));
    forall k | k in run.discrepancies
      ensures IsReported(after, run, k, if k == "filesystem" then SeenAt(g, w, s) else k)
    {
      RowReports(after, r, run, k, SeenAt(g, w, s));
    }
  }

  lemma RowReports(after: Db, r: Run, run: Reconciled, k: string, seen: string)
    requires k in run.discrepancies && RowBehind(after, r, seen, k, run.discrepancies[k])
    requires run.run == r.id && run.scope == r.scope
    ensures IsReported(after, run, k, if k == "filesystem" then seen else k)
  {
    var d :| d in after.discrepancies && IsRowBehind(d, r, seen, k, run.discrepancies[k]);
    assert IsReportedBy(d, run, k, if k == "filesystem" then seen else k);
  }
}
