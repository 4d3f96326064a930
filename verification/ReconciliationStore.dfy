/** The store whose method runs one reconciliation. */
module ReconciliationStore {
  import opened Options
  import opened Ledger
  import opened Recovery
  import opened Reconciliation
  import opened ReconciliationResults

  class Reconciler {
    const digests: Digests
    var db: Db

    constructor (digests: Digests, db: Db)
      ensures this.digests == digests && this.db == db
    {
      this.digests := digests;
      this.db := db;
    }

    method Compare(fileOk: bool, c: Checks, changed: string) returns (bad: seq<string>)
      ensures bad == Mismatches(fileOk, c, changed)
    {
      if changed != "" {
        return [changed];
      }
      bad := [];
      if !c.events { bad := bad + ["events"]; }
      if !c.projection { bad := bad + ["projection"]; }
      if !fileOk { bad := bad + ["filesystem"]; }
      if !c.git { bad := bad + ["git"]; }
    }

    /** `reconcile_owned_with_change` after the scope's version is found: one
      transaction, which an abort takes back. */
    method ReconcileOwned(w: World, s: Scope, c: Checks, changed: string) returns (r: Option<Reconciled>)
      modifies this`db
      ensures var done := Reconcile(digests, old(db), w, s, c, changed);
        if done.Some? then db == done.value.0 && r == Some(done.value.1) else db == old(db) && r == None
      ensures Invariant(old(db)) ==> r.Some? && Reports(digests, w, s, c, changed, r.value)
    {
      hide InsertDiscrepancy, NewDiscrepancy, InsertRun, NewRun, Listed, FileProvenance, Mismatches, Invariant, Reports;
      if Invariant(db) { ReconcileReports(digests, db, w, s, c, changed); }
      var before := db;
      var seen := ObserveAs(digests, w, s);
      var fileOk := seen.Some? && seen.value.1 == s.hash;
      var bad := Compare(fileOk, c, changed);
      var run := NewRun(db, s, bad);
      var begun := InsertRun(db, run);
      if begun.None? {
        return None;
      }
      db := begun.value;
      var ids: map<string, int> := map[];
      var provenance := FileProvenance(digests, w, s);
      for i := 0 to 4
        invariant AddRows(begun.value, map[], run, provenance, bad, 0) == AddRows(db, ids, run, provenance, bad, i)
      {
        var surface := SURFACES[i];
        if Listed(bad, surface) {
          var d := NewDiscrepancy(db, run, surface, provenance);
          var next := InsertDiscrepancy(db, d);
          if next.None? {
            db := before;
            return None;
          }
          db := next.value;
          ids := ids[surface := d.id];
        }
      }
      r := Some(Reconciled(bad == [], run.status, bad, ids, run.id, s.id, "native"));
    }
  }
}
