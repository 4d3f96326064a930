/** Which rows the guards of the ledger let in, by the tables that result and by
  the results that may stand beside each other. */
module LedgerGuards {
  import opened Options
  import opened Ledger

  // Runs, discrepancies and actions

  ghost predicate RunsAreKeyed(rs: seq<Run>) {
    forall i, j :: 0 <= i < j < |rs| ==>
      rs[i].id != rs[j].id && (rs[i].scope, rs[i].sequence) != (rs[j].scope, rs[j].sequence)
  }

  ghost predicate HasRun(db: Db, id: int) { exists r :: r in db.runs && r.id == id }

  /** A run is let in exactly if identifiers and the numbers in its scope stay unique. */
  lemma RunAcceptedExactly(db: Db, r: Run)
    requires RunsAreKeyed(db.runs)
    ensures InsertRun(db, r).Some? <==> RunsAreKeyed(db.runs + [r])
    ensures InsertRun(db, r).Some? ==> InsertRun(db, r).value == db.(runs := db.runs + [r])
  {
    var more := db.runs + [r];
    if RunsAreKeyed(more) {
      forall q | q in db.runs ensures q.id != r.id && (q.scope, q.sequence) != (r.scope, r.sequence) {
        var i :| 0 <= i < |db.runs| && db.runs[i] == q;
        assert more[i] == q && more[|db.runs|] == r;
      }
    }
    if AcceptsRun(db, r) {
      forall i, j | 0 <= i < j < |more|
        ensures more[i].id != more[j].id && (more[i].scope, more[i].sequence) != (more[j].scope, more[j].sequence)
      {
        assert more[i] in db.runs;
      }
    }
  }

  /** A discrepancy is let in exactly if it is about a run that is there, and the
    chains of corrections stay chains: each discrepancy corrects an earlier one
    of its run, scope and lineage or none, and none is corrected twice. */
  lemma DiscrepancyAcceptedExactly(db: Db, d: Discrepancy)
    requires Chained(db.discrepancies)
    ensures InsertDiscrepancy(db, d).Some? <==>
      && HasRun(db, d.run) && Chained(db.discrepancies + [d])
      && d.correctsRun == if d.correctsId.Some? then Some(d.run) else None
    ensures InsertDiscrepancy(db, d).Some? ==>
      InsertDiscrepancy(db, d).value == db.(discrepancies := db.discrepancies + [d])
  {
    var ds := db.discrepancies;
    var more := ds + [d];
    if AcceptsDiscrepancy(db, d) { AcceptedChains(db, d); }
    if Chained(more) && HasRun(db, d.run) && d.correctsRun == (if d.correctsId.Some? then Some(d.run) else None) {
      ChainedAccepts(ds, d);
    }
  }

  lemma AcceptedChains(db: Db, d: Discrepancy)
    requires Chained(db.discrepancies) && AcceptsDiscrepancy(db, d)
    ensures Chained(db.discrepancies + [d])
  {
    var ds := db.discrepancies;
    var more := ds + [d];
    forall i | 0 <= i < |more| && more[i].correctsId.Some? ensures CorrectsEarlier(more, i) {
      if i < |ds| {
        assert CorrectsEarlier(ds, i);
        var j: nat :| j < i && IsCorrected(ds[j], ds[i]);
        assert IsCorrected(more[j], more[i]);
      } else {
        var e :| e in ds && IsCorrected(e, d);
        var j: nat :| j < |ds| && ds[j] == e;
        assert IsCorrected(more[j], more[i]);
      }
    }
    forall i | 0 <= i < |ds| ensures ds[i] in ds {}
  }

  lemma ChainedAccepts(ds: seq<Discrepancy>, d: Discrepancy)
    requires Chained(ds + [d])
    ensures forall e :: e in ds ==> e.id != d.id
    ensures d.correctsId.Some? ==>
      && (exists e :: e in ds && IsCorrected(e, d))
      && !(exists e :: e in ds && e.correctsId == d.correctsId)
  {
    var more := ds + [d];
    forall e | e in ds ensures e.id != d.id && (d.correctsId.Some? ==> e.correctsId != d.correctsId) {
      var i :| 0 <= i < |ds| && ds[i] == e;
      assert more[i] == e && more[|ds|] == d;
    }
    if d.correctsId.Some? {
      assert CorrectsEarlier(more, |ds|);
      var j: nat :| j < |ds| && IsCorrected(more[j], more[|ds|]);
      assert ds[j] in ds;
    }
  }

  /** An action is let in exactly if it is about a run and a discrepancy that are
    there, and identifiers, operations and fingerprints stay unique. */
  lemma ActionAcceptedExactly(db: Db, a: Action)
    requires ActionsOk(db)
    ensures InsertAction(db, a).Some? <==> HasRun(db, a.run) && ActionsOk(db.(actions := db.actions + [a]))
    ensures InsertAction(db, a).Some? ==> InsertAction(db, a).value == db.(actions := db.actions + [a])
  {
    var more := db.actions + [a];
    if ActionsOk(db.(actions := more)) {
      assert a in more && HasDiscrepancy(db.discrepancies, a);
      forall b | b in db.actions
        ensures b.id != a.id && b.operation != a.operation && b.fingerprint != a.fingerprint
      {
        var i :| 0 <= i < |db.actions| && db.actions[i] == b;
        assert more[i] == b && more[|db.actions|] == a;
      }
    }
    if AcceptsAction(db, a) {
      assert HasDiscrepancy(db.discrepancies, a);
      forall i, j | 0 <= i < j < |more|
        ensures more[i].id != more[j].id && more[i].operation != more[j].operation
                && more[i].fingerprint != more[j].fingerprint
      {
        assert more[i] in db.actions;
      }
    }
  }

  // Outcomes

  /** What a row of the action must carry whatever its number. */
  ghost predicate Belongs(db: Db, a: Action, o: Outcome) {
    && o.run == a.run && o.scope == a.scope && o.lineage == a.lineage
    && (forall p :: p in db.outcomes ==> p.id != o.id) && o.observation >= 0 && o.status == o.result
  }

  /** The first row of an action is let in exactly as an effect, with what the effect
    must know of the target: both states if it was applied, the old and no new
    one if nothing was started, the new one if it is not known what happened. */
  lemma FirstAcceptedExactly(db: Db, a: Action, o: Outcome)
    requires Invariant(db) && a in db.actions && a.id == o.action && History(db.outcomes, a.id) == []
    ensures InsertOutcome(db, o).Some? <==>
      && o.sequence == 1 && Belongs(db, a, o) && o.stage == EffectObserved
      && o.supersedes.None? && o.supersedesAction.None?
      && match o.result
         case EffectApplied => o.pre.Some? && o.post.Some?
         case EffectNotStarted => o.pre.Some? && o.post.None?
         case EffectUnknown => o.post.Some?
         case _ => false
  {
    hide Invariant, AcceptsOutcome, History;
    AcceptedExactly(db, a, o);
  }

  /** The results that may conclude an effect. */
  const CONCLUSIONS := {
    (EffectApplied, Applied), (EffectNotStarted, Result.Blocked), (EffectNotStarted, Same), (EffectUnknown, Unknown)}

  /** The second row is let in exactly as the conclusion of the first, which it supersedes. */
  lemma SecondAcceptedExactly(db: Db, a: Action, effect: Outcome, o: Outcome)
    requires Invariant(db) && a in db.actions && a.id == o.action && History(db.outcomes, a.id) == [effect]
    ensures InsertOutcome(db, o).Some? <==>
      && o.sequence == 2 && Belongs(db, a, o) && o.stage == Terminal
      && o.supersedes == Some(effect.id) && o.supersedesAction == Some(a.id)
      && (effect.result, o.result) in CONCLUSIONS
  {
    hide Invariant, AcceptsOutcome, History, HistoryOk;
    AcceptedExactly(db, a, o);
    EffectIsEffect(db, a, effect);
  }

  lemma EffectIsEffect(db: Db, a: Action, effect: Outcome)
    requires Invariant(db) && a in db.actions && History(db.outcomes, a.id) == [effect]
    ensures effect.result in {EffectApplied, EffectNotStarted, EffectUnknown}
  {
    hide Chained, ActionsOk, OutcomesOk, History;
    assert HistoryOk(db, a, History(db.outcomes, a.id));
  }

  /** The discrepancy of the run, scope and lineage of the action that corrects another one. */
  ghost predicate IsCorrection(db: Db, a: Action, id: int, corrected: int) {
    exists d :: d in db.discrepancies && d.id == id && d.correctsId == Some(corrected) && d.run == a.run
                && d.scope == a.scope && d.lineage == a.lineage
  }

  /** Each later row is let in exactly as a correction that supersedes the row before
    it, and rests on a discrepancy that corrects what that row rested on: the
    action's own discrepancy for the first correction. */
  lemma CorrectionAcceptedExactly(db: Db, a: Action, o: Outcome)
    requires Invariant(db) && a in db.actions && a.id == o.action && |History(db.outcomes, a.id)| >= 2
    ensures var h := History(db.outcomes, a.id);
      InsertOutcome(db, o).Some? <==>
        && o.sequence == |h| + 1 && Belongs(db, a, o) && o.stage == Correction
        && o.result in {Applied, Result.Blocked, Unknown, Same} && o.kind == ReconciliationDiscrepancy
        && o.supersedes == Some(h[|h| - 1].id) && o.supersedesAction == Some(a.id)
        && IsCorrection(db, a, o.provenance, if |h| == 2 then a.discrepancy else h[|h| - 1].provenance)
  {
    hide Invariant, AcceptsOutcome, History, Corrects, IsCorrection;
    AcceptedExactly(db, a, o);
    var h := History(db.outcomes, a.id);
    CorrectionIs(db, a, o.provenance, CitedBefore(a, h, |h|));
  }

  lemma CorrectionIs(db: Db, a: Action, id: int, corrected: int)
    ensures Corrects(db.discrepancies, a, id, corrected) <==> IsCorrection(db, a, id, corrected)
  {
    if d :| d in db.discrepancies && d.id == id && d.correctsId == Some(corrected) && d.run == a.run
            && d.scope == a.scope && d.lineage == a.lineage
    {
      assert CorrectsFor(d, a, id, corrected);
    }
  }
}
