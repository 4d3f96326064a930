/** The recovery ledger: four append-only tables whose inserts are guarded by
  triggers and constraints. An insert that a guard aborts leaves the tables as
  they were. Updates and deletes are always aborted, so inserts are the only
  steps. */
module Ledger {
  import opened Options

  // Rows. Columns that a CHECK fixes to a constant are left out.

  datatype Run = Run(id: int, scope: string, sequence: int, status: string, lineage: string)

  datatype Discrepancy = Discrepancy(
    id: int, run: int, scope: string, lineage: string,
    correctsId: Option<int>, correctsRun: Option<int>,
    kind: string, provenance: string, observation: int, surface: string)

  datatype Action = Action(
    id: int, operation: string, run: int, discrepancy: int, scope: string, fingerprint: string, target: string,
    preHash: Option<string>, preIdentity: Option<string>, postHash: Option<string>, postIdentity: Option<string>,
    authorization: string, authorizationScope: string, lineage: string)

  datatype Stage = EffectObserved | Terminal | Correction | OtherStage(text: string)

  datatype Result =
    | EffectApplied | EffectNotStarted | EffectUnknown
    | Applied | Blocked | Unknown | Same
    | OtherResult(text: string)

  datatype Provenance = RecoveryAction | ReconciliationDiscrepancy | OtherProvenance(text: string)

  datatype Outcome = Outcome(
    id: int, action: int, run: int, scope: string, sequence: int, status: Result, lineage: string,
    stage: Stage, result: Result, pre: Option<string>, post: Option<string>,
    kind: Provenance, provenance: int, observation: int,
    supersedes: Option<int>, supersedesAction: Option<int>)

  datatype Db = Db(runs: seq<Run>, discrepancies: seq<Discrepancy>, actions: seq<Action>, outcomes: seq<Outcome>)

  const EMPTY := Db([], [], [], [])

  // Guards

  predicate AcceptsRun(db: Db, r: Run) {
    forall q :: q in db.runs ==> q.id != r.id && (q.scope, q.sequence) != (r.scope, r.sequence)
  }

  predicate AcceptsDiscrepancy(db: Db, d: Discrepancy) {
    && (forall e :: e in db.discrepancies ==> e.id != d.id)
    && (exists r :: r in db.runs && r.id == d.run)
    && d.correctsId.None? == d.correctsRun.None?
    && (d.correctsId.Some? ==>
          && d.correctsId.value != d.id
          && d.correctsRun.value == d.run
          && (exists e :: e in db.discrepancies && e.id == d.correctsId.value && e.run == d.correctsRun.value
                          && e.scope == d.scope && e.lineage == d.lineage)
          && !(exists e :: e in db.discrepancies && e.correctsId == d.correctsId))
  }

  predicate AcceptsAction(db: Db, a: Action) {
    && (forall b :: b in db.actions ==>
          b.id != a.id && b.operation != a.operation && b.fingerprint != a.fingerprint)
    && (exists r :: r in db.runs && r.id == a.run)
    && (exists d :: d in db.discrepancies && d.id == a.discrepancy && d.run == a.run
                    && d.scope == a.scope && d.lineage == a.lineage)
  }

  predicate IsEffect(r: Result) { r == EffectApplied || r == EffectNotStarted || r == EffectUnknown }

  predicate IsTerminal(r: Result) { r == Applied || r == Blocked || r == Unknown || r == Same }

  /** The states an effect must have recorded. */
  predicate Observed(r: Result, pre: Option<string>, post: Option<string>) {
    && (r == EffectApplied ==> pre.Some? && post.Some?)
    && (r == EffectNotStarted ==> pre.Some? && post.None?)
    && (r == EffectUnknown ==> post.Some?)
  }

  /** Which terminal results may follow which effect. */
  predicate Concludes(effect: Result, terminal: Result) {
    && (terminal == Applied ==> effect == EffectApplied)
    && (terminal == Blocked || terminal == Same ==> effect == EffectNotStarted)
    && (terminal == Unknown ==> effect == EffectUnknown)
  }

  predicate IsPredecessor(p: Outcome, o: Outcome) {
    o.supersedes == Some(p.id) && o.supersedesAction == Some(p.action) && p.action == o.action
  }

  /** The provenance of the outcome numbered one less. */
  predicate CitesAfter(db: Db, o: Outcome, parent: int) {
    exists p :: p in db.outcomes && p.action == o.action && p.sequence == o.sequence - 1 && p.provenance == parent
  }

  /** `d` may stand behind the correction `o` of the action `a`. */
  predicate Cites(db: Db, o: Outcome, d: Discrepancy, a: Action) {
    && a.id == o.action
    && d.id == o.provenance && d.run == o.run && d.scope == o.scope && d.lineage == o.lineage
    && d.correctsId.Some?
    && if o.sequence == 3 then d.correctsId.value == a.discrepancy else CitesAfter(db, o, d.correctsId.value)
  }

  predicate AcceptsOutcome(db: Db, o: Outcome) {
    // constraints
    && o.sequence >= 1 && o.observation >= 0 && o.status == o.result
    && o.supersedes.None? == o.supersedesAction.None?
    && (forall p :: p in db.outcomes ==> p.id != o.id && (p.action, p.sequence) != (o.action, o.sequence))
    // triggers
    && (exists a :: a in db.actions && a.id == o.action && a.run == o.run && a.scope == o.scope
                    && a.lineage == o.lineage)
    && (o.sequence == 1 ==>
          o.stage == EffectObserved && IsEffect(o.result) && o.supersedes.None? && Observed(o.result, o.pre, o.post))
    && (o.sequence == 2 ==>
          && o.stage == Terminal && IsTerminal(o.result)
          && (exists p :: p in db.outcomes && IsPredecessor(p, o) && p.sequence == 1 && p.stage == EffectObserved)
          && (forall p :: p in db.outcomes && IsPredecessor(p, o) ==> Concludes(p.result, o.result)))
    && (o.sequence > 2 ==>
          && o.stage == Correction && IsTerminal(o.result) && o.kind == ReconciliationDiscrepancy
          && (exists p :: p in db.outcomes && IsPredecessor(p, o) && p.sequence == o.sequence - 1)
          && (exists d, a :: d in db.discrepancies && a in db.actions && Cites(db, o, d, a)))
    && (o.sequence > 1 ==> exists p :: p in db.outcomes && p.action == o.action && p.sequence == o.sequence - 1)
  }

  // Inserts

  function InsertRun(db: Db, r: Run): Option<Db> {
    if AcceptsRun(db, r) then Some(db.(runs := db.runs + [r])) else None
  }

  function InsertDiscrepancy(db: Db, d: Discrepancy): Option<Db> {
    if AcceptsDiscrepancy(db, d) then Some(db.(discrepancies := db.discrepancies + [d])) else None
  }

  function InsertAction(db: Db, a: Action): Option<Db> {
    if AcceptsAction(db, a) then Some(db.(actions := db.actions + [a])) else None
  }

  function InsertOutcome(db: Db, o: Outcome): Option<Db> {
    if AcceptsOutcome(db, o) then Some(db.(outcomes := db.outcomes + [o])) else None
  }

  datatype Row = RunRow(r: Run) | DiscrepancyRow(d: Discrepancy) | ActionRow(a: Action) | OutcomeRow(o: Outcome)

  function Insert(db: Db, row: Row): Option<Db> {
    match row
    case RunRow(r) => InsertRun(db, r)
    case DiscrepancyRow(d) => InsertDiscrepancy(db, d)
    case ActionRow(a) => InsertAction(db, a)
    case OutcomeRow(o) => InsertOutcome(db, o)
  }

  /** The tables after attempting to insert the rows in turn; aborted inserts change nothing. */
  function InsertAll(db: Db, rows: seq<Row>): Db
    decreases |rows|
  {
    if rows == [] then db
    else
      var next := Insert(db, rows[0]);
      InsertAll(if next.Some? then next.value else db, rows[1..])
  }

  // The outcomes of one action, oldest first

  function History(os: seq<Outcome>, action: int): (h: seq<Outcome>)
    ensures forall o :: o in h <==> o in os && o.action == action
  {
    if os == [] then []
    else
      var last := os[|os| - 1];
      assert os == os[..|os| - 1] + [last];
      History(os[..|os| - 1], action) + if last.action == action then [last] else []
  }

  lemma HistoryGrows(os: seq<Outcome>, o: Outcome, action: int)
    ensures History(os + [o], action) == History(os, action) + if o.action == action then [o] else []
  {
    assert (os + [o])[..|os|] == os;
  }

  // The invariant

  /** Discrepancies are identified by their ids; each corrects an earlier one of
    the same run, scope and lineage, and no two correct the same one. */
  ghost predicate Chained(ds: seq<Discrepancy>) {
    && (forall i, j :: 0 <= i < j < |ds| ==> ds[i].id != ds[j].id)
    && (forall i :: 0 <= i < |ds| && ds[i].correctsId.Some? ==> CorrectsEarlier(ds, i))
    && (forall i, j :: 0 <= i < j < |ds| && ds[i].correctsId.Some? ==> ds[i].correctsId != ds[j].correctsId)
  }

  ghost predicate CorrectsEarlier(ds: seq<Discrepancy>, i: nat)
    requires i < |ds|
  {
    exists j: nat :: j < i && IsCorrected(ds[j], ds[i])
  }

  predicate IsCorrected(e: Discrepancy, d: Discrepancy) {
    d.correctsId == Some(e.id) && d.run == e.run && d.scope == e.scope && d.lineage == e.lineage
  }

  ghost predicate ActionsOk(db: Db) {
    && (forall i, j :: 0 <= i < j < |db.actions| ==>
          && db.actions[i].id != db.actions[j].id
          && db.actions[i].operation != db.actions[j].operation
          && db.actions[i].fingerprint != db.actions[j].fingerprint)
    && (forall a :: a in db.actions ==> HasDiscrepancy(db.discrepancies, a))
  }

  ghost predicate HasDiscrepancy(ds: seq<Discrepancy>, a: Action) {
    exists d :: d in ds && d.id == a.discrepancy && d.run == a.run && d.scope == a.scope && d.lineage == a.lineage
  }

  /** The history of an action: numbered from one without a gap, each outcome
    superseding the one before it; the first is an observed effect, the second
    concludes it; each later one cites a discrepancy that corrects the one
    behind its predecessor. */
  ghost predicate HistoryOk(db: Db, a: Action, h: seq<Outcome>) {
    && Numbered(a, h)
    && Opened(h)
    && (forall i :: 2 <= i < |h| ==> CorrectionOk(db, a, h, i))
  }

  ghost predicate Numbered(a: Action, h: seq<Outcome>) {
    && (forall i :: 0 <= i < |h| ==>
          h[i].sequence == i + 1 && h[i].run == a.run && h[i].scope == a.scope && h[i].lineage == a.lineage)
    && (forall i :: 1 <= i < |h| ==> h[i].supersedes == Some(h[i - 1].id))
  }

  ghost predicate Opened(h: seq<Outcome>) {
    && (|h| > 0 ==>
          && h[0].stage == EffectObserved && h[0].supersedes.None?
          && IsEffect(h[0].result) && Observed(h[0].result, h[0].pre, h[0].post))
    && (|h| > 1 ==> h[1].stage == Terminal && IsTerminal(h[1].result) && Concludes(h[0].result, h[1].result))
  }

  ghost predicate CorrectionOk(db: Db, a: Action, h: seq<Outcome>, i: nat)
    requires 2 <= i < |h|
  {
    && h[i].stage == Correction && IsTerminal(h[i].result) && h[i].kind == ReconciliationDiscrepancy
    && Corrects(db.discrepancies, a, h[i].provenance, CitedBefore(a, h, i))
  }

  /** The discrepancy behind outcome number `i`: the action's own, then the ones cited. */
  function CitedBefore(a: Action, h: seq<Outcome>, i: nat): int
    requires 2 <= i <= |h|
  {
    if i == 2 then a.discrepancy else h[i - 1].provenance
  }

  /** A discrepancy of the action's run, scope and lineage that corrects `parent`. */
  ghost predicate Corrects(ds: seq<Discrepancy>, a: Action, id: int, parent: int) {
    exists d :: d in ds && CorrectsFor(d, a, id, parent)
  }

  predicate CorrectsFor(d: Discrepancy, a: Action, id: int, parent: int) {
    d.id == id && d.correctsId == Some(parent) && d.run == a.run && d.scope == a.scope && d.lineage == a.lineage
  }

  ghost predicate OutcomesOk(db: Db) {
    && (forall i, j :: 0 <= i < j < |db.outcomes| ==> db.outcomes[i].id != db.outcomes[j].id)
    && (forall o :: o in db.outcomes ==> HasAction(db, o.action))
  }

  ghost predicate HasAction(db: Db, id: int) { exists a :: a in db.actions && a.id == id }

  ghost predicate HistoriesOk(db: Db) {
    forall a :: a in db.actions ==> HistoryOk(db, a, History(db.outcomes, a.id))
  }

  ghost predicate Invariant(db: Db) {
    Chained(db.discrepancies) && ActionsOk(db) && OutcomesOk(db) && HistoriesOk(db)
  }

  lemma InsertKeepsInvariant(db: Db, row: Row)
    requires Invariant(db) && Insert(db, row).Some?
    ensures Invariant(Insert(db, row).value)
  {
    match row
    case RunRow(_) => CorrectionsCarryOver(db, Insert(db, row).value);
    case DiscrepancyRow(d) =>
      ChainGrows(db, d);
      CorrectionsCarryOver(db, Insert(db, row).value);
    case ActionRow(a) => ActionJoins(db, a);
    case OutcomeRow(o) => OutcomeJoins(db, o);
  }

  lemma CorrectsInMore(ds: seq<Discrepancy>, ds': seq<Discrepancy>, a: Action, id: int, parent: int)
    requires ds <= ds' && Corrects(ds, a, id, parent)
    ensures Corrects(ds', a, id, parent)
  {
    var d :| d in ds && CorrectsFor(d, a, id, parent);
    assert d in ds';
  }

  lemma HistoryCarriesOver(db: Db, db': Db, a: Action, h: seq<Outcome>)
    requires HistoryOk(db, a, h) && db.discrepancies <= db'.discrepancies
    ensures HistoryOk(db', a, h)
  {
    forall i | 2 <= i < |h| ensures CorrectionOk(db', a, h, i) {
      assert CorrectionOk(db, a, h, i);
      CorrectsInMore(db.discrepancies, db'.discrepancies, a, h[i].provenance, CitedBefore(a, h, i));
    }
  }

  lemma CorrectionsCarryOver(db: Db, db': Db)
    requires OutcomesOk(db) && HistoriesOk(db) && db'.outcomes == db.outcomes && db'.actions == db.actions
    requires db.discrepancies <= db'.discrepancies
    ensures OutcomesOk(db') && HistoriesOk(db')
  {
    hide HistoryOk;
    forall o | o in db'.outcomes ensures HasAction(db', o.action) { assert HasAction(db, o.action); }
    forall a | a in db'.actions ensures HistoryOk(db', a, History(db'.outcomes, a.id)) {
      HistoryCarriesOver(db, db', a, History(db.outcomes, a.id));
    }
  }

  lemma ChainGrows(db: Db, d: Discrepancy)
    requires Invariant(db) && AcceptsDiscrepancy(db, d)
    ensures Chained(db.discrepancies + [d]) && ActionsOk(db.(discrepancies := db.discrepancies + [d]))
  {
    hide OutcomesOk, HistoriesOk;
    var ds := db.discrepancies;
    var ds' := ds + [d];
    forall i | 0 <= i < |ds'| && ds'[i].correctsId.Some? ensures CorrectsEarlier(ds', i) {
      if i < |ds| {
        assert CorrectsEarlier(ds, i);
        var j: nat :| j < i && IsCorrected(ds[j], ds[i]);
        assert IsCorrected(ds'[j], ds'[i]);
      } else {
        var e :| e in ds && IsCorrected(e, d);
        var j: nat :| j < |ds| && ds[j] == e;
        assert IsCorrected(ds'[j], ds'[i]);
      }
    }
    forall i | 0 <= i < |ds| ensures ds[i] in ds {}
    forall a | a in db.actions ensures HasDiscrepancy(ds', a) {
      assert HasDiscrepancy(ds, a);
      var e :| e in ds && e.id == a.discrepancy && e.run == a.run && e.scope == a.scope && e.lineage == a.lineage;
      assert e in ds';
    }
  }

  lemma ActionKeepsOutcomes(db: Db, a: Action)
    requires OutcomesOk(db)
    ensures OutcomesOk(db.(actions := db.actions + [a]))
  {
    var db' := db.(actions := db.actions + [a]);
    forall o | o in db.outcomes ensures HasAction(db', o.action) {
      assert HasAction(db, o.action);
      var b :| b in db.actions && b.id == o.action;
      assert b in db'.actions;
    }
  }

  lemma ActionKeepsHistories(db: Db, a: Action)
    requires HistoriesOk(db) && OutcomesOk(db) && AcceptsAction(db, a)
    ensures HistoriesOk(db.(actions := db.actions + [a]))
  {
    hide HistoryOk;
    hide AcceptsAction, OutcomesOk, History;
    var db' := db.(actions := db.actions + [a]);
    NewActionHasNoHistory(db, a);
    forall b | b in db'.actions ensures HistoryOk(db', b, History(db'.outcomes, b.id)) {
      if b in db.actions {
        HistoryCarriesOver(db, db', b, History(db.outcomes, b.id));
      } else {
        EmptyHistory(db', b);
      }
    }
  }

  lemma ActionJoins(db: Db, a: Action)
    requires Invariant(db) && AcceptsAction(db, a)
    ensures Invariant(db.(actions := db.actions + [a]))
  {
    hide HistoriesOk, OutcomesOk;
    ActionKeepsOutcomes(db, a);
    ActionKeepsHistories(db, a);
    forall i | 0 <= i < |db.actions| ensures db.actions[i] in db.actions {}
    assert HasDiscrepancy(db.discrepancies, a);
  }

  lemma EmptyHistory(db: Db, a: Action)
    ensures HistoryOk(db, a, [])
  {
  }

  lemma NewActionHasNoHistory(db: Db, a: Action)
    requires OutcomesOk(db) && AcceptsAction(db, a)
    ensures History(db.outcomes, a.id) == []
  {
    var h := History(db.outcomes, a.id);
    assert |h| > 0 ==> h[0] in h;
    assert forall o :: o in h ==> HasAction(db, o.action);
  }

  /** A new action joins the ledger under an id of its own, without any outcome. */
  lemma ActionStartsEmpty(db: Db, a: Action)
    requires Invariant(db) && AcceptsAction(db, a)
    ensures Invariant(db.(actions := db.actions + [a])) && History(db.outcomes, a.id) == []
    ensures a !in db.actions && forall b :: b in db.actions ==> b.id != a.id
  {
    hide HistoriesOk, OutcomesOk, History, Chained;
    NewActionHasNoHistory(db, a);
    InsertKeepsInvariant(db, ActionRow(a));
  }

  lemma OutcomeJoins(db: Db, o: Outcome)
    requires Invariant(db) && AcceptsOutcome(db, o)
    ensures Invariant(db.(outcomes := db.outcomes + [o]))
  {
    hide HistoryOk, Chained, History;
    OutcomeIsNew(db, o);
    var db' := db.(outcomes := db.outcomes + [o]);
    forall a | a in db'.actions ensures HistoryOk(db', a, History(db'.outcomes, a.id)) {
      hide AcceptsOutcome;
      HistoryGrows(db.outcomes, o, a.id);
      var h := History(db.outcomes, a.id);
      assert h + [] == h;
      if a.id == o.action {
        AcceptedContinues(db, a, o);
        ContinuedHistory(db, a, h, o);
        HistoryCarriesOver(db, db', a, h + [o]);
      } else {
        HistoryCarriesOver(db, db', a, h);
      }
    }
  }

  lemma OutcomeIsNew(db: Db, o: Outcome)
    requires OutcomesOk(db) && AcceptsOutcome(db, o)
    ensures OutcomesOk(db.(outcomes := db.outcomes + [o]))
  {
    var db' := db.(outcomes := db.outcomes + [o]);
    assert HasAction(db, o.action) && forall p :: p in db.outcomes ==> p.id != o.id;
    hide AcceptsOutcome;
    forall i | 0 <= i < |db.outcomes| ensures db.outcomes[i] in db.outcomes {}
    forall p | p in db'.outcomes ensures HasAction(db', p.action) {
      assert HasAction(db, p.action);
    }
  }

  lemma ActionById(db: Db, a: Action, b: Action)
    requires ActionsOk(db) && a in db.actions && b in db.actions && a.id == b.id
    ensures a == b
  {
    var i :| 0 <= i < |db.actions| && db.actions[i] == a;
    var j :| 0 <= j < |db.actions| && db.actions[j] == b;
  }

  lemma SoleBearer(db: Db, a: Action, p: Outcome)
    requires HistoriesOk(db) && a in db.actions && p in db.outcomes && p.action == a.id
    ensures var h := History(db.outcomes, a.id); 1 <= p.sequence <= |h| && h[p.sequence - 1] == p
  {
    var h := History(db.outcomes, a.id);
    assert p in h && HistoryOk(db, a, h);
    var i :| 0 <= i < |h| && h[i] == p;
  }

  lemma NumberIsBorne(a: Action, h: seq<Outcome>, n: int)
    requires Numbered(a, h)
    ensures 1 <= n <= |h| ==> exists q :: q in h && q.sequence == n
  {
    if 1 <= n <= |h| { assert h[n - 1] in h; }
  }

  lemma NumberedNext(db: Db, a: Action, o: Outcome)
    requires HistoriesOk(db) && AcceptsOutcome(db, o) && a in db.actions && a.id == o.action
    ensures o.sequence == |History(db.outcomes, a.id)| + 1
  {
    hide Opened, CorrectionOk, Cites, IsPredecessor;
    var h := History(db.outcomes, a.id);
    if o.sequence > 1 {
      var p :| p in db.outcomes && p.action == o.action && p.sequence == o.sequence - 1;
      SoleBearer(db, a, p);
    }
    assert HistoryOk(db, a, h);
    NumberIsBorne(a, h, o.sequence);
  }

  /** What an outcome after the first supersedes is the last of its history. */
  lemma SupersedesLast(db: Db, a: Action, o: Outcome) returns (p: Outcome)
    requires HistoriesOk(db) && AcceptsOutcome(db, o) && a in db.actions && a.id == o.action && o.sequence > 1
    ensures var h := History(db.outcomes, a.id);
      h != [] && p == h[|h| - 1] && p in db.outcomes && IsPredecessor(p, o)
  {
    NumberedNext(db, a, o);
    if o.sequence == 2 {
      p :| p in db.outcomes && IsPredecessor(p, o) && p.sequence == 1 && p.stage == EffectObserved;
    } else {
      p :| p in db.outcomes && IsPredecessor(p, o) && p.sequence == o.sequence - 1;
    }
    SoleBearer(db, a, p);
  }

  /** What a correction cites corrects what its predecessor stands on. */
  lemma CitesNext(db: Db, a: Action, o: Outcome)
    requires ActionsOk(db) && HistoriesOk(db) && AcceptsOutcome(db, o) && a in db.actions && a.id == o.action
      && o.sequence > 2
    ensures var h := History(db.outcomes, a.id);
      |h| >= 2 && Corrects(db.discrepancies, a, o.provenance, CitedBefore(a, h, |h|))
  {
    hide HistoriesOk, History, ActionsOk, Observed, Concludes;
    NumberedNext(db, a, o);
    var b :| b in db.actions && b.id == o.action && b.run == o.run && b.scope == o.scope && b.lineage == o.lineage;
    ActionById(db, a, b);
    var d, c :| d in db.discrepancies && c in db.actions && Cites(db, o, d, c);
    ActionById(db, a, c);
    if o.sequence > 3 {
      var q :| q in db.outcomes && q.action == o.action && q.sequence == o.sequence - 1
        && q.provenance == d.correctsId.value;
      SoleBearer(db, a, q);
    }
    assert CorrectsFor(d, a, o.provenance, d.correctsId.value);
  }

  /** `o` continues the history `h`. */
  ghost predicate Continues(db: Db, a: Action, h: seq<Outcome>, o: Outcome) {
    && o.sequence == |h| + 1 && o.run == a.run && o.scope == a.scope && o.lineage == a.lineage
    && (|h| == 0 ==>
          o.stage == EffectObserved && o.supersedes.None? && IsEffect(o.result) && Observed(o.result, o.pre, o.post))
    && (|h| > 0 ==> o.supersedes == Some(h[|h| - 1].id))
    && (|h| == 1 ==> o.stage == Terminal && IsTerminal(o.result) && Concludes(h[0].result, o.result))
    && (|h| > 1 ==>
          && o.stage == Correction && IsTerminal(o.result) && o.kind == ReconciliationDiscrepancy
          && Corrects(db.discrepancies, a, o.provenance, CitedBefore(a, h, |h|)))
  }

  lemma ContinuedHistory(db: Db, a: Action, h: seq<Outcome>, o: Outcome)
    requires HistoryOk(db, a, h) && Continues(db, a, h, o)
    ensures HistoryOk(db, a, h + [o])
  {
    forall i | 2 <= i < |h| + 1 ensures CorrectionOk(db, a, h + [o], i) {
      if i < |h| { assert CorrectionOk(db, a, h, i); }
    }
  }

  /** The heart of the matter: an accepted outcome continues its action's history. */
  lemma AcceptedContinues(db: Db, a: Action, o: Outcome)
    requires Invariant(db) && AcceptsOutcome(db, o) && a in db.actions && a.id == o.action
    ensures Continues(db, a, History(db.outcomes, a.id), o)
    ensures o.supersedesAction == if o.supersedes.Some? then Some(a.id) else None
  {
    hide HistoryOk, Chained, OutcomesOk, History, Corrects;
    NumberedNext(db, a, o);
    var b :| b in db.actions && b.id == o.action && b.run == o.run && b.scope == o.scope && b.lineage == o.lineage;
    ActionById(db, a, b);
    if o.sequence > 1 { var p := SupersedesLast(db, a, o); }
    if o.sequence > 2 { CitesNext(db, a, o); }
  }

  /** Every state that inserts can reach satisfies the invariant. */
  lemma {:induction false} EveryRunKeepsInvariant(db: Db, rows: seq<Row>)
    requires Invariant(db)
    ensures Invariant(InsertAll(db, rows))
    decreases |rows|
  {
    if rows != [] {
      if Insert(db, rows[0]).Some? { InsertKeepsInvariant(db, rows[0]); }
      var next := Insert(db, rows[0]);
      EveryRunKeepsInvariant(if next.Some? then next.value else db, rows[1..]);
    }
  }

  /** In every reachable state every action has a well-formed history. */
  lemma ReachableHistories(rows: seq<Row>, a: Action)
    requires a in InsertAll(EMPTY, rows).actions
    ensures HistoryOk(InsertAll(EMPTY, rows), a, History(InsertAll(EMPTY, rows).outcomes, a.id))
  {
    EveryRunKeepsInvariant(EMPTY, rows);
  }

  /** In a reachable state the guards let in exactly the outcomes that continue
    the history of their action, under a new id. */
  lemma AcceptedExactly(db: Db, a: Action, o: Outcome)
    requires Invariant(db) && a in db.actions && a.id == o.action
    ensures AcceptsOutcome(db, o) <==>
      && Continues(db, a, History(db.outcomes, a.id), o)
      && (forall p :: p in db.outcomes ==> p.id != o.id)
      && o.observation >= 0 && o.status == o.result
      && o.supersedesAction == if o.supersedes.Some? then Some(a.id) else None
  {
    var h := History(db.outcomes, a.id);
    if AcceptsOutcome(db, o) {
      AcceptedContinues(db, a, o);
    } else if Continues(db, a, h, o) && (forall p :: p in db.outcomes ==> p.id != o.id)
              && o.observation >= 0 && o.status == o.result
              && o.supersedesAction == (if o.supersedes.Some? then Some(a.id) else None) {
      ContinuesAccepted(db, a, o);
    }
  }

  lemma ContinuesAccepted(db: Db, a: Action, o: Outcome)
    requires Invariant(db) && a in db.actions && a.id == o.action
    requires Continues(db, a, History(db.outcomes, a.id), o) && forall p :: p in db.outcomes ==> p.id != o.id
    requires o.observation >= 0 && o.status == o.result
    requires o.supersedesAction == if o.supersedes.Some? then Some(a.id) else None
    ensures AcceptsOutcome(db, o)
  {
    hide Chained, ActionsOk, Cites, Corrects, History;
    var h := History(db.outcomes, a.id);
    assert HistoryOk(db, a, h);
    forall p | p in db.outcomes ensures (p.action, p.sequence) != (o.action, o.sequence) {
      if p.action == a.id { SoleBearer(db, a, p); }
    }
    if h != [] {
      var last := h[|h| - 1];
      assert last in h;
      assert last in db.outcomes && IsPredecessor(last, o) && last.sequence == o.sequence - 1;
      forall p | p in db.outcomes && IsPredecessor(p, o) ensures p == last { OutcomeById(db, p, last); }
      if |h| >= 2 { var d := ContinuationCites(db, a, o); }
    }
  }

  lemma ContinuationCites(db: Db, a: Action, o: Outcome) returns (d: Discrepancy)
    requires HistoryOk(db, a, History(db.outcomes, a.id)) && a.id == o.action
    requires Continues(db, a, History(db.outcomes, a.id), o) && |History(db.outcomes, a.id)| >= 2
    ensures d in db.discrepancies && Cites(db, o, d, a)
  {
    var h := History(db.outcomes, a.id);
    var last := h[|h| - 1];
    assert last in h && last in db.outcomes && last.sequence == o.sequence - 1;
    d :| d in db.discrepancies && CorrectsFor(d, a, o.provenance, CitedBefore(a, h, |h|));
    assert |h| > 2 ==> CitesAfter(db, o, last.provenance);
  }

  lemma OutcomeById(db: Db, p: Outcome, q: Outcome)
    requires OutcomesOk(db) && p in db.outcomes && q in db.outcomes && p.id == q.id
    ensures p == q
  {
    var i :| 0 <= i < |db.outcomes| && db.outcomes[i] == p;
    var j :| 0 <= j < |db.outcomes| && db.outcomes[j] == q;
  }

  // Chains of corrections

  /** What the discrepancy `id` corrects. */
  function Parent(ds: seq<Discrepancy>, id: int): Option<int> {
    if ds == [] then None
    else if ds[|ds| - 1].id == id then ds[|ds| - 1].correctsId
    else Parent(ds[..|ds| - 1], id)
  }

  /** The discrepancy reached from `id` by `k` steps to what is corrected. */
  function Climb(ds: seq<Discrepancy>, id: int, k: nat): Option<int>
    decreases k
  {
    if k == 0 then Some(id)
    else
      var parent := Parent(ds, id);
      if parent.None? then None else Climb(ds, parent.value, k - 1)
  }

  lemma {:induction false} ParentOf(ds: seq<Discrepancy>, i: nat)
    requires Chained(ds) && i < |ds|
    ensures Parent(ds, ds[i].id) == ds[i].correctsId
    decreases |ds|
  {
    if i < |ds| - 1 {
      ChainShortens(ds);
      ParentOf(ds[..|ds| - 1], i);
    }
  }

  lemma ChainShortens(ds: seq<Discrepancy>)
    requires Chained(ds) && ds != []
    ensures Chained(ds[..|ds| - 1])
  {
    var ds' := ds[..|ds| - 1];
    forall i | 0 <= i < |ds'| && ds'[i].correctsId.Some? ensures CorrectsEarlier(ds', i) {
      assert CorrectsEarlier(ds, i);
      var j: nat :| j < i && IsCorrected(ds[j], ds[i]);
      assert IsCorrected(ds'[j], ds'[i]);
    }
  }

  lemma {:induction false} ParentMember(ds: seq<Discrepancy>, id: int) returns (i: nat)
    requires Parent(ds, id).Some?
    ensures i < |ds| && ds[i].id == id && ds[i].correctsId == Parent(ds, id)
  {
    i := |ds| - 1;
    if ds[i].id != id { i := ParentMember(ds[..i], id); }
  }

  /** Chains are acyclic: from the i-th discrepancy at most `i` steps are possible. */
  lemma {:induction false} ChainsEnd(ds: seq<Discrepancy>, i: nat, k: nat)
    requires Chained(ds) && i < |ds| && i < k
    ensures Climb(ds, ds[i].id, k).None?
    decreases i
  {
    ParentOf(ds, i);
    if ds[i].correctsId.Some? {
      assert CorrectsEarlier(ds, i);
      var j: nat :| j < i && IsCorrected(ds[j], ds[i]);
      ChainsEnd(ds, j, k - 1);
    }
  }

  /** No discrepancy is reached again by climbing from it. */
  lemma NoCycles(ds: seq<Discrepancy>, id: int, k: nat)
    requires Chained(ds) && k > 0
    ensures Climb(ds, id, k) != Some(id)
  {
    if Climb(ds, id, k) == Some(id) {
      var i := ParentMember(ds, id);
      ClimbRepeats(ds, id, k, i + 1);
      ClimbShorter(ds, id, k * (i + 1), i + 1);
      ChainsEnd(ds, i, i + 1);
    }
  }

  lemma {:induction false} ClimbAdds(ds: seq<Discrepancy>, id: int, j: nat, k: nat)
    requires Climb(ds, id, j).Some?
    ensures Climb(ds, id, j + k) == Climb(ds, Climb(ds, id, j).value, k)
    decreases j
  {
    if j > 0 { ClimbAdds(ds, Parent(ds, id).value, j - 1, k); }
  }

  lemma {:induction false} ClimbRepeats(ds: seq<Discrepancy>, id: int, k: nat, n: nat)
    requires Climb(ds, id, k) == Some(id)
    ensures Climb(ds, id, k * n) == Some(id)
    decreases n
  {
    if n > 0 {
      ClimbRepeats(ds, id, k, n - 1);
      ClimbAdds(ds, id, k, k * (n - 1));
      assert k + k * (n - 1) == k * n;
    }
  }

  lemma {:induction false} ClimbShorter(ds: seq<Discrepancy>, id: int, j: nat, k: nat)
    requires Climb(ds, id, j).Some? && k <= j
    ensures Climb(ds, id, k).Some?
    decreases k
  {
    if k > 0 { ClimbShorter(ds, Parent(ds, id).value, j - 1, k - 1); }
  }

  /** Chains do not branch: two ways up to the same discrepancy in as many steps
    start from the same one. */
  lemma {:induction false} NoBranches(ds: seq<Discrepancy>, x: int, y: int, k: nat)
    requires Chained(ds) && Climb(ds, x, k).Some? && Climb(ds, x, k) == Climb(ds, y, k)
    ensures x == y
    decreases k
  {
    if k > 0 {
      NoBranches(ds, Parent(ds, x).value, Parent(ds, y).value, k - 1);
      var i := ParentMember(ds, x);
      var j := ParentMember(ds, y);
    }
  }

  /** Correction number `i` of an action stands exactly `i - 1` corrections away
    from the discrepancy that the action is about. */
  lemma {:induction false} CorrectionsClimb(db: Db, a: Action, h: seq<Outcome>, i: nat)
    requires Chained(db.discrepancies) && HistoryOk(db, a, h) && 2 <= i < |h|
    ensures Climb(db.discrepancies, h[i].provenance, i - 1) == Some(a.discrepancy)
    decreases i
  {
    var ds := db.discrepancies;
    assert CorrectionOk(db, a, h, i);
    var d :| d in ds && CorrectsFor(d, a, h[i].provenance, CitedBefore(a, h, i));
    var j :| 0 <= j < |ds| && ds[j] == d;
    ParentOf(ds, j);
    if i > 2 { CorrectionsClimb(db, a, h, i - 1); }
  }

  /** Two actions about the same discrepancy are corrected on the same grounds. */
  lemma SameGrounds(rows: seq<Row>, a: Action, b: Action, i: nat)
    requires var db := InsertAll(EMPTY, rows);
      && a in db.actions && b in db.actions && a.discrepancy == b.discrepancy
      && 2 <= i < |History(db.outcomes, a.id)| && i < |History(db.outcomes, b.id)|
    ensures var db := InsertAll(EMPTY, rows);
      History(db.outcomes, a.id)[i].provenance == History(db.outcomes, b.id)[i].provenance
  {
    var db := InsertAll(EMPTY, rows);
    EveryRunKeepsInvariant(EMPTY, rows);
    var g, h := History(db.outcomes, a.id), History(db.outcomes, b.id);
    CorrectionsClimb(db, a, g, i);
    CorrectionsClimb(db, b, h, i);
    NoBranches(db.discrepancies, g[i].provenance, h[i].provenance, i - 1);
  }

  // Nothing is ever taken back

  ghost predicate Extends(db: Db, db': Db) {
    && db.runs <= db'.runs && db.discrepancies <= db'.discrepancies
    && db.actions <= db'.actions && db.outcomes <= db'.outcomes
  }

  lemma {:induction false} TablesOnlyGrow(db: Db, rows: seq<Row>)
    ensures Extends(db, InsertAll(db, rows))
    decreases |rows|
  {
    if rows != [] {
      var next := Insert(db, rows[0]);
      TablesOnlyGrow(if next.Some? then next.value else db, rows[1..]);
    }
  }
}
