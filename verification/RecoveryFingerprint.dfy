/** The fingerprint of a recovery together with the octets it digests: which
  requests a ledger that only stores fingerprints takes for repetitions. */
module RecoveryFingerprint {
  import opened Options
  import opened Bytes
  import opened Ledger
  import opened Recovery
  import Encoding

  function AsEncoded(b: Binding): Encoding.Recovery {
    Encoding.Recovery(b.scope, b.lineage, b.kind, b.provenance, b.observation, b.target, b.preHash, b.preIdentity,
      Some(b.postHash), Some(b.target), b.authorization, b.authorizationScope)
  }

  function Octets(b: Binding): seq<byte> { Encoding.RecoveryBytes(AsEncoded(b)) }

  /** `recovery_fingerprint`, for some digest of octets. */
  ghost predicate FingerprintsBy(g: Digests, digest: seq<byte> -> string) {
    forall b :: g.fingerprint(b) == digest(Octets(b))
  }

  ghost predicate Sized(b: Binding) { Encoding.AllSized(Encoding.RecoveryFields(AsEncoded(b))) }

  ghost predicate NoCollision(digest: seq<byte> -> string, b: Binding, c: Binding) {
    digest(Octets(b)) == digest(Octets(c)) ==> Octets(b) == Octets(c)
  }

  lemma FingerprintsTell(g: Digests, digest: seq<byte> -> string, b: Binding, c: Binding)
    requires FingerprintsBy(g, digest) && Sized(b) && Sized(c) && NoCollision(digest, b, c)
    ensures g.fingerprint(b) == g.fingerprint(c) <==> b == c
  {
    hide Encoding.RecoveryBytes, Encoding.RecoveryFields, Encoding.AllSized;
    if g.fingerprint(b) == g.fingerprint(c) { Encoding.RecoveryInjective(AsEncoded(b), AsEncoded(c)); }
  }

  // What has been committed

  /** The step commits a call: its action joins the ledger. */
  predicate Commits(g: Digests, s: State, step: Step) {
    step.Commit? && step.call in s.calls && Take(g, s, step).db.actions != s.db.actions
  }

  function CommittedBy(g: Digests, s: State, step: Step): seq<Binding> {
    if Commits(g, s, step) then [s.calls[step.call].binding] else []
  }

  /** What the calls that a run commits were bound to, in order. */
  function Committed(g: Digests, s: State, steps: seq<Step>): seq<Binding>
    decreases |steps|
  {
    if steps == [] then [] else CommittedBy(g, s, steps[0]) + Committed(g, Take(g, s, steps[0]), steps[1..])
  }

  /** The bindings behind the actions of the ledger. */
  ghost predicate Logged(g: Digests, db: Db, log: seq<Binding>) {
    |log| == |db.actions| && forall i :: 0 <= i < |log| ==> db.actions[i].fingerprint == g.fingerprint(log[i])
  }

  lemma StepLogs(g: Digests, s: State, step: Step, log: seq<Binding>)
    requires StateOk(g, s) && Logged(g, s.db, log)
    ensures Logged(g, Take(g, s, step).db, log + CommittedBy(g, s, step))
  {
    hide StateOk, Invariant, Completed, Bind, Conclude, InsertAction, NewAction, Observe, History;
    if Commits(g, s, step) {
      CommitAdds(g, s, step.call);
      NewFingerprint(g, s, step.call);
    }
  }

  lemma NewFingerprint(g: Digests, s: State, call: nat)
    requires StateOk(g, s) && call in s.calls
    ensures var c := s.calls[call];
      "filesystem" in c.run.discrepancies
      && NewAction(g, s.db, c.run, c.request, c.binding).fingerprint == g.fingerprint(c.binding)
  {
    ReplayedActionExists(g, s, call);
  }

  lemma {:induction false} RunLogs(g: Digests, s: State, steps: seq<Step>, log: seq<Binding>)
    requires StateOk(g, s) && AllLegal(g, s, steps) && Logged(g, s.db, log)
    ensures Logged(g, TakeAll(g, s, steps).db, log + Committed(g, s, steps))
    decreases |steps|
  {
    hide StateOk, Take, Legal, CommittedBy, Logged;
    if steps == [] {
      assert log + [] == log;
    } else {
      var t, more := Take(g, s, steps[0]), CommittedBy(g, s, steps[0]);
      StepKeeps(g, s, steps[0]);
      StepLogs(g, s, steps[0], log);
      RunLogs(g, t, steps[1..], log + more);
      assert log + more + Committed(g, t, steps[1..]) == log + (more + Committed(g, t, steps[1..]));
    }
  }

  ghost predicate Distinct(log: seq<Binding>) { forall i, j :: 0 <= i < j < |log| ==> log[i] != log[j] }

  lemma LogIsDistinct(g: Digests, db: Db, log: seq<Binding>)
    requires Invariant(db) && Logged(g, db, log)
    ensures Distinct(log)
  {
    hide Chained, OutcomesOk, HistoriesOk;
    forall i, j | 0 <= i < j < |log| ensures log[i] != log[j] {
      assert db.actions[i].fingerprint != db.actions[j].fingerprint;
    }
  }

  /** In any interleaving of calls, crashes and edits, each bound request is
    committed at most once. */
  lemma CommittedOnce(g: Digests, s: State, steps: seq<Step>, log: seq<Binding>)
    requires StateOk(g, s) && AllLegal(g, s, steps) && Logged(g, s.db, log)
    ensures var all := log + Committed(g, s, steps); Logged(g, TakeAll(g, s, steps).db, all) && Distinct(all)
  {
    hide StateOk, TakeAll, Committed, Logged, Distinct, AllLegal;
    RunLogs(g, s, steps, log);
    RunKeeps(g, s, steps);
    LedgerOf(g, TakeAll(g, s, steps));
    LogIsDistinct(g, TakeAll(g, s, steps).db, log + Committed(g, s, steps));
  }

  lemma LedgerOf(g: Digests, s: State)
    requires StateOk(g, s)
    ensures Invariant(s.db)
  {
  }

  /** The run and the discrepancy that an action is about are in the ledger. */
  predicate HasGrounds(db: Db, a: Action) {
    && (exists r :: r in db.runs && r.id == a.run)
    && (exists d :: d in db.discrepancies && d.id == a.discrepancy && d.run == a.run && d.scope == a.scope
                    && d.lineage == a.lineage)
  }

  /** If the digest tells the octets at hand apart, a call gets past its first insert
    exactly when its operation is new, its grounds are there, and nothing bound
    like it has been committed: no other request is taken for a repetition. */
  lemma BeginsExactly(g: Digests, digest: seq<byte> -> string, s: State, call: nat, log: seq<Binding>)
    requires StateOk(g, s) && Logged(g, s.db, log) && s.writer.None? && call in s.calls && s.calls[call].phase.Waiting?
    requires FingerprintsBy(g, digest) && Sized(s.calls[call].binding)
    requires forall b :: b in log ==> Sized(b) && NoCollision(digest, b, s.calls[call].binding)
    ensures var c := s.calls[call];
      && "filesystem" in c.run.discrepancies
      && (call in Take(g, s, Begin(call)).calls <==>
            && (forall a :: a in s.db.actions ==> a.operation != c.request.operation)
            && HasGrounds(s.db, NewAction(g, s.db, c.run, c.request, c.binding))
            && c.binding !in log)
  {
    hide StateOk, Logged, FingerprintsBy, Sized, NoCollision, NewAction, HasGrounds, AcceptsAction, Take;
    var c := s.calls[call];
    NewFingerprint(g, s, call);
    LogTells(g, digest, s.db, log, c.binding);
    GroundsAreAccepted(g, s.db, c.run, c.request, c.binding);
    BeginGoesOn(g, s, call);
  }

  lemma BeginGoesOn(g: Digests, s: State, call: nat)
    requires s.writer.None? && call in s.calls && s.calls[call].phase.Waiting?
    requires "filesystem" in s.calls[call].run.discrepancies
    ensures var c := s.calls[call];
      call in Take(g, s, Begin(call)).calls <==> AcceptsAction(s.db, NewAction(g, s.db, c.run, c.request, c.binding))
  {
    hide AcceptsAction, NewAction;
  }

  lemma LogTells(g: Digests, digest: seq<byte> -> string, db: Db, log: seq<Binding>, b: Binding)
    requires Logged(g, db, log) && FingerprintsBy(g, digest) && Sized(b)
    requires forall c :: c in log ==> Sized(c) && NoCollision(digest, c, b)
    ensures b !in log <==> forall a :: a in db.actions ==> a.fingerprint != g.fingerprint(b)
  {
    hide FingerprintsBy, Sized, NoCollision;
    forall i | 0 <= i < |log| ensures db.actions[i].fingerprint == g.fingerprint(b) <==> log[i] == b {
      assert log[i] in log;
      FingerprintsTell(g, digest, log[i], b);
    }
    if b in log {
      var i :| 0 <= i < |log| && log[i] == b;
      assert db.actions[i] in db.actions;
    }
  }

  lemma IdIsNew(g: Digests, db: Db, run: Reconciled, q: Request, b: Binding)
    requires "filesystem" in run.discrepancies
    ensures forall a :: a in db.actions ==> a.id != NewAction(g, db, run, q, b).id
  {
    hide NextId;
    forall a | a in db.actions ensures a.id < NextId(ActionIds(db.actions)) {
      var i :| 0 <= i < |db.actions| && db.actions[i] == a;
      assert ActionIds(db.actions)[i] == a.id;
      assert a.id in ActionIds(db.actions);
    }
  }

  lemma GroundsAreAccepted(g: Digests, db: Db, run: Reconciled, q: Request, b: Binding)
    requires "filesystem" in run.discrepancies
    ensures var a := NewAction(g, db, run, q, b);
      AcceptsAction(db, a) <==>
        && (forall c :: c in db.actions ==> c.operation != q.operation)
        && (forall c :: c in db.actions ==> c.fingerprint != a.fingerprint)
        && HasGrounds(db, a)
  {
    hide NextId;
    IdIsNew(g, db, run, q, b);
  }
}
