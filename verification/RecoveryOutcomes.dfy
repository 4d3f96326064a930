/** What one recovery does from beginning to end: when it commits, what it records
  and answers, and what it leaves in the files, stated of the request, the
  ledger and the files alone. */
module RecoveryOutcomes {
  import opened Options
  import opened Bytes
  import opened Ledger
  import opened Recovery
  import opened RecoveryCalls
  import RecoveryFingerprint

  // When a call commits

  /** All checkpoints but these two come after the file was written. */
  predicate ReachesFile(c: Checkpoint) { c != AfterPrepare && c != OutcomeCommitUnknown }

  /** Something readable stands under the name. */
  predicate Readable(w: World, path: string) {
    path in w.names && path !in w.unreadable && w.names[path] in w.contents
  }

  /** The ledger holds the discrepancy that the run names, in the run's scope and lineage. */
  predicate HasGrounds(db: Db, run: Reconciled) {
    && "filesystem" in run.discrepancies && (exists r :: r in db.runs && r.id == run.run)
    && exists d :: d in db.discrepancies && d.id == run.discrepancies["filesystem"] && d.run == run.run
                   && d.scope == run.scope && d.lineage == run.lineage
  }

  /** The call gets past the insert of its action: it is bound, about a discrepancy of
    the ledger, and nothing with its fingerprint has been committed. */
  predicate Begins(g: Digests, db: Db, w: World, run: Reconciled, q: Request) {
    var b := Bind(g, db, w, run, q);
    b.Some? && HasGrounds(db, run) && forall a :: a in db.actions ==> a.fingerprint != g.fingerprint(b.value)
  }

  /** Nothing goes wrong around the file, and all of the replacement gets there. */
  predicate Undisturbed(q: Request, f: Faults) {
    !f.open && !f.write && !f.check && q.replacement.Some? && |q.replacement.value| <= f.reached
  }

  /** The call that may begin comes to its commit. */
  predicate Commits(g: Digests, db: Db, w: World, run: Reconciled, q: Request, c: Checkpoint, f: Faults) {
    && Begins(g, db, w, run, q) && Bind(g, db, w, run, q).value.observation >= 0
    && (ReachesFile(c) ==> q.path.Some? && q.path.value !in w.names && Undisturbed(q, f))
  }

  // What it leaves in the files

  /** A new file under the name, as much of it as was written. */
  function WithFile(w: World, path: string, written: seq<byte>): World {
    w.(names := w.names[path := w.next], contents := w.contents[w.next := written],
       unreadable := w.unreadable - {path}, next := w.next + 1)
  }

  function Reached(all: seq<byte>, reached: nat): seq<byte> { if reached < |all| then all[..reached] else all }

  lemma FileEffectExactly(g: Digests, w: World, path: string, all: seq<byte>, f: Faults)
    ensures var (w', ok) := FileEffect(g, w, path, all, g.content(all), f);
      && w' == (if f.open || path in w.names then w else WithFile(w, path, Reached(all, f.reached)))
      && (ok <==> path !in w.names && !f.open && !f.write && !f.check && |all| <= f.reached)
  {
    assert all[..|all|] == all;
  }

  lemma BeginsExactly(g: Digests, db: Db, w: World, run: Reconciled, q: Request)
    requires FindOperation(db.actions, q.operation).None?
    ensures Begins(g, db, w, run, q) <==>
      var b := Bind(g, db, w, run, q);
      b.Some? && AcceptsAction(db, NewAction(g, db, run, q, b.value))
  {
    hide Bind, NewAction, AcceptsAction, RecoveryFingerprint.HasGrounds;
    var b := Bind(g, db, w, run, q);
    if b.Some? {
      RecoveryFingerprint.GroundsAreAccepted(g, db, run, q, b.value);
      ActionColumns(g, db, w, run, q);
    }
  }

  /** The action of a bound request, column by column. */
  predicate IsAction(g: Digests, w: World, run: Reconciled, q: Request, b: Binding, a: Action) {
    && "filesystem" in run.discrepancies && q.path.Some? && q.replacement.Some? && q.path.value in w.targets
    && a.operation == q.operation && a.run == run.run && a.discrepancy == run.discrepancies["filesystem"]
    && a.scope == run.scope && a.lineage == run.lineage && a.fingerprint == g.fingerprint(b)
    && a.target == w.targets[q.path.value] && a.postIdentity == Some(w.targets[q.path.value])
    && a.postHash == Some(g.content(q.replacement.value))
    && a.authorization == q.authorization && a.authorizationScope == q.authorizationScope
    && (if Readable(w, q.path.value)
        then a.preHash == Some(g.content(w.contents[w.names[q.path.value]]))
             && a.preIdentity == Some(g.identity(w.names[q.path.value]))
        else a.preHash.None? && a.preIdentity.None?)
  }

  lemma ActionColumns(g: Digests, db: Db, w: World, run: Reconciled, q: Request)
    requires Bind(g, db, w, run, q).Some?
    ensures var b := Bind(g, db, w, run, q).value;
      var a := NewAction(g, db, run, q, b);
      && IsAction(g, w, run, q, b, a)
      && (RecoveryFingerprint.HasGrounds(db, a) <==> HasGrounds(db, run))
  {
    hide FindDiscrepancy, NextId;
  }

  /** The discrepancy that a run names, as the ledger must hold it. */
  predicate IsGround(db: Db, run: Reconciled, d: Discrepancy) {
    && "filesystem" in run.discrepancies && d in db.discrepancies && d.id == run.discrepancies["filesystem"]
    && d.run == run.run && d.surface == "filesystem" && d.kind == "filesystem"
    && exists r :: r in db.runs && r.id == run.run && r.scope == run.scope && r.lineage == run.lineage
                   && r.status == run.status
  }

  /** A run may be repaired if it is blocked by the file alone. */
  predicate IsFileBlocked(run: Reconciled) {
    && !run.authoritative && run.status == "blocked" && run.mismatches == ["filesystem"]
    && run.discrepancies.Keys == {"filesystem"}
  }

  /** A request may be bound for a safe target with a name, a replacement and both authorizations. */
  predicate IsComplete(w: World, q: Request) {
    && q.path.Some? && q.path.value in w.safe && q.path.value in w.targets && q.replacement.Some?
    && q.authorization != "" && q.authorizationScope != ""
  }

  /** What a repair is bound to: the discrepancy, the target, and what is there now and shall be there. */
  predicate IsBinding(g: Digests, w: World, run: Reconciled, q: Request, d: Discrepancy, b: Binding)
    requires IsComplete(w, q)
  {
    && b.scope == run.scope && b.lineage == run.lineage && b.kind == "filesystem" && b.provenance == d.provenance
    && b.observation == d.observation && b.target == w.targets[q.path.value]
    && b.postHash == g.content(q.replacement.value) && b.authorization == q.authorization
    && b.authorizationScope == q.authorizationScope
    && (if Readable(w, q.path.value)
        then b.preHash == Some(g.content(w.contents[w.names[q.path.value]]))
             && b.preIdentity == Some(g.identity(w.names[q.path.value]))
        else b.preHash.None? && b.preIdentity.None?)
  }

  lemma {:induction false} GroundIsFound(db: Db, run: Reconciled, ds: seq<Discrepancy>)
    requires "filesystem" in run.discrepancies && forall d :: d in ds ==> d in db.discrepancies
    ensures FindDiscrepancy(db, run, run.discrepancies["filesystem"], ds).Some? <==>
      exists d :: d in ds && IsGround(db, run, d)
    ensures var found := FindDiscrepancy(db, run, run.discrepancies["filesystem"], ds);
      found.Some? ==> found.value in ds && IsGround(db, run, found.value)
  {
    if ds != [] {
      GroundIsFound(db, run, ds[1..]);
      assert ds == [ds[0]] + ds[1..];
      var id := run.discrepancies["filesystem"];
      assert (exists r :: r in db.runs && Persisted(db, run, id, r, ds[0])) <==> IsGround(db, run, ds[0]);
    }
  }

  /** A request may be bound to a run exactly when the run is blocked by the file alone, the
    ledger holds its discrepancy as claimed, and the request is complete and for
    the target that the discrepancy is about. */
  lemma BindsExactly(g: Digests, db: Db, w: World, run: Reconciled, q: Request)
    requires Invariant(db)
    ensures Bind(g, db, w, run, q).Some? <==>
      && IsFileBlocked(run) && IsComplete(w, q)
      && exists d :: IsGround(db, run, d) && d.provenance == w.targets[q.path.value]
    ensures Bind(g, db, w, run, q).Some? ==>
      exists d :: IsGround(db, run, d) && IsBinding(g, w, run, q, d, Bind(g, db, w, run, q).value)
  {
    hide Invariant, FindDiscrepancy, IsGround;
    if "filesystem" in run.discrepancies {
      GroundIsFound(db, run, db.discrepancies);
      forall d, e | IsGround(db, run, d) && IsGround(db, run, e) ensures d == e { OneGround(db, run, d, e); }
      forall d | IsGround(db, run, d) ensures d in db.discrepancies { OneGround(db, run, d, d); }
    } else {
      forall d ensures !IsGround(db, run, d) { NoGround(db, run, d); }
    }
  }

  lemma OneGround(db: Db, run: Reconciled, d: Discrepancy, e: Discrepancy)
    requires Invariant(db) && IsGround(db, run, d) && IsGround(db, run, e)
    ensures d == e && d in db.discrepancies
  {
  }

  lemma NoGround(db: Db, run: Reconciled, d: Discrepancy)
    requires "filesystem" !in run.discrepancies
    ensures !IsGround(db, run, d)
  {
  }

  // What it records

  /** The results and the state of the target behind each checkpoint: a call that
    wrote its file says so, one that stopped before says that nothing happened,
    and one that lost sight of it says that it does not know. */
  predicate TellsTruth(c: Checkpoint, a: Action, effect: Outcome, terminal: Outcome) {
    match c
    case AfterPrepare =>
      effect.result == EffectNotStarted && terminal.result == Result.Blocked && effect.post == terminal.post == None
    case OutcomeCommitUnknown =>
      effect.result == EffectUnknown && terminal.result == Unknown && effect.post == terminal.post == Some("unknown")
    case _ =>
      effect.result == EffectApplied && terminal.result == Applied && effect.post == terminal.post == a.postHash
  }

  /** A row of the action, numbered, with what stood under the name before. */
  predicate IsRow(a: Action, observation: int, o: Outcome, sequence: int) {
    && o.action == a.id && o.run == a.run && o.scope == a.scope && o.lineage == a.lineage
    && o.sequence == sequence && o.status == o.result && o.kind == RecoveryAction && o.provenance == a.id
    && o.observation == observation && o.pre == (if a.preHash.Some? then a.preHash else Some("missing"))
  }

  /** The two rows of a committed call. */
  predicate AreRows(c: Checkpoint, a: Action, observation: int, h: seq<Outcome>) {
    && |h| == 2 && IsRow(a, observation, h[0], 1) && IsRow(a, observation, h[1], 2)
    && h[0].stage == EffectObserved && h[0].supersedes.None?
    && h[1].stage == Terminal && h[1].supersedes == Some(h[0].id)
    && TellsTruth(c, a, h[0], h[1])
  }

  /** The ledger with one committed call more. */
  ghost predicate Recorded(
      g: Digests, db: Db, w: World, run: Reconciled, q: Request, c: Checkpoint, b: Binding, db': Db)
  {
    && db'.runs == db.runs && db'.discrepancies == db.discrepancies && |db'.actions| == |db.actions| + 1
    && db.actions <= db'.actions && db.outcomes <= db'.outcomes
    && var a := db'.actions[|db.actions|];
       && IsAction(g, w, run, q, b, a)
       && History(db'.outcomes, a.id) == db'.outcomes[|db.outcomes|..]
       && AreRows(c, a, b.observation, History(db'.outcomes, a.id))
  }

  lemma RowsTell(tx: Db, a: Action, c: Checkpoint, b: Binding)
    requires a.postHash == Some(b.postHash) && a.preHash == b.preHash
    ensures var effect := EffectRow(tx, a, c, b);
      forall db :: AreRows(c, a, b.observation, [effect, TerminalRow(db, a, c, b, effect)])
  {
    hide NextId;
  }

  lemma Concluded(g: Digests, db: Db, w: World, run: Reconciled, q: Request, c: Checkpoint)
    requires Invariant(db) && Bind(g, db, w, run, q).Some?
    requires "filesystem" in run.discrepancies
    requires AcceptsAction(db, NewAction(g, db, run, q, Bind(g, db, w, run, q).value))
    ensures var b := Bind(g, db, w, run, q).value;
      var a := NewAction(g, db, run, q, b);
      var tx := db.(actions := db.actions + [a]);
      && (Conclude(tx, a, c, b).Some? <==> b.observation >= 0)
      && (Conclude(tx, a, c, b).Some? ==> Recorded(g, db, w, run, q, c, b, Conclude(tx, a, c, b).value))
  {
    hide Invariant, AcceptsAction, Conclude, Bind, NewAction, History, AreRows, IsAction;
    var b := Bind(g, db, w, run, q).value;
    var a := NewAction(g, db, run, q, b);
    var tx := db.(actions := db.actions + [a]);
    ActionStartsEmpty(db, a);
    ActionColumns(g, db, w, run, q);
    TwoMoreRows(tx, a, c, b);
    ActionHashes(g, db, run, q, b);
    RowsTell(tx, a, c, b);
    if b.observation >= 0 {
      var db' := Conclude(tx, a, c, b).value;
      assert db'.outcomes[|db.outcomes|..] == History(db'.outcomes, a.id);
      assert db'.actions[|db.actions|] == a;
    }
  }

  lemma ActionHashes(g: Digests, db: Db, run: Reconciled, q: Request, b: Binding)
    requires "filesystem" in run.discrepancies
    ensures var a := NewAction(g, db, run, q, b); a.postHash == Some(b.postHash) && a.preHash == b.preHash
  {
  }

  // From the first step to the last

  /** The files after the call. */
  function FilesAfter(g: Digests, db: Db, w: World, run: Reconciled, q: Request, c: Checkpoint, f: Faults): World {
    if Begins(g, db, w, run, q) && ReachesFile(c) && !f.open && q.path.Some? && q.replacement.Some?
       && q.path.value !in w.names
    then WithFile(w, q.path.value, Reached(q.replacement.value, f.reached))
    else w
  }

  /** A call that is alone, from its first step to its last. */
  lemma CallEnds(g: Digests, db: Db, w: World, run: Reconciled, q: Request, c: Checkpoint, f: Faults)
    requires Invariant(db) && FindOperation(db.actions, q.operation).None?
    ensures var t := TakeAll(g, Idle(db, w), CallSteps(run, q, c, f));
      && t.world == FilesAfter(g, db, w, run, q, c, f)
      && if Commits(g, db, w, run, q, c, f)
         then Recorded(g, db, w, run, q, c, Bind(g, db, w, run, q).value, t.db)
         else t.db == db
  {
    hide Take, Bind, AcceptsAction, NewAction, TakeAll, Invariant, Recorded, Begins, Commits, FilesAfter, FinalSteps;
    FirstSteps(g, db, w, run, q, c, f);
    NothingWithoutBegin(g, db, w, run, q, c, f);
    if Begins(g, db, w, run, q) { BegunEnds(g, db, w, run, q, c, f); }
  }

  lemma NothingWithoutBegin(g: Digests, db: Db, w: World, run: Reconciled, q: Request, c: Checkpoint, f: Faults)
    requires FindOperation(db.actions, q.operation).None?
    ensures !Begins(g, db, w, run, q) ==> !Commits(g, db, w, run, q, c, f) && FilesAfter(g, db, w, run, q, c, f) == w
    ensures Begins(g, db, w, run, q) <==>
      var b := Bind(g, db, w, run, q);
      b.Some? && "filesystem" in run.discrepancies && InsertAction(db, NewAction(g, db, run, q, b.value)).Some?
  {
    hide Bind, NewAction, AcceptsAction, Begins;
    BeginsExactly(g, db, w, run, q);
    if Bind(g, db, w, run, q).Some? { BoundHasSurface(g, db, w, run, q); }
  }

  /** The call with its action inserted. */
  function Prepare(g: Digests, db: Db, w: World, run: Reconciled, q: Request, c: Checkpoint): Call
    requires Bind(g, db, w, run, q).Some? && "filesystem" in run.discrepancies
  {
    var b := Bind(g, db, w, run, q).value;
    Begun(run, q, c, b, db.(actions := db.actions + [NewAction(g, db, run, q, b)]))
  }

  lemma BegunEnds(g: Digests, db: Db, w: World, run: Reconciled, q: Request, c: Checkpoint, f: Faults)
    requires Invariant(db) && FindOperation(db.actions, q.operation).None? && Begins(g, db, w, run, q)
    requires Bind(g, db, w, run, q).Some? && "filesystem" in run.discrepancies
    ensures var t := TakeAll(g, Alone(db, w, Prepare(g, db, w, run, q, c)), FinalSteps(f));
      && t.world == FilesAfter(g, db, w, run, q, c, f)
      && if Commits(g, db, w, run, q, c, f)
         then Recorded(g, db, w, run, q, c, Bind(g, db, w, run, q).value, t.db)
         else t.db == db
  {
    hide Take, Bind, NewAction, AcceptsAction, TakeAll, FinalSteps, Invariant, Recorded, Begins, FileEffect, Conclude;
    BoundHasSurface(g, db, w, run, q);
    var call := Prepare(g, db, w, run, q, c);
    var path, all := q.path.value, q.replacement.value;
    if ReachesFile(c) {
      FileSteps(g, Alone(db, w, call), call, f, FinalSteps(f));
      FileEffectExactly(g, w, path, all, f);
      var (w', ok) := FileEffect(g, w, path, all, g.content(all), f);
      if ok { CommitEnds(g, db, w, w', run, q, c); }
    } else {
      NothingToWrite(g, Alone(db, w, call), f);
      CommitEnds(g, db, w, w, run, q, c);
    }
  }

  /** The last step, with the files as they are by then. */
  lemma CommitEnds(g: Digests, db: Db, w: World, w': World, run: Reconciled, q: Request, c: Checkpoint)
    requires Invariant(db) && FindOperation(db.actions, q.operation).None? && Begins(g, db, w, run, q)
    requires Bind(g, db, w, run, q).Some? && "filesystem" in run.discrepancies
    ensures var b := Bind(g, db, w, run, q).value;
      var tx := db.(actions := db.actions + [NewAction(g, db, run, q, b)]);
      var t := TakeAll(g, Alone(db, w', Prepare(g, db, w, run, q, c).(phase := Ready(tx))), [Commit(0)]);
      t.world == w' && if b.observation >= 0 then Recorded(g, db, w, run, q, c, b, t.db) else t.db == db
  {
    hide Take, Bind, NewAction, AcceptsAction, TakeAll, Invariant, Recorded, Begins, Conclude;
    var b := Bind(g, db, w, run, q).value;
    var a := NewAction(g, db, run, q, b);
    var tx := db.(actions := db.actions + [a]);
    var call := Prepare(g, db, w, run, q, c).(phase := Ready(tx));
    BeginsExactly(g, db, w, run, q);
    Concluded(g, db, w, run, q, c);
    var s := Alone(db, w', call);
    RunFrom(g, s, [Commit(0)]);
    assert [Commit(0)][1..] == [];
    CommittedOne(g, s, call);
    LastStep(g, Take(g, s, Commit(0)));
    assert tx.actions[|tx.actions| - 1] == a;
  }

  /** What a call with a new operation does: it answers with a status exactly when it
    may commit, and that is what the second row of its action says; the ledger is
    left alone otherwise; the files are left as the effect leaves them. */
  ghost predicate Performed(
      g: Digests, db: Db, w: World, run: Reconciled, q: Request, c: Checkpoint, f: Faults, db': Db, w': World,
      status: Option<Result>)
  {
    && w' == FilesAfter(g, db, w, run, q, c, f)
    && (status.Some? <==> Commits(g, db, w, run, q, c, f))
    && (status.None? ==> db' == db)
    && (status.Some? ==>
          && Recorded(g, db, w, run, q, c, Bind(g, db, w, run, q).value, db')
          && History(db'.outcomes, db'.actions[|db.actions|].id)[1].result == status.value)
  }

  lemma CallPerforms(g: Digests, db: Db, w: World, run: Reconciled, q: Request, c: Checkpoint, f: Faults)
    requires Invariant(db) && FindOperation(db.actions, q.operation).None?
    ensures var t := TakeAll(g, Idle(db, w), CallSteps(run, q, c, f));
      Performed(g, db, w, run, q, c, f, t.db, t.world, if t.db == db then None else Some(TerminalOf(EffectOf(c))))
  {
    hide Bind, TakeAll, Invariant, FilesAfter, IsAction, History, HasGrounds;
    CallEnds(g, db, w, run, q, c, f);
  }

  // What a caller may rely on

  /** The name leads to a file with these bytes, and can be read. */
  predicate Holds(w: World, path: string, bytes: seq<byte>) { Readable(w, path) && w.contents[w.names[path]] == bytes }

  /** A committed call says that its change is applied exactly if its file was not
    there before and holds the replacement now; a call that says so recorded
    the digest of the replacement as what it left. */
  lemma AppliedExactlyIfWritten(g: Digests, db: Db, w: World, run: Reconciled, q: Request, c: Checkpoint, f: Faults)
    requires Invariant(db) && FindOperation(db.actions, q.operation).None? && Commits(g, db, w, run, q, c, f)
    ensures var t := TakeAll(g, Idle(db, w), CallSteps(run, q, c, f));
      && q.path.Some? && q.replacement.Some? && |t.db.actions| == |db.actions| + 1
      && var h := History(t.db.outcomes, t.db.actions[|db.actions|].id);
         && |h| == 2
         && (h[1].result == Applied <==> t.world != w)
         && (h[1].result == Applied <==>
               q.path.value !in w.names && Holds(t.world, q.path.value, q.replacement.value))
         && (h[1].result == Applied ==> h[0].post == h[1].post == Some(g.content(q.replacement.value)))
  {
    hide Bind, TakeAll, Invariant, History, HasGrounds;
    CallEnds(g, db, w, run, q, c, f);
    if ReachesFile(c) { FileThere(w, q.path.value, q.replacement.value, f.reached); }
  }

  lemma FileThere(w: World, path: string, all: seq<byte>, reached: nat)
    requires path !in w.names && |all| <= reached
    ensures var w' := WithFile(w, path, Reached(all, reached)); w' != w && Holds(w', path, all)
  {
    assert w.next != WithFile(w, path, Reached(all, reached)).next;
  }

  /** The production path: a request that may begin, with a free name and nothing going
    wrong, is answered as applied, and its replacement is under the name. */
  lemma FreeNameIsWritten(g: Digests, db: Db, w: World, run: Reconciled, q: Request, f: Faults)
    requires Invariant(db) && FindOperation(db.actions, q.operation).None? && Begins(g, db, w, run, q)
    requires Bind(g, db, w, run, q).value.observation >= 0
    requires q.path.Some? && q.path.value !in w.names && Undisturbed(q, f)
    ensures var t := TakeAll(g, Idle(db, w), CallSteps(run, q, BeforePrepareCommit, f));
      && Holds(t.world, q.path.value, q.replacement.value) && |t.db.actions| == |db.actions| + 1
      && var h := History(t.db.outcomes, t.db.actions[|db.actions|].id);
         |h| == 2 && h[0].result == EffectApplied && h[1].result == Applied
  {
    hide Bind, TakeAll, Invariant, History, HasGrounds;
    CallEnds(g, db, w, run, q, BeforePrepareCommit, f);
    FileThere(w, q.path.value, q.replacement.value, f.reached);
  }

  /** Whatever comes between the steps of a call: when it commits, its action has the two
    rows that belong to its checkpoint. */
  lemma CommitTells(g: Digests, s: State, call: nat)
    requires StateOk(g, s) && call in s.calls && s.calls[call].phase.Ready? && s.calls[call].binding.observation >= 0
    ensures var c := s.calls[call];
      var db := Take(g, s, Commit(call)).db;
      && |db.actions| == |s.db.actions| + 1
      && var a := db.actions[|s.db.actions|];
         && a.operation == c.request.operation && a.fingerprint == g.fingerprint(c.binding)
         && a.postHash == Some(c.binding.postHash) && a.preHash == c.binding.preHash
         && AreRows(c.checkpoint, a, c.binding.observation, History(db.outcomes, a.id))
  {
    hide StateOk, Invariant, History, Conclude, AreRows, Dropped;
    TransactionOk(g, s, call);
    var c := s.calls[call];
    var tx := c.phase.tx;
    var a := tx.actions[|tx.actions| - 1];
    TwoMoreRows(tx, a, c.checkpoint, c.binding);
    RowsTell(tx, a, c.checkpoint, c.binding);
    ConcludeKeepsActions(tx, a, c.checkpoint, c.binding);
  }

  /** A request whose operation is recorded is answered exactly when it is the request
    that was recorded: the same target, a replacement with the same digest, the
    same authorization and scopes. The answer is the second row's. */
  lemma RepeatedExactly(g: Digests, s: State, a: Action, w: World, run: Reconciled, q: Request)
    requires StateOk(g, s) && a in s.db.actions && q.operation == a.operation
    ensures FindOperation(s.db.actions, q.operation) == Some(a)
    ensures var status := Replay(g, s.db, w, run, q, a);
      && (status.Some? <==>
            && q.path.Some? && q.path.value in w.safe && q.path.value in w.targets
            && w.targets[q.path.value] == a.target
            && q.replacement.Some? && Some(g.content(q.replacement.value)) == a.postHash
            && q.authorization == a.authorization && q.authorizationScope == a.authorizationScope
            && run.scope == a.scope)
      && (status.Some? ==>
            |History(s.db.outcomes, a.id)| >= 2 && status.value == History(s.db.outcomes, a.id)[1].result)
  {
    hide StateOk, History, TerminalResult;
    Recovery.Recorded(g, s, a);
  }

  /** A correction of a concluded action may be made between the steps of any calls while no
    one holds the write lock. It joins the action's history, and repeated requests
    are still answered with the second row. */
  lemma CorrectionJoins(g: Digests, s: State, a: Action, o: Outcome, w: World, run: Reconciled, q: Request)
    requires StateOk(g, s) && s.writer.None? && a in s.db.actions && q.operation == a.operation
    requires o.action == a.id && o.sequence > 2 && AcceptsOutcome(s.db, o)
    ensures var u := Take(g, s, Elsewhere(OutcomeRow(o)));
      && History(u.db.outcomes, a.id) == History(s.db.outcomes, a.id) + [o]
      && u == s.(db := s.db.(outcomes := s.db.outcomes + [o]))
      && Replay(g, u.db, w, run, q, a) == Replay(g, s.db, w, run, q, a)
  {
    hide StateOk, History, AcceptsOutcome, Replay;
    var u := Take(g, s, Elsewhere(OutcomeRow(o)));
    HistoryGrows(s.db.outcomes, o, a.id);
    StepKeeps(g, s, Elsewhere(OutcomeRow(o)));
    RepeatedExactly(g, s, a, w, run, q);
    RepeatedExactly(g, u, a, w, run, q);
  }
}
