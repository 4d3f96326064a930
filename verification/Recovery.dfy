/** Guarded recovery: a file is written and the ledger says so, although the two
  cannot happen at once.

  Every call runs in small steps, so that calls of several processes, crashes
  and changes others make to the files may come between any two of them. Only
  one call at a time holds the database's write lock, from its first insert to
  its commit or to its end. */
module Recovery {
  import opened Options
  import opened Bytes
  import opened Ledger

  // The files. A name leads to an inode, an inode has bytes; `next` is the
  // first inode never used.

  datatype World = World(
    names: map<string, nat>, contents: map<nat, seq<byte>>, unreadable: set<string>,
    targets: map<string, string>, safe: set<string>, next: nat)

  ghost predicate WorldOk(w: World) {
    && (forall i :: i in w.contents ==> i < w.next)
    && (forall p :: p in w.names ==> w.names[p] < w.next)
  }

  /** Digests and renderings, of which nothing is assumed. */
  datatype Digests = Digests(content: seq<byte> -> string, fingerprint: Binding -> string, identity: nat -> string)

  /** `observe(path, None)`: identity and hash of a readable regular file. */
  function Observe(d: Digests, w: World, path: string): Option<(string, string)> {
    if path in w.names && path !in w.unreadable && w.names[path] in w.contents
    then Some((d.identity(w.names[path]), d.content(w.contents[w.names[path]])))
    else None
  }

  // Requests

  /** The result of the reconciliation run that the caller wants repaired. */
  datatype Reconciled = Reconciled(
    authoritative: bool, status: string, mismatches: seq<string>, discrepancies: map<string, int>,
    run: int, scope: string, lineage: string)

  datatype Request = Request(
    operation: string, path: Option<string>, replacement: Option<seq<byte>>,
    authorization: string, authorizationScope: string)

  datatype Checkpoint = BeforePrepareCommit | AfterPrepare | AfterEffectBeforeOutcome | OutcomeCommitUnknown

  predicate WritesFile(c: Checkpoint) { c == BeforePrepareCommit || c == AfterEffectBeforeOutcome }

  datatype Binding = Binding(
    scope: string, lineage: string, kind: string, provenance: string, observation: int, target: string,
    preHash: Option<string>, preIdentity: Option<string>, postHash: string,
    authorization: string, authorizationScope: string)

  /** The filesystem discrepancy of the run, if the ledger holds it as claimed. */
  predicate Persisted(db: Db, run: Reconciled, id: int, r: Run, d: Discrepancy) {
    && r in db.runs && d in db.discrepancies
    && r.id == run.run && d.id == id && d.run == r.id && d.surface == "filesystem"
    && r.scope == run.scope && r.lineage == run.lineage && r.status == run.status && d.kind == "filesystem"
  }

  function FindDiscrepancy(db: Db, run: Reconciled, id: int, ds: seq<Discrepancy>): (d: Option<Discrepancy>)
    ensures d.Some? ==> d.value in ds && exists r :: r in db.runs && Persisted(db, run, id, r, d.value)
  {
    if ds == [] then None
    else if exists r :: r in db.runs && Persisted(db, run, id, r, ds[0]) then Some(ds[0])
    else FindDiscrepancy(db, run, id, ds[1..])
  }

  /** `recovery_binding`: what the repair is bound to, or nothing when it may not be made. */
  function Bind(g: Digests, db: Db, w: World, run: Reconciled, q: Request): (b: Option<Binding>)
    ensures b.Some? ==>
      q.path.Some? && q.replacement.Some? && q.path.value in w.targets && "filesystem" in run.discrepancies
    ensures b.Some? ==> b.value.target == w.targets[q.path.value] && b.value.postHash == g.content(q.replacement.value)
    ensures b.Some? ==> b.value.scope == run.scope && b.value.authorization == q.authorization
    ensures b.Some? ==> b.value.authorizationScope == q.authorizationScope
  {
    if run.authoritative || run.status != "blocked" || run.discrepancies.Keys != {"filesystem"}
       || run.mismatches != ["filesystem"] then None
    else
      var found := FindDiscrepancy(db, run, run.discrepancies["filesystem"], db.discrepancies);
      if found.None? || q.path.None? || q.path.value !in w.safe || q.path.value !in w.targets
         || q.replacement.None? then None
      else
        var d := found.value;
        var target := w.targets[q.path.value];
        if target != d.provenance || q.authorization == "" || q.authorizationScope == "" then None
        else
          var seen := Observe(g, w, q.path.value);
          Some(Binding(run.scope, run.lineage, "filesystem", d.provenance, d.observation, target,
            if seen.Some? then Some(seen.value.1) else None, if seen.Some? then Some(seen.value.0) else None,
            g.content(q.replacement.value), q.authorization, q.authorizationScope))
  }

  // Repeated requests

  function FindOperation(actions: seq<Action>, operation: string): (a: Option<Action>)
    ensures a.Some? ==> a.value in actions && a.value.operation == operation
    ensures a.None? ==> forall b :: b in actions ==> b.operation != operation
  {
    if actions == [] then None
    else if actions[0].operation == operation then Some(actions[0])
    else FindOperation(actions[1..], operation)
  }

  /** The result of the action's outcome numbered two, if there is one. */
  function TerminalResult(os: seq<Outcome>, action: int): Option<Result> {
    if os == [] then None
    else if os[0].action == action && os[0].sequence == 2 then Some(os[0].result)
    else TerminalResult(os[1..], action)
  }

  /** What a request whose operation is already in the ledger returns. */
  function Replay(g: Digests, db: Db, w: World, run: Reconciled, q: Request, a: Action): Option<Result> {
    if q.path.None? || q.path.value !in w.safe || q.path.value !in w.targets || q.replacement.None? then None
    else if w.targets[q.path.value] != a.target || a.postHash != Some(g.content(q.replacement.value))
            || q.authorization != a.authorization || q.authorizationScope != a.authorizationScope
            || run.scope != a.scope
    then None
    else TerminalResult(db.outcomes, a.id)
  }

  // The rows a call inserts

  function NextId(ids: seq<int>): (n: int)
    ensures forall i :: i in ids ==> i < n
  {
    if ids == [] then 1
    else
      assert ids == [ids[0]] + ids[1..];
      var rest := NextId(ids[1..]);
      if ids[0] >= rest then ids[0] + 1 else rest
  }

  function ActionIds(actions: seq<Action>): seq<int> { seq(|actions|, i requires 0 <= i < |actions| => actions[i].id) }

  function OutcomeIds(os: seq<Outcome>): seq<int> { seq(|os|, i requires 0 <= i < |os| => os[i].id) }

  function NewAction(g: Digests, db: Db, run: Reconciled, q: Request, b: Binding): Action
    requires "filesystem" in run.discrepancies
  {
    Action(NextId(ActionIds(db.actions)), q.operation, run.run, run.discrepancies["filesystem"], b.scope,
      g.fingerprint(b), b.target, b.preHash, b.preIdentity, Some(b.postHash), Some(b.target),
      b.authorization, b.authorizationScope, b.lineage)
  }

  function EffectOf(c: Checkpoint): Result {
    match c
    case AfterPrepare => EffectNotStarted
    case OutcomeCommitUnknown => EffectUnknown
    case _ => EffectApplied
  }

  function TerminalOf(effect: Result): Result {
    match effect
    case EffectApplied => Applied
    case EffectUnknown => Unknown
    case _ => Blocked
  }

  function PreState(b: Binding): Option<string> { if b.preHash.Some? then b.preHash else Some("missing") }

  function PostState(c: Checkpoint, b: Binding): Option<string> {
    match c
    case AfterPrepare => None
    case OutcomeCommitUnknown => Some("unknown")
    case _ => Some(b.postHash)
  }

  function EffectRow(db: Db, a: Action, c: Checkpoint, b: Binding): Outcome {
    Outcome(NextId(OutcomeIds(db.outcomes)), a.id, a.run, a.scope, 1, EffectOf(c), a.lineage, EffectObserved,
      EffectOf(c), PreState(b), PostState(c, b), RecoveryAction, a.id, b.observation, None, None)
  }

  function TerminalRow(db: Db, a: Action, c: Checkpoint, b: Binding, effect: Outcome): Outcome {
    Outcome(NextId(OutcomeIds(db.outcomes)), a.id, a.run, a.scope, 2, TerminalOf(EffectOf(c)), a.lineage, Terminal,
      TerminalOf(EffectOf(c)), PreState(b), PostState(c, b), RecoveryAction, a.id, b.observation, Some(effect.id),
      Some(a.id))
  }

  /** Inserts the effect and the terminal row of the action inserted last. */
  function Conclude(tx: Db, a: Action, c: Checkpoint, b: Binding): Option<Db> {
    var effect := EffectRow(tx, a, c, b);
    var tx1 := InsertOutcome(tx, effect);
    if tx1.None? then None else InsertOutcome(tx1.value, TerminalRow(tx1.value, a, c, b, effect))
  }

  // The machine

  /** How far a call has come. `tx` is the database as the call's transaction sees it. */
  datatype Phase =
    | Waiting
    | Prepared(tx: Db)
    | Created(tx: Db, inode: nat)
    | Written(tx: Db, inode: nat)
    | Ready(tx: Db)

  datatype Call = Call(run: Reconciled, request: Request, checkpoint: Checkpoint, binding: Binding, phase: Phase)

  datatype State = State(db: Db, world: World, calls: map<nat, Call>, writer: Option<nat>)

  datatype Step =
    | Start(call: nat, run: Reconciled, request: Request, checkpoint: Checkpoint)
    | Begin(call: nat)
    | Create(call: nat, fails: bool)
    | Write(call: nat, reached: nat, fails: bool)
    | Check(call: nat, fails: bool)
    | Commit(call: nat)
    | Abandon(call: nat)
    | Outside(world: World)
    | Elsewhere(row: Row)

  /** The call ends without a commit: an error or a crash rolls its transaction back. */
  function Dropped(s: State, call: nat): State {
    s.(calls := s.calls - {call}, writer := if s.writer == Some(call) then None else s.writer)
  }

  function Advanced(s: State, call: nat, phase: Phase): State
    requires call in s.calls
  {
    s.(calls := s.calls[call := s.calls[call].(phase := phase)])
  }

  /** The binding is computed from the ledger and the files as they are now. A
    request that is already in the ledger, or may not be bound, ends at once. */
  function DoStart(g: Digests, s: State, step: Step): State
    requires step.Start?
  {
    var b := Bind(g, s.db, s.world, step.run, step.request);
    if step.call in s.calls || FindOperation(s.db.actions, step.request.operation).Some? || b.None? then s
    else s.(calls := s.calls[step.call := Call(step.run, step.request, step.checkpoint, b.value, Waiting)])
  }

  /** Takes the write lock and inserts the action. */
  function DoBegin(g: Digests, s: State, call: nat): State {
    if call !in s.calls || !s.calls[call].phase.Waiting? || s.writer.Some? then s
    else
      var c := s.calls[call];
      if "filesystem" !in c.run.discrepancies then Dropped(s, call)
      else
        var tx := InsertAction(s.db, NewAction(g, s.db, c.run, c.request, c.binding));
        if tx.None? then Dropped(s, call)
        else
          Advanced(s, call, if WritesFile(c.checkpoint) then Prepared(tx.value) else Ready(tx.value))
            .(writer := Some(call))
  }

  /** Opens the target for a new file; fails if the name is taken. */
  function DoCreate(s: State, call: nat, fails: bool): State {
    if call !in s.calls || !s.calls[call].phase.Prepared? then s
    else
      var c := s.calls[call];
      if fails || c.request.path.None? || c.request.path.value in s.world.names then Dropped(s, call)
      else
        var w := s.world;
        var p := c.request.path.value;
        Advanced(s, call, Created(c.phase.tx, w.next))
          .(world := w.(names := w.names[p := w.next], contents := w.contents[w.next := []],
                        unreadable := w.unreadable - {p}, next := w.next + 1))
  }

  /** Writes the first `reached` bytes through the open handle, which leads to
    the inode created by this call even if its name has changed. */
  function DoWrite(s: State, call: nat, reached: nat, fails: bool): State {
    if call !in s.calls || !s.calls[call].phase.Created? then s
    else
      var c := s.calls[call];
      var i := c.phase.inode;
      var all := if c.request.replacement.Some? then c.request.replacement.value else [];
      var n := if reached < |all| then reached else |all|;
      var w := if i in s.world.contents then s.world.(contents := s.world.contents[i := all[..n]]) else s.world;
      if fails || n < |all| then Dropped(s, call).(world := w)
      else Advanced(s, call, Written(c.phase.tx, i)).(world := w)
  }

  /** Reads the target back; it must hold what was intended. */
  function DoCheck(g: Digests, s: State, call: nat, fails: bool): State {
    if call !in s.calls || !s.calls[call].phase.Written? then s
    else
      var c := s.calls[call];
      var seen := if c.request.path.Some? then Observe(g, s.world, c.request.path.value) else None;
      if fails || seen.None? || seen.value.1 != c.binding.postHash then Dropped(s, call)
      else Advanced(s, call, Ready(c.phase.tx))
  }

  function DoCommit(g: Digests, s: State, call: nat): State {
    if call !in s.calls || !s.calls[call].phase.Ready? then s
    else
      var c := s.calls[call];
      var tx := c.phase.tx;
      if tx.actions == [] then Dropped(s, call)
      else
        var done := Conclude(tx, tx.actions[|tx.actions| - 1], c.checkpoint, c.binding);
        if done.None? then Dropped(s, call) else Dropped(s, call).(db := done.value)
  }

  /** Rows of other operations: everything but new actions and their first two outcomes. */
  predicate IsElsewhere(row: Row) {
    row.RunRow? || row.DiscrepancyRow? || (row.OutcomeRow? && row.o.sequence > 2)
  }

  function Take(g: Digests, s: State, step: Step): State {
    match step
    case Start(_, _, _, _) => DoStart(g, s, step)
    case Begin(call) => DoBegin(g, s, call)
    case Create(call, fails) => DoCreate(s, call, fails)
    case Write(call, reached, fails) => DoWrite(s, call, reached, fails)
    case Check(call, fails) => DoCheck(g, s, call, fails)
    case Commit(call) => DoCommit(g, s, call)
    case Abandon(call) => Dropped(s, call)
    case Outside(w) => s.(world := w)
    case Elsewhere(row) =>
      var next := Insert(s.db, row);
      if s.writer.None? && IsElsewhere(row) && next.Some? then s.(db := next.value) else s
  }

  function TakeAll(g: Digests, s: State, steps: seq<Step>): State
    decreases |steps|
  {
    if steps == [] then s else TakeAll(g, Take(g, s, steps[0]), steps[1..])
  }

  /** What others do to the files never makes them use an unused inode number. */
  ghost predicate Legal(s: State, step: Step) {
    step.Outside? ==> WorldOk(step.world) && step.world.next >= s.world.next
  }

  ghost predicate AllLegal(g: Digests, s: State, steps: seq<Step>)
    decreases |steps|
  {
    steps != [] ==> Legal(s, steps[0]) && AllLegal(g, Take(g, s, steps[0]), steps[1..])
  }

  // The invariant

  /** Every action in the ledger has its effect and the matching terminal outcome. */
  ghost predicate Completed(db: Db) {
    forall a :: a in db.actions ==> Concluded(a, History(db.outcomes, a.id))
  }

  ghost predicate Concluded(a: Action, h: seq<Outcome>) {
    && |h| >= 2
    && IsEffect(h[0].result) && h[1].result == TerminalOf(h[0].result)
    && (h[0].result == EffectApplied ==> h[0].post == a.postHash)
  }

  ghost predicate Open(p: Phase) { !p.Waiting? }

  /** A call that holds the lock has inserted just its action. */
  ghost predicate CallOk(g: Digests, s: State, id: nat)
    requires id in s.calls
  {
    var c := s.calls[id];
    && c.request.path.Some? && c.request.replacement.Some? && "filesystem" in c.run.discrepancies
    && c.binding.postHash == g.content(c.request.replacement.value)
    && c.binding.scope == c.run.scope && c.binding.authorization == c.request.authorization
    && c.binding.authorizationScope == c.request.authorizationScope
    && (Open(c.phase) ==>
          var a := NewAction(g, s.db, c.run, c.request, c.binding);
          s.writer == Some(id) && AcceptsAction(s.db, a) && c.phase.tx == s.db.(actions := s.db.actions + [a]))
    && (c.phase.Created? || c.phase.Written? ==> c.phase.inode < s.world.next)
  }

  ghost predicate StateOk(g: Digests, s: State) {
    && Invariant(s.db) && Completed(s.db) && WorldOk(s.world)
    && (forall id :: id in s.calls ==> CallOk(g, s, id))
    && (s.writer.Some? ==> s.writer.value in s.calls && Open(s.calls[s.writer.value].phase))
  }

  lemma RowAdded(tx: Db, a: Action, o: Outcome)
    requires Invariant(tx) && a in tx.actions && o.action == a.id && AcceptsOutcome(tx, o)
    ensures var db := tx.(outcomes := tx.outcomes + [o]);
      && InsertOutcome(tx, o) == Some(db) && Invariant(db)
      && History(db.outcomes, a.id) == History(tx.outcomes, a.id) + [o]
      && (forall id :: id != a.id ==> History(db.outcomes, id) == History(tx.outcomes, id))
  {
    hide Invariant;
    InsertKeepsInvariant(tx, OutcomeRow(o));
    HistoryGrows(tx.outcomes, o, a.id);
    forall id | id != a.id ensures History(tx.outcomes + [o], id) == History(tx.outcomes, id) {
      HistoryGrows(tx.outcomes, o, id);
      assert History(tx.outcomes, id) + [] == History(tx.outcomes, id);
    }
  }

  lemma EffectAccepted(tx: Db, a: Action, c: Checkpoint, b: Binding)
    requires Invariant(tx) && a in tx.actions && History(tx.outcomes, a.id) == []
    ensures AcceptsOutcome(tx, EffectRow(tx, a, c, b)) <==> b.observation >= 0
  {
    hide Invariant, AcceptsOutcome, HistoryOk;
    FreshOutcomeId(tx);
    AcceptedExactly(tx, a, EffectRow(tx, a, c, b));
  }

  lemma TerminalAccepted(tx: Db, a: Action, c: Checkpoint, b: Binding, effect: Outcome)
    requires Invariant(tx) && a in tx.actions && History(tx.outcomes, a.id) == [effect]
    requires effect.result == EffectOf(c) && b.observation >= 0
    ensures AcceptsOutcome(tx, TerminalRow(tx, a, c, b, effect))
  {
    hide Invariant, AcceptsOutcome, HistoryOk;
    FreshOutcomeId(tx);
    AcceptedExactly(tx, a, TerminalRow(tx, a, c, b, effect));
  }

  /** The triggers accept both rows of a call, except when the discrepancy carries
    a negative observation number. */
  lemma TwoMoreRows(tx: Db, a: Action, c: Checkpoint, b: Binding)
    requires Invariant(tx) && a in tx.actions && History(tx.outcomes, a.id) == []
    ensures Conclude(tx, a, c, b).Some? <==> b.observation >= 0
    ensures Conclude(tx, a, c, b).Some? ==>
      var db := Conclude(tx, a, c, b).value;
      var effect := EffectRow(tx, a, c, b);
      var terminal := TerminalRow(tx.(outcomes := tx.outcomes + [effect]), a, c, b, effect);
      && Invariant(db) && db == tx.(outcomes := tx.outcomes + [effect] + [terminal])
      && History(db.outcomes, a.id) == [effect, terminal]
      && (forall id :: id != a.id ==> History(db.outcomes, id) == History(tx.outcomes, id))
  {
    hide Invariant, AcceptsOutcome, History;
    var effect := EffectRow(tx, a, c, b);
    EffectAccepted(tx, a, c, b);
    if b.observation >= 0 {
      RowAdded(tx, a, effect);
      var tx1 := InsertOutcome(tx, effect).value;
      var terminal := TerminalRow(tx1, a, c, b, effect);
      assert [] + [effect] == [effect];
      TerminalAccepted(tx1, a, c, b, effect);
      RowAdded(tx1, a, terminal);
      assert [effect] + [terminal] == [effect, terminal];
    }
  }

  lemma FreshOutcomeId(db: Db)
    ensures forall p :: p in db.outcomes ==> p.id < NextId(OutcomeIds(db.outcomes))
  {
    forall p | p in db.outcomes ensures p.id < NextId(OutcomeIds(db.outcomes)) {
      var i :| 0 <= i < |db.outcomes| && db.outcomes[i] == p;
      assert OutcomeIds(db.outcomes)[i] == p.id && p.id in OutcomeIds(db.outcomes);
    }
  }

  lemma BeginKeeps(g: Digests, s: State, call: nat)
    requires StateOk(g, s)
    ensures StateOk(g, DoBegin(g, s, call))
  {
    hide Invariant, Completed, AcceptsAction;
    var t := DoBegin(g, s, call);
    forall id | id in t.calls ensures CallOk(g, t, id) {
      assert CallOk(g, s, id);
    }
  }

  lemma StartKeeps(g: Digests, s: State, step: Step)
    requires StateOk(g, s) && step.Start?
    ensures StateOk(g, Take(g, s, step))
  {
    hide Invariant, Completed, AcceptsAction, NewAction, WorldOk;
    var t := Take(g, s, step);
    forall id | id in t.calls ensures CallOk(g, t, id) {
      if id in s.calls { assert CallOk(g, s, id); }
    }
  }

  /** A call stays well formed while the ledger stays, if its transaction does. */
  lemma CallCarriesOver(g: Digests, s: State, t: State, id: nat)
    requires id in s.calls && CallOk(g, s, id) && id in t.calls && t.world.next >= s.world.next
    requires t.calls[id] == s.calls[id].(phase := t.calls[id].phase)
    requires var p, q := s.calls[id].phase, t.calls[id].phase;
      && (Open(q) ==> t.db == s.db && Open(p) && q.tx == p.tx && t.writer == s.writer)
      && (q.Created? || q.Written? ==> q.inode < t.world.next)
    ensures CallOk(g, t, id)
  {
    hide AcceptsAction, NewAction;
  }

  lemma OnlyTheWriterIsOpen(g: Digests, s: State, id: nat)
    requires StateOk(g, s) && id in s.calls && Open(s.calls[id].phase)
    ensures s.writer == Some(id)
  {
    hide AcceptsAction, NewAction, Invariant, Completed;
    assert CallOk(g, s, id);
  }

  /** Steps that change at most one open call, and the files. */
  lemma FileStepsKeep(g: Digests, s: State, step: Step)
    requires StateOk(g, s) && Legal(s, step)
      && (step.Create? || step.Write? || step.Check? || step.Abandon? || step.Outside?)
    ensures StateOk(g, Take(g, s, step))
  {
    hide Invariant, Completed, WorldOk, CallOk, Observe;
    var t := Take(g, s, step);
    FilesStayOk(g, s, step);
    forall id | id in t.calls ensures CallOk(g, t, id) {
      PhasesStayOk(g, s, step, id);
      CallCarriesOver(g, s, t, id);
    }
  }

  lemma PhasesStayOk(g: Digests, s: State, step: Step, id: nat)
    requires StateOk(g, s) && Legal(s, step)
      && (step.Create? || step.Write? || step.Check? || step.Abandon? || step.Outside?)
    requires id in Take(g, s, step).calls
    ensures var t := Take(g, s, step);
      && id in s.calls && t.calls[id] == s.calls[id].(phase := t.calls[id].phase)
      && var p, q := s.calls[id].phase, t.calls[id].phase;
         && (Open(q) ==> Open(p) && q.tx == p.tx && t.writer == s.writer)
         && (q.Created? || q.Written? ==> q.inode < t.world.next)
  {
    hide StateOk, Observe;
    if Open(s.calls[id].phase) { OnlyTheWriterIsOpen(g, s, id); }
    if s.calls[id].phase.Created? || s.calls[id].phase.Written? { InodeIsOld(g, s, id); }
  }

  lemma InodeIsOld(g: Digests, s: State, id: nat)
    requires StateOk(g, s) && id in s.calls && (s.calls[id].phase.Created? || s.calls[id].phase.Written?)
    ensures s.calls[id].phase.inode < s.world.next
  {
    hide AcceptsAction, NewAction, Invariant, Completed;
    assert CallOk(g, s, id);
  }

  lemma FilesStayOk(g: Digests, s: State, step: Step)
    requires WorldOk(s.world) && Legal(s, step)
    requires step.Create? || step.Write? || step.Check? || step.Abandon? || step.Outside?
    ensures var t := Take(g, s, step); t.db == s.db && WorldOk(t.world) && t.world.next >= s.world.next
  {
    hide Observe, CallOk;
  }

  /** The transaction that is about to commit: its action has no outcome yet. */
  lemma TransactionOk(g: Digests, s: State, call: nat)
    requires StateOk(g, s) && call in s.calls && s.calls[call].phase.Ready?
    ensures var tx := s.calls[call].phase.tx;
      && tx.actions != [] && Invariant(tx) && tx == s.db.(actions := tx.actions)
      && var a := tx.actions[|tx.actions| - 1];
         && tx.actions == s.db.actions + [a] && a !in s.db.actions && History(tx.outcomes, a.id) == []
         && a.postHash == Some(s.calls[call].binding.postHash) && (forall b :: b in s.db.actions ==> b.id != a.id)
         && a == NewAction(g, s.db, s.calls[call].run, s.calls[call].request, s.calls[call].binding)
  {
    hide Invariant, AcceptsAction, Completed, WorldOk, History;
    assert CallOk(g, s, call);
    var c := s.calls[call];
    var a := NewAction(g, s.db, c.run, c.request, c.binding);
    hide NewAction, CallOk;
    ActionStartsEmpty(s.db, a);
  }

  /** A commit that succeeds adds the action and its two outcomes, and no other way adds any. */
  lemma CommitAdds(g: Digests, s: State, call: nat)
    requires StateOk(g, s) && call in s.calls && s.calls[call].phase.Ready?
    ensures var c := s.calls[call];
      var t := DoCommit(g, s, call);
      var a := NewAction(g, s.db, c.run, c.request, c.binding);
      if c.binding.observation < 0 then t.db == s.db
      else
        && Invariant(t.db) && Completed(t.db) && t.db == s.db.(actions := s.db.actions + [a], outcomes := t.db.outcomes)
        && |History(t.db.outcomes, a.id)| == 2
        && History(t.db.outcomes, a.id)[1].result == TerminalOf(EffectOf(c.checkpoint))
  {
    hide Invariant, AcceptsAction, Conclude, CallOk, NewAction, History;
    TransactionOk(g, s, call);
    var c := s.calls[call];
    var tx := c.phase.tx;
    var a := tx.actions[|tx.actions| - 1];
    TwoMoreRows(tx, a, c.checkpoint, c.binding);
    if c.binding.observation >= 0 {
      var db := Conclude(tx, a, c.checkpoint, c.binding).value;
      forall b | b in db.actions ensures Concluded(b, History(db.outcomes, b.id)) {
        if b != a { assert b in s.db.actions && Concluded(b, History(s.db.outcomes, b.id)); }
      }
    }
  }

  lemma CommitKeeps(g: Digests, s: State, call: nat)
    requires StateOk(g, s)
    ensures StateOk(g, DoCommit(g, s, call))
  {
    hide Invariant, Conclude, Completed, CallOk;
    var t := DoCommit(g, s, call);
    if call in s.calls && s.calls[call].phase.Ready? {
      CommitAdds(g, s, call);
      OnlyTheWriterIsOpen(g, s, call);
      forall id | id in t.calls ensures CallOk(g, t, id) {
        if Open(s.calls[id].phase) { OnlyTheWriterIsOpen(g, s, id); }
        CallCarriesOver(g, s, t, id);
      }
    }
  }

  lemma ElsewhereKeepsCompleted(db: Db, row: Row)
    requires Invariant(db) && Completed(db) && IsElsewhere(row) && Insert(db, row).Some?
    ensures Invariant(Insert(db, row).value) && Completed(Insert(db, row).value)
  {
    hide Invariant;
    InsertKeepsInvariant(db, row);
    var db' := Insert(db, row).value;
    forall a | a in db'.actions ensures Concluded(a, History(db'.outcomes, a.id)) {
      assert Concluded(a, History(db.outcomes, a.id));
      if row.OutcomeRow? { HistoryGrows(db.outcomes, row.o, a.id); }
    }
  }

  lemma ElsewhereKeeps(g: Digests, s: State, row: Row)
    requires StateOk(g, s)
    ensures StateOk(g, Take(g, s, Elsewhere(row)))
  {
    hide Invariant, AcceptsAction, NewAction, Insert, Completed;
    var t := Take(g, s, Elsewhere(row));
    if s.writer.None? && IsElsewhere(row) && Insert(s.db, row).Some? { ElsewhereKeepsCompleted(s.db, row); }
    forall id | id in t.calls ensures CallOk(g, t, id) {
      assert CallOk(g, s, id);
    }
  }

  lemma StepKeeps(g: Digests, s: State, step: Step)
    requires StateOk(g, s) && Legal(s, step)
    ensures StateOk(g, Take(g, s, step))
  {
    hide StateOk, Legal;
    match step
    case Begin(call) => BeginKeeps(g, s, call);
    case Commit(call) => CommitKeeps(g, s, call);
    case Elsewhere(row) => ElsewhereKeeps(g, s, row);
    case Start(_, _, _, _) => StartKeeps(g, s, step);
    case _ => FileStepsKeep(g, s, step);
  }

  /** Any interleaving of calls, crashes and outside edits keeps the invariant:
    in particular every action in the ledger has its effect, the matching
    terminal outcome, and a fingerprint of its own. */
  lemma {:induction false} RunKeeps(g: Digests, s: State, steps: seq<Step>)
    requires StateOk(g, s) && AllLegal(g, s, steps)
    ensures StateOk(g, TakeAll(g, s, steps))
    decreases |steps|
  {
    if steps != [] {
      StepKeeps(g, s, steps[0]);
      RunKeeps(g, Take(g, s, steps[0]), steps[1..]);
    }
  }

  /** Each fingerprint, and each operation, has at most one committed action. */
  lemma OneActionEach(g: Digests, s: State, a: Action, b: Action)
    requires StateOk(g, s) && a in s.db.actions && b in s.db.actions
    requires a.fingerprint == b.fingerprint || a.operation == b.operation
    ensures a == b
  {
    hide Completed, CallOk, OutcomesOk, HistoriesOk, Chained, HasDiscrepancy;
    var i :| 0 <= i < |s.db.actions| && s.db.actions[i] == a;
    var j :| 0 <= j < |s.db.actions| && s.db.actions[j] == b;
  }

  // Retries

  lemma {:induction false} OperationFound(actions: seq<Action>, a: Action)
    requires a in actions && forall b :: b in actions && b.operation == a.operation ==> b == a
    ensures FindOperation(actions, a.operation) == Some(a)
    decreases |actions|
  {
    if actions[0] != a {
      assert a in actions[1..];
      OperationFound(actions[1..], a);
    }
  }

  lemma {:induction false} TerminalFound(os: seq<Outcome>, o: Outcome)
    requires o in os && o.sequence == 2
    requires forall p :: p in os && p.action == o.action && p.sequence == 2 ==> p == o
    ensures TerminalResult(os, o.action) == Some(o.result)
    decreases |os|
  {
    if os[0] != o {
      assert o in os[1..];
      TerminalFound(os[1..], o);
    }
  }

  /** In every reachable state a request for a recorded operation finds its
    action, and the action's terminal result. */
  lemma Recorded(g: Digests, s: State, a: Action)
    requires StateOk(g, s) && a in s.db.actions
    ensures FindOperation(s.db.actions, a.operation) == Some(a)
    ensures var h := History(s.db.outcomes, a.id);
      |h| >= 2 && TerminalResult(s.db.outcomes, a.id) == Some(h[1].result)
  {
    forall b | b in s.db.actions && b.operation == a.operation ensures b == a { OneActionEach(g, s, a, b); }
    OperationFound(s.db.actions, a);
    var h := History(s.db.outcomes, a.id);
    assert Concluded(a, h) && HistoryOk(s.db, a, h);
    assert h[1] in h;
    forall p | p in s.db.outcomes && p.action == a.id && p.sequence == 2 ensures p == h[1] { SoleBearer(s.db, a, p); }
    TerminalFound(s.db.outcomes, h[1]);
  }

  lemma {:induction false} HistoryOfMore(os: seq<Outcome>, os': seq<Outcome>, id: int)
    requires os <= os'
    ensures History(os, id) <= History(os', id)
    decreases |os'|
  {
    if os != os' {
      HistoryOfMore(os, os'[..|os'| - 1], id);
      assert os' == os'[..|os'| - 1] + [os'[|os'| - 1]];
      HistoryGrows(os'[..|os'| - 1], os'[|os'| - 1], id);
    } else {
      assert os == os';
    }
  }

  lemma StepExtends(g: Digests, s: State, step: Step)
    requires StateOk(g, s)
    ensures Extends(s.db, Take(g, s, step).db)
  {
    hide Invariant, Completed, CallOk, NewAction, Bind, Conclude;
    if step.Commit? && step.call in s.calls && s.calls[step.call].phase.Ready? {
      CommitExtends(g, s, step.call);
    }
  }

  lemma CommitExtends(g: Digests, s: State, call: nat)
    requires StateOk(g, s) && call in s.calls && s.calls[call].phase.Ready?
    ensures Extends(s.db, DoCommit(g, s, call).db)
  {
    hide Invariant, Completed, CallOk, NewAction, Bind, AcceptsOutcome, History;
    TransactionOk(g, s, call);
  }

  lemma {:induction false} RunExtends(g: Digests, s: State, steps: seq<Step>)
    requires StateOk(g, s) && AllLegal(g, s, steps)
    ensures Extends(s.db, TakeAll(g, s, steps).db)
    decreases |steps|
  {
    hide StateOk, Legal;
    if steps != [] {
      StepKeeps(g, s, steps[0]);
      StepExtends(g, s, steps[0]);
      RunExtends(g, Take(g, s, steps[0]), steps[1..]);
    }
  }

  /** A recorded operation keeps its action and its terminal result forever. */
  lemma RecordIsForever(g: Digests, s: State, steps: seq<Step>, a: Action)
    requires StateOk(g, s) && AllLegal(g, s, steps) && a in s.db.actions
    ensures var t := TakeAll(g, s, steps);
      && FindOperation(t.db.actions, a.operation) == Some(a)
      && TerminalResult(t.db.outcomes, a.id) == TerminalResult(s.db.outcomes, a.id)
  {
    hide StateOk;
    var t := TakeAll(g, s, steps);
    RunKeeps(g, s, steps);
    RunExtends(g, s, steps);
    assert a in t.db.actions;
    Recorded(g, s, a);
    Recorded(g, t, a);
    HistoryOfMore(s.db.outcomes, t.db.outcomes, a.id);
  }

  /** Repeating a committed request returns the first status, in every later
    state in which its target is still the same. */
  lemma RetryReturnsFirstStatus(g: Digests, s: State, call: nat, steps: seq<Step>, run: Reconciled)
    requires StateOk(g, s) && call in s.calls && s.calls[call].phase.Ready? && s.calls[call].binding.observation >= 0
    requires AllLegal(g, DoCommit(g, s, call), steps) && run.scope == s.calls[call].run.scope
    requires var c := s.calls[call]; var w := TakeAll(g, DoCommit(g, s, call), steps).world; var p := c.request.path;
      p.Some? && p.value in w.safe && p.value in w.targets && w.targets[p.value] == c.binding.target
    ensures var c := s.calls[call];
      var t := TakeAll(g, DoCommit(g, s, call), steps);
      var found := FindOperation(t.db.actions, c.request.operation);
      found.Some? && Replay(g, t.db, t.world, run, c.request, found.value) == Some(TerminalOf(EffectOf(c.checkpoint)))
  {
    hide StateOk, AcceptsAction, Conclude, History, TerminalResult, Replay, NewAction, DoCommit;
    var c := s.calls[call];
    var u := DoCommit(g, s, call);
    CommitAdds(g, s, call);
    StepKeeps(g, s, Commit(call));
    ReplayedActionExists(g, s, call);
    var a := NewAction(g, s.db, c.run, c.request, c.binding);
    assert a in u.db.actions;
    Recorded(g, u, a);
    RecordIsForever(g, u, steps, a);
    ReplayedAction(g, s, call, TakeAll(g, u, steps), run);
  }

  lemma ReplayedActionExists(g: Digests, s: State, call: nat)
    requires StateOk(g, s) && call in s.calls
    ensures "filesystem" in s.calls[call].run.discrepancies
  {
    hide Invariant, Completed, AcceptsAction;
    assert CallOk(g, s, call);
  }

  lemma ReplayedAction(g: Digests, s: State, call: nat, t: State, run: Reconciled)
    requires StateOk(g, s) && call in s.calls && run.scope == s.calls[call].run.scope
    requires var c := s.calls[call]; var p := c.request.path;
      p.Some? && p.value in t.world.safe && p.value in t.world.targets && t.world.targets[p.value] == c.binding.target
    ensures var c := s.calls[call];
      "filesystem" in c.run.discrepancies
      && var a := NewAction(g, s.db, c.run, c.request, c.binding);
         && a.operation == c.request.operation
         && Replay(g, t.db, t.world, run, c.request, a) == TerminalResult(t.db.outcomes, a.id)
  {
    hide Invariant, Completed, AcceptsAction, TerminalResult;
    assert CallOk(g, s, call);
  }
}
