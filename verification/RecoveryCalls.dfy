/** One recovery that nothing else comes between, as steps of the machine. */
module RecoveryCalls {
  import opened Options
  import opened Bytes
  import opened Ledger
  import opened Recovery

  /** What may go wrong around the file: opening it, writing all of it, reading it back. */
  datatype Faults = Faults(open: bool, reached: nat, write: bool, check: bool)

  /** The steps of one call that nothing comes between. */
  function CallSteps(run: Reconciled, q: Request, c: Checkpoint, f: Faults): seq<Step> {
    [Start(0, run, q, c), Begin(0)] + FinalSteps(f)
  }

  function Idle(db: Db, w: World): State { State(db, w, map[], None) }

  function FinalSteps(f: Faults): seq<Step> {
    [Create(0, f.open), Write(0, f.reached, f.write), Check(0, f.check), Commit(0)]
  }

  /** The files after the target was created and written, and whether it then held
    what it should. */
  function FileEffect(g: Digests, w: World, path: string, all: seq<byte>, hash: string, f: Faults): (World, bool) {
    if f.open || path in w.names then (w, false)
    else
      var n := if f.reached < |all| then f.reached else |all|;
      var w' := w.(names := w.names[path := w.next], contents := w.contents[w.next := all[..n]],
                   unreadable := w.unreadable - {path}, next := w.next + 1);
      var seen := Observe(g, w', path);
      (w', !f.write && n == |all| && !f.check && seen.Some? && seen.value.1 == hash)
  }

  // The steps of a call that is alone

  lemma FileSteps(g: Digests, s: State, call: Call, f: Faults, steps: seq<Step>)
    requires s == Alone(s.db, s.world, call) && call.phase.Prepared?
    requires call.request.path.Some? && call.request.replacement.Some?
    requires steps == FinalSteps(f)
    ensures var (w, ok) := FileEffect(g, s.world, call.request.path.value, call.request.replacement.value,
      call.binding.postHash, f);
      TakeAll(g, s, steps) ==
        if ok then TakeAll(g, Alone(s.db, w, call.(phase := Ready(call.phase.tx))), [Commit(0)]) else Idle(s.db, w)
  {
    hide Take, Observe, TakeAll;
    assert steps[1..][1..][1..] == [Commit(0)];
    CreatedOne(g, s, call, f.open);
    RunFrom(g, s, steps);
    var t := Take(g, s, steps[0]);
    if f.open || call.request.path.value in s.world.names {
      IdleStays(g, t, steps[1..]);
    } else {
      WrittenOne(g, t, call.(phase := Created(call.phase.tx, s.world.next)), f.reached, f.write);
      RunFrom(g, t, steps[1..]);
      var u := Take(g, t, steps[1]);
      var all := call.request.replacement.value;
      assert s.world.contents[s.world.next := []][s.world.next := all[..if f.reached < |all| then f.reached else |all|]]
          == s.world.contents[s.world.next := all[..if f.reached < |all| then f.reached else |all|]];
      if f.write || f.reached < |all| {
        IdleStays(g, u, steps[2..]);
      } else {
        CheckedOne(g, u, call.(phase := Written(call.phase.tx, s.world.next)), f.check);
        RunFrom(g, u, steps[2..]);
        var v := Take(g, u, steps[2]);
        if v.writer.None? { IdleStays(g, v, steps[3..]); }
      }
    }
  }

  function Alone(db: Db, w: World, call: Call): State {
    State(db, w, map[0 := call], if call.phase.Waiting? then None else Some(0))
  }

  lemma Emptied(db: Db, w: World, call: Call)
    ensures Dropped(Alone(db, w, call), 0) == Idle(db, w)
  {
    assert map[0 := call] - {0} == map[];
  }

  lemma Started(g: Digests, s: State, run: Reconciled, q: Request, c: Checkpoint)
    requires s == Idle(s.db, s.world) && FindOperation(s.db.actions, q.operation).None?
    ensures var b := Bind(g, s.db, s.world, run, q);
      Take(g, s, Start(0, run, q, c)) == if b.None? then s else Alone(s.db, s.world, Call(run, q, c, b.value, Waiting))
  {
    hide Bind;
  }

  lemma ActionTaken(g: Digests, s: State, call: Call)
    requires s == Alone(s.db, s.world, call) && call.phase.Waiting? && "filesystem" in call.run.discrepancies
    ensures var tx := InsertAction(s.db, NewAction(g, s.db, call.run, call.request, call.binding));
      Take(g, s, Begin(0)) ==
        if tx.None? then Idle(s.db, s.world)
        else Alone(s.db, s.world,
          call.(phase := if WritesFile(call.checkpoint) then Prepared(tx.value) else Ready(tx.value)))
  {
    hide InsertAction, NewAction;
    Emptied(s.db, s.world, call);
  }

  lemma CreatedOne(g: Digests, s: State, call: Call, fails: bool)
    requires s == Alone(s.db, s.world, call) && call.phase.Prepared? && call.request.path.Some?
    ensures var w := s.world; var p := call.request.path.value;
      Take(g, s, Create(0, fails)) ==
        if fails || p in w.names then Idle(s.db, w)
        else Alone(s.db, w.(names := w.names[p := w.next], contents := w.contents[w.next := []],
                            unreadable := w.unreadable - {p}, next := w.next + 1),
                   call.(phase := Created(call.phase.tx, w.next)))
  {
    Emptied(s.db, s.world, call);
  }

  lemma WrittenOne(g: Digests, s: State, call: Call, reached: nat, fails: bool)
    requires s == Alone(s.db, s.world, call) && call.phase.Created? && call.phase.inode in s.world.contents
    requires call.request.replacement.Some?
    ensures var all := call.request.replacement.value;
      var n := if reached < |all| then reached else |all|;
      var w := s.world.(contents := s.world.contents[call.phase.inode := all[..n]]);
      Take(g, s, Write(0, reached, fails)) ==
        if fails || n < |all| then Idle(s.db, w)
        else Alone(s.db, w, call.(phase := Written(call.phase.tx, call.phase.inode)))
  {
    Emptied(s.db, s.world, call);
  }

  lemma CheckedOne(g: Digests, s: State, call: Call, fails: bool)
    requires s == Alone(s.db, s.world, call) && call.phase.Written? && call.request.path.Some?
    ensures var seen := Observe(g, s.world, call.request.path.value);
      Take(g, s, Check(0, fails)) ==
        if fails || seen.None? || seen.value.1 != call.binding.postHash then Idle(s.db, s.world)
        else Alone(s.db, s.world, call.(phase := Ready(call.phase.tx)))
  {
    hide Observe;
    Emptied(s.db, s.world, call);
  }

  lemma NothingToWrite(g: Digests, s: State, f: Faults)
    requires 0 in s.calls && s.calls[0].phase.Ready?
    ensures TakeAll(g, s, FinalSteps(f)) == TakeAll(g, s, [Commit(0)])
  {
    hide TakeAll;
    var steps := FinalSteps(f);
    assert Take(g, s, steps[0]) == Take(g, s, steps[1]) == Take(g, s, steps[2]) == s;
    hide Take;
    RunFrom(g, s, steps);
    RunFrom(g, s, steps[1..]);
    RunFrom(g, s, steps[2..]);
    assert steps[2..][1..] == [Commit(0)];
  }

  lemma CommittedOne(g: Digests, s: State, call: Call)
    requires s == Alone(s.db, s.world, call) && call.phase.Ready? && call.phase.tx.actions != []
    ensures var tx := call.phase.tx;
      var done := Conclude(tx, tx.actions[|tx.actions| - 1], call.checkpoint, call.binding);
      Take(g, s, Commit(0)) == Idle(if done.None? then s.db else done.value, s.world)
  {
    hide Conclude;
    Emptied(s.db, s.world, call);
  }

  lemma ActionInserted(db: Db, a: Action)
    requires InsertAction(db, a).Some?
    ensures InsertAction(db, a).value.actions == db.actions + [a]
  {
  }

  lemma ConcludeKeepsActions(tx: Db, a: Action, c: Checkpoint, b: Binding)
    ensures Conclude(tx, a, c, b).Some? ==> Conclude(tx, a, c, b).value.actions == tx.actions
  {
  }

  lemma LastStep(g: Digests, s: State)
    ensures TakeAll(g, s, []) == s
  {
  }

  lemma RunFrom(g: Digests, s: State, steps: seq<Step>)
    requires steps != []
    ensures TakeAll(g, s, steps) == TakeAll(g, Take(g, s, steps[0]), steps[1..])
  {
  }

  lemma {:induction false} IdleStays(g: Digests, s: State, steps: seq<Step>)
    requires s.calls == map[] && s.writer.None?
    requires forall i :: 0 <= i < |steps| ==> !steps[i].Start? && !steps[i].Outside? && !steps[i].Elsewhere?
    ensures TakeAll(g, s, steps) == s
    decreases |steps|
  {
    if steps != [] { IdleStays(g, s, steps[1..]); }
  }

  /** The call once its action is inserted. */
  function Begun(run: Reconciled, q: Request, c: Checkpoint, b: Binding, tx: Db): Call {
    Call(run, q, c, b, if WritesFile(c) then Prepared(tx) else Ready(tx))
  }

  lemma BoundHasSurface(g: Digests, db: Db, w: World, run: Reconciled, q: Request)
    requires Bind(g, db, w, run, q).Some?
    ensures "filesystem" in run.discrepancies && q.path.Some? && q.replacement.Some?
    ensures Bind(g, db, w, run, q).value.postHash == g.content(q.replacement.value)
  {
  }

  /** The first two steps: nothing happens unless the call is bound and its action inserted. */
  lemma FirstSteps(g: Digests, db: Db, w: World, run: Reconciled, q: Request, c: Checkpoint, f: Faults)
    requires FindOperation(db.actions, q.operation).None?
    ensures var t := TakeAll(g, Idle(db, w), CallSteps(run, q, c, f));
      var b := Bind(g, db, w, run, q);
      if b.None? then t == Idle(db, w)
      else
        && "filesystem" in run.discrepancies
        && var tx := InsertAction(db, NewAction(g, db, run, q, b.value));
           t == if tx.None? then Idle(db, w)
                else TakeAll(g, Alone(db, w, Begun(run, q, c, b.value, tx.value)), FinalSteps(f))
  {
    hide Take, Bind, InsertAction, NewAction, TakeAll;
    var s, steps := Idle(db, w), CallSteps(run, q, c, f);
    Started(g, s, run, q, c);
    RunFrom(g, s, steps);
    s := Take(g, s, steps[0]);
    var b := Bind(g, db, w, run, q);
    if b.None? {
      IdleStays(g, s, steps[1..]);
    } else {
      BoundHasSurface(g, db, w, run, q);
      ActionTaken(g, s, Call(run, q, c, b.value, Waiting));
      RunFrom(g, s, steps[1..]);
      s := Take(g, s, steps[1]);
      assert steps[1..][1..] == FinalSteps(f);
      if InsertAction(db, NewAction(g, db, run, q, b.value)).None? { IdleStays(g, s, FinalSteps(f)); }
    }
  }
}
