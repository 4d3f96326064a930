/** The store whose method runs one recovery from beginning to end. */
module RecoveryStore {
  import opened Options
  import opened Bytes
  import opened Ledger
  import opened Recovery
  import opened RecoveryCalls
  import opened RecoveryOutcomes

  datatype Reply = Status(result: Result) | Refused

  class Store {
    const digests: Digests
    var db: Db
    var world: World

    constructor (digests: Digests, db: Db, world: World)
      ensures this.digests == digests && this.db == db && this.world == world
    {
      this.digests := digests;
      this.db := db;
      this.world := world;
    }

    method WriteTarget(path: string, all: seq<byte>, hash: string, f: Faults) returns (ok: bool)
      modifies this`world
      ensures (world, ok) == FileEffect(digests, old(world), path, all, hash, f)
    {
      if f.open || path in world.names {
        return false;
      }
      var inode := world.next;
      world := world.(names := world.names[path := inode], contents := world.contents[inode := []],
                      unreadable := world.unreadable - {path}, next := inode + 1);
      var n := if f.reached < |all| then f.reached else |all|;
      world := world.(contents := world.contents[inode := all[..n]]);
      assert world.contents == old(world).contents[inode := all[..n]];
      if f.write || n < |all| {
        return false;
      }
      var seen := Observe(digests, world, path);
      ok := !f.check && seen.Some? && seen.value.1 == hash;
    }

    /** `recover_with_checkpoint`. A recorded operation is answered from the ledger
      and changes nothing. Otherwise the ledger and the files end as the machine's
      steps of one call leave them. A status is returned just when the call may
      commit; it is the result in the second row of the action that was recorded. */
    method Recover(run: Reconciled, q: Request, c: Checkpoint, f: Faults) returns (r: Reply)
      modifies this
      ensures var found := FindOperation(old(db).actions, q.operation);
        found.Some? ==>
          var replayed := Replay(digests, old(db), old(world), run, q, found.value);
          && db == old(db) && world == old(world)
          && r == if replayed.Some? then Status(replayed.value) else Refused
      ensures FindOperation(old(db).actions, q.operation).None? ==>
        Idle(db, world) == TakeAll(digests, Idle(old(db), old(world)), CallSteps(run, q, c, f))
      ensures FindOperation(old(db).actions, q.operation).None? && Invariant(old(db)) ==>
        Performed(digests, old(db), old(world), run, q, c, f, db, world, if r.Status? then Some(r.result) else None)
    {
      hide Bind, InsertAction, NewAction, TakeAll, FinalSteps, EffectOf, TerminalOf, Performed, Invariant, Replay;
      hide FindOperation;
      var found := FindOperation(db.actions, q.operation);
      if found.Some? {
        var replayed := Replay(digests, db, world, run, q, found.value);
        return if replayed.Some? then Status(replayed.value) else Refused;
      }
      if Invariant(db) { CallPerforms(digests, db, world, run, q, c, f); }
      FirstSteps(digests, db, world, run, q, c, f);
      var bound := Bind(digests, db, world, run, q);
      if bound.None? {
        return Refused;
      }
      var a := NewAction(digests, db, run, q, bound.value);
      var prepared := InsertAction(db, a);
      if prepared.None? {
        return Refused;
      }
      BoundHasSurface(digests, db, world, run, q);
      ActionInserted(db, a);
      var committed := Complete(Begun(run, q, c, bound.value, prepared.value), f);
      r := if committed then Status(TerminalOf(EffectOf(c))) else Refused;
    }

    /** The rest of a call once its action is inserted: the file effect, the two outcomes, the commit. */
    method Complete(call: Call, f: Faults) returns (committed: bool)
      requires if WritesFile(call.checkpoint) then call.phase.Prepared? else call.phase.Ready?
      requires call.request.path.Some? && call.request.replacement.Some?
      requires |call.phase.tx.actions| > |db.actions|
      modifies this
      ensures Idle(db, world) == TakeAll(digests, Alone(old(db), old(world), call), FinalSteps(f))
      ensures committed <==> db != old(db)
    {
      hide Take, Conclude, TakeAll, FileEffect, Observe;
      ghost var g, steps := digests, FinalSteps(f);
      var tx, q := call.phase.tx, call.request;
      if WritesFile(call.checkpoint) {
        FileSteps(g, Alone(db, world, call), call, f, steps);
        var written := WriteTarget(q.path.value, q.replacement.value, call.binding.postHash, f);
        if !written {
          return false;
        }
      } else {
        NothingToWrite(g, Alone(db, world, call), f);
      }
      ghost var s := Alone(db, world, call.(phase := Ready(tx)));
      CommittedOne(g, s, call.(phase := Ready(tx)));
      RunFrom(g, s, [Commit(0)]);
      assert [Commit(0)][1..] == [];
      LastStep(g, Take(g, s, Commit(0)));
      var a := tx.actions[|tx.actions| - 1];
      var done := Conclude(tx, a, call.checkpoint, call.binding);
      ConcludeKeepsActions(tx, a, call.checkpoint, call.binding);
      if done.None? {
        return false;
      }
      db := done.value;
      committed := true;
    }
  }
}
