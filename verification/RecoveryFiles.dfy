/** What recoveries do to the files, over whole runs. */
module RecoveryFiles {
  import opened Options
  import opened Ledger
  import opened Recovery

  // Contents

  /** The call created this inode and still writes to it. */
  ghost predicate Owned(s: State, i: nat) {
    exists id :: id in s.calls && (s.calls[id].phase.Created? || s.calls[id].phase.Written?)
      && s.calls[id].phase.inode == i
  }

  /** A file that no call has created itself. */
  ghost predicate Settled(s: State, i: nat) { i in s.world.contents && i < s.world.next && !Owned(s, i) }

  ghost predicate LeavesAlone(s: State, step: Step, i: nat) {
    step.Outside? ==> i in step.world.contents && i in s.world.contents && step.world.contents[i] == s.world.contents[i]
  }

  /** Ownership begins only with the creation of a new inode. */
  lemma OwnershipBegins(g: Digests, s: State, step: Step, i: nat)
    requires Owned(Take(g, s, step), i) && !Owned(s, i)
    ensures i == s.world.next && step.Create?
  {
    hide Conclude, Bind, InsertAction, Insert, NewAction, Observe;
    var t := Take(g, s, step);
    var id :| id in t.calls && (t.calls[id].phase.Created? || t.calls[id].phase.Written?)
      && t.calls[id].phase.inode == i;
    assert !(id in s.calls && (s.calls[id].phase.Created? || s.calls[id].phase.Written?)
      && s.calls[id].phase.inode == i);
  }

  lemma FileUntouchedByStep(g: Digests, s: State, step: Step, i: nat)
    requires Legal(s, step) && Settled(s, i) && LeavesAlone(s, step, i)
    ensures var t := Take(g, s, step); Settled(t, i) && t.world.contents[i] == s.world.contents[i]
  {
    hide Conclude, Bind, InsertAction, Insert, NewAction, Observe;
    if Owned(Take(g, s, step), i) { OwnershipBegins(g, s, step, i); }
    if step.Write? && step.call in s.calls && s.calls[step.call].phase.Created? {
      assert Owned(s, s.calls[step.call].phase.inode);
    }
  }

  ghost predicate AllLeaveAlone(g: Digests, s: State, steps: seq<Step>, i: nat)
    decreases |steps|
  {
    steps != [] ==> LeavesAlone(s, steps[0], i) && AllLeaveAlone(g, Take(g, s, steps[0]), steps[1..], i)
  }

  /** Recovery never changes the bytes of an existing file: over any run, a file
    that the others leave alone keeps its bytes, whatever calls and crashes do. */
  lemma {:induction false} FilesAreNeverOverwritten(g: Digests, s: State, steps: seq<Step>, i: nat)
    requires StateOk(g, s) && AllLegal(g, s, steps) && Settled(s, i) && AllLeaveAlone(g, s, steps, i)
    ensures var t := TakeAll(g, s, steps); i in t.world.contents && t.world.contents[i] == s.world.contents[i]
    decreases |steps|
  {
    hide StateOk, Settled, LeavesAlone, Legal;
    if steps == [] {
      assert i in s.world.contents by { SettledExists(s, i); }
    } else {
      StepKeeps(g, s, steps[0]);
      FileUntouchedByStep(g, s, steps[0], i);
      SettledExists(s, i);
      FilesAreNeverOverwritten(g, Take(g, s, steps[0]), steps[1..], i);
    }
  }

  lemma SettledExists(s: State, i: nat)
    requires Settled(s, i)
    ensures i in s.world.contents
  {
  }

  /** A name that leads somewhere is not rebound by any step of a call. */
  lemma NamesAreNeverRebound(g: Digests, s: State, step: Step, p: string)
    requires p in s.world.names && !step.Outside?
    ensures var w := Take(g, s, step).world; p in w.names && w.names[p] == s.world.names[p]
  {
    hide Conclude, Bind, InsertAction, Insert;
  }

  // File effects

  /** The step creates `p` for a call that recovers it. */
  predicate IsEffectOn(g: Digests, s: State, step: Step, p: string) {
    && step.Create? && step.call in s.calls && s.calls[step.call].phase.Prepared?
    && s.calls[step.call].request.path == Some(p)
    && step.call in Take(g, s, step).calls && Take(g, s, step).calls[step.call].phase.Created?
  }

  /** Someone else takes the name away. */
  predicate IsRemoval(s: State, step: Step, p: string) {
    step.Outside? && p in s.world.names && p !in step.world.names
  }

  function Effects(g: Digests, s: State, steps: seq<Step>, p: string): nat
    decreases |steps|
  {
    if steps == [] then 0
    else (if IsEffectOn(g, s, steps[0], p) then 1 else 0) + Effects(g, Take(g, s, steps[0]), steps[1..], p)
  }

  function Removals(g: Digests, s: State, steps: seq<Step>, p: string): nat
    decreases |steps|
  {
    if steps == [] then 0
    else (if IsRemoval(s, steps[0], p) then 1 else 0) + Removals(g, Take(g, s, steps[0]), steps[1..], p)
  }

  /** An effect takes a name that nothing had. */
  lemma EffectTakesName(g: Digests, s: State, step: Step, p: string)
    requires IsEffectOn(g, s, step, p)
    ensures p !in s.world.names && p in Take(g, s, step).world.names
  {
  }

  /** The file effect happens at most once, plus once for every time someone else
    removes the file again, however often recovery is called or crashes, and not
    at all on a file that is there and stays. */
  lemma {:induction false} CreatedAtMostOnce(g: Digests, s: State, steps: seq<Step>, p: string)
    ensures Effects(g, s, steps, p) + (if p in s.world.names then 1 else 0) <= Removals(g, s, steps, p) + 1
    decreases |steps|
  {
    hide Take, IsEffectOn;
    if steps != [] {
      var t := Take(g, s, steps[0]);
      CreatedAtMostOnce(g, t, steps[1..], p);
      if IsEffectOn(g, s, steps[0], p) {
        EffectTakesName(g, s, steps[0], p);
        NoRemoval(g, s, steps[0], p);
      } else if p in s.world.names {
        NameStays(g, s, steps[0], p);
      }
    }
  }

  lemma NoRemoval(g: Digests, s: State, step: Step, p: string)
    requires IsEffectOn(g, s, step, p)
    ensures !IsRemoval(s, step, p)
  {
  }

  lemma NameStays(g: Digests, s: State, step: Step, p: string)
    requires p in s.world.names
    ensures p in Take(g, s, step).world.names || IsRemoval(s, step, p)
  {
    if !step.Outside? { NamesAreNeverRebound(g, s, step, p); }
  }

  // A name that is taken

  /** Creating the target goes on exactly when its name is free. */
  lemma CreateGoesOnExactly(g: Digests, s: State, call: nat)
    requires StateOk(g, s) && call in s.calls && s.calls[call].phase.Prepared?
    ensures var t := Take(g, s, Create(call, false));
      && s.calls[call].request.path.Some?
      && (call in t.calls && t.calls[call].phase.Created? <==> s.calls[call].request.path.value !in s.world.names)
      && (call in t.calls || (t.db == s.db && t.world == s.world))
  {
    hide Invariant, Completed, NewAction, AcceptsAction;
    assert CallOk(g, s, call);
  }

  /** A call is ready to commit exactly when its name can be read and what stands under
    it by then has the intended digest. */
  lemma CheckGoesOnExactly(g: Digests, s: State, call: nat)
    requires StateOk(g, s) && call in s.calls && s.calls[call].phase.Written?
    ensures var t, c := Take(g, s, Check(call, false)), s.calls[call];
      && c.request.path.Some? && t.db == s.db && t.world == s.world
      && var p := c.request.path.value;
         call in t.calls && t.calls[call].phase.Ready? <==>
           && p in s.world.names && p !in s.world.unreadable && s.world.names[p] in s.world.contents
           && g.content(s.world.contents[s.world.names[p]]) == c.binding.postHash
  {
    hide Invariant, Completed, NewAction, AcceptsAction;
    assert CallOk(g, s, call);
  }

  /** A call that writes the file `p`. */
  predicate Writes(c: Call, p: string) { c.request.path == Some(p) && WritesFile(c.checkpoint) }

  /** The name is taken, and no call that writes it has come to its effect. */
  ghost predicate Blocked(s: State, p: string) {
    && p in s.world.names
    && (forall id :: id in s.calls && Writes(s.calls[id], p) ==>
          s.calls[id].phase.Waiting? || s.calls[id].phase.Prepared?)
  }

  ghost predicate NeverRemoved(g: Digests, s: State, steps: seq<Step>, p: string)
    decreases |steps|
  {
    steps != [] ==> !IsRemoval(s, steps[0], p) && NeverRemoved(g, Take(g, s, steps[0]), steps[1..], p)
  }

  lemma StaysBlocked(g: Digests, s: State, step: Step, p: string)
    requires Blocked(s, p) && !IsRemoval(s, step, p)
    ensures Blocked(Take(g, s, step), p)
  {
    hide Conclude, Bind, InsertAction, Insert, NewAction, Observe;
    NameStays(g, s, step, p);
  }

  lemma {:induction false} RunsStayBlocked(g: Digests, s: State, steps: seq<Step>, p: string)
    requires Blocked(s, p) && NeverRemoved(g, s, steps, p)
    ensures Blocked(TakeAll(g, s, steps), p)
    decreases |steps|
  {
    hide Blocked, Take, IsRemoval;
    if steps != [] {
      StaysBlocked(g, s, steps[0], p);
      RunsStayBlocked(g, Take(g, s, steps[0]), steps[1..], p);
    }
  }

  /** While a name is taken and stays so, no call that writes it ever commits: in
    every state of every run, a commit of such a call changes nothing in the ledger. */
  lemma TakenNameNeverCommits(g: Digests, s: State, steps: seq<Step>, p: string, call: nat)
    requires Blocked(s, p) && NeverRemoved(g, s, steps, p)
    requires call in TakeAll(g, s, steps).calls && Writes(TakeAll(g, s, steps).calls[call], p)
    ensures var t := TakeAll(g, s, steps); !t.calls[call].phase.Ready? && Take(g, t, Commit(call)) == t
  {
    hide Conclude, TakeAll;
    RunsStayBlocked(g, s, steps, p);
  }

  // A crash behind the effect

  const CRASH_LEDGER := Db(
    [Run(1, "s", 0, "blocked", "native")],
    [Discrepancy(1, 1, "s", "native", None, None, "filesystem", "t", 0, "filesystem")], [], [])

  const CRASH_WORLD := World(map[], map[], {}, map["p" := "t"], {"p"}, 0)

  const CRASH_RUN := Reconciled(false, "blocked", ["filesystem"], map["filesystem" := 1], 1, "s", "native")

  const CRASH_REQUEST := Request("o", Some("p"), Some([1]), "a", "b")

  function CrashStart(): State { State(CRASH_LEDGER, CRASH_WORLD, map[], None) }

  /** One call, up to its file effect, and then a crash. */
  function Crash(): seq<Step> {
    [Start(0, CRASH_RUN, CRASH_REQUEST, BeforePrepareCommit), Begin(0), Create(0, false), Write(0, 1, false),
      Abandon(0)]
  }

  /** The same request again. */
  function Again(c: Checkpoint): seq<Step> {
    [Start(1, CRASH_RUN, CRASH_REQUEST, c), Begin(1), Create(1, false), Commit(1)]
  }

  lemma EmptyLedgerOk()
    ensures Invariant(EMPTY)
  {
  }

  lemma CrashStartOk(g: Digests)
    ensures StateOk(g, CrashStart())
  {
    var r, d := CRASH_LEDGER.runs[0], CRASH_LEDGER.discrepancies[0];
    EmptyLedgerOk();
    hide Invariant;
    InsertKeepsInvariant(EMPTY, RunRow(r));
    var db := EMPTY.(runs := EMPTY.runs + [r]);
    assert r in db.runs;
    InsertKeepsInvariant(db, DiscrepancyRow(d));
    hide Insert;
    assert CRASH_LEDGER == db.(discrepancies := db.discrepancies + [d]);
  }

  /** The request is bound, whether or not the file is there. */
  lemma CrashBinds(g: Digests, w: World)
    requires w.targets == CRASH_WORLD.targets && w.safe == CRASH_WORLD.safe
    ensures var b := Bind(g, CRASH_LEDGER, w, CRASH_RUN, CRASH_REQUEST);
      b.Some? && b.value.observation == 0 && b.value.lineage == "native" && b.value.scope == "s"
  {
    var r, d := CRASH_LEDGER.runs[0], CRASH_LEDGER.discrepancies[0];
    assert Persisted(CRASH_LEDGER, CRASH_RUN, 1, r, d);
    assert FindDiscrepancy(CRASH_LEDGER, CRASH_RUN, 1, CRASH_LEDGER.discrepancies) == Some(d);
    hide FindDiscrepancy, Observe;
  }

  lemma CrashActionIsAccepted(g: Digests, b: Binding)
    requires b.lineage == "native" && b.scope == "s"
    ensures InsertAction(CRASH_LEDGER, NewAction(g, CRASH_LEDGER, CRASH_RUN, CRASH_REQUEST, b)).Some?
  {
    var r, d := CRASH_LEDGER.runs[0], CRASH_LEDGER.discrepancies[0];
    assert r in CRASH_LEDGER.runs && d in CRASH_LEDGER.discrepancies;
  }

  /** Starting and beginning the request in the ledger as it was. */
  lemma CrashBegins(g: Digests, s: State, call: nat, c: Checkpoint)
    requires s.db == CRASH_LEDGER && s.calls == map[] && s.writer.None?
    requires s.world.targets == CRASH_WORLD.targets && s.world.safe == CRASH_WORLD.safe
    ensures var t := Take(g, Take(g, s, Start(call, CRASH_RUN, CRASH_REQUEST, c)), Begin(call));
      && t.db == s.db && t.world == s.world && t.calls.Keys == {call} && t.writer == Some(call)
      && t.calls[call].request == CRASH_REQUEST && t.calls[call].checkpoint == c
      && t.calls[call].binding.observation == 0
      && (if WritesFile(c) then t.calls[call].phase.Prepared? else t.calls[call].phase.Ready?)
  {
    hide Bind, InsertAction, NewAction;
    CrashBinds(g, s.world);
    CrashActionIsAccepted(g, Bind(g, s.db, s.world, CRASH_RUN, CRASH_REQUEST).value);
  }

  /** A crash behind the file effect leaves the name taken. The same request, sent
    again to write the file, ends with nothing in the ledger; sent with a
    checkpoint before the effect, it commits although the name is taken. */
  lemma CrashTakesTheName(g: Digests)
    ensures var t := TakeAll(g, CrashStart(), Crash());
      && t.db == CRASH_LEDGER && t.calls == map[] && Blocked(t, "p")
      && TakeAll(g, t, Again(BeforePrepareCommit)).db == CRASH_LEDGER
      && |TakeAll(g, t, Again(AfterPrepare)).db.actions| == 1
  {
    hide TakeAll, StateOk, Again, Crash, CrashStart;
    CrashLeaves(g);
    CrashStaysOk(g);
    var t := TakeAll(g, CrashStart(), Crash());
    AgainWrites(g, t);
    AgainSkips(g, t);
  }

  lemma CrashStaysOk(g: Digests)
    ensures StateOk(g, TakeAll(g, CrashStart(), Crash()))
  {
    CrashStartOk(g);
    NoOutsideIsLegal(g, CrashStart(), Crash());
    hide TakeAll, StateOk, AllLegal, Crash, CrashStart;
    RunKeeps(g, CrashStart(), Crash());
  }

  lemma TwoSteps(g: Digests, s: State, steps: seq<Step>)
    requires |steps| == 2
    ensures TakeAll(g, s, steps) == Take(g, Take(g, s, steps[0]), steps[1])
  {
    hide Take;
    var t := Take(g, s, steps[0]);
    assert TakeAll(g, s, steps) == TakeAll(g, t, steps[1..]);
    assert steps[1..][1..] == [];
    assert TakeAll(g, t, steps[1..]) == TakeAll(g, Take(g, t, steps[1]), []);
  }

  lemma FourSteps(g: Digests, s: State, steps: seq<Step>)
    requires |steps| == 4
    ensures TakeAll(g, s, steps) == Take(g, Take(g, Take(g, Take(g, s, steps[0]), steps[1]), steps[2]), steps[3])
  {
    hide Take;
    var t := Take(g, s, steps[0]);
    assert TakeAll(g, s, steps) == TakeAll(g, t, steps[1..]);
    assert TakeAll(g, t, steps[1..]) == TakeAll(g, Take(g, t, steps[1]), steps[1..][1..]);
    TwoSteps(g, Take(g, t, steps[1]), steps[1..][1..]);
  }

  lemma FiveSteps(g: Digests, s: State, steps: seq<Step>)
    requires |steps| == 5
    ensures TakeAll(g, s, steps)
      == Take(g, Take(g, Take(g, Take(g, Take(g, s, steps[0]), steps[1]), steps[2]), steps[3]), steps[4])
  {
    hide Take;
    FourSteps(g, Take(g, s, steps[0]), steps[1..]);
  }

  lemma {:induction false} NoOutsideIsLegal(g: Digests, s: State, steps: seq<Step>)
    requires forall i :: 0 <= i < |steps| ==> !steps[i].Outside?
    ensures AllLegal(g, s, steps)
    decreases |steps|
  {
    hide Take;
    if steps != [] { NoOutsideIsLegal(g, Take(g, s, steps[0]), steps[1..]); }
  }

  lemma CrashLeaves(g: Digests)
    ensures var t := TakeAll(g, CrashStart(), Crash());
      && t.db == CRASH_LEDGER && t.world.targets == CRASH_WORLD.targets && t.world.safe == CRASH_WORLD.safe
      && "p" in t.world.names && t.calls == map[] && t.writer.None?
  {
    hide Take, TakeAll;
    var s, steps := CrashStart(), Crash();
    FiveSteps(g, s, steps);
    CrashBegins(g, s, 0, BeforePrepareCommit);
    CrashWrites(g, Take(g, Take(g, s, steps[0]), steps[1]));
  }

  lemma CrashWrites(g: Digests, s: State)
    requires s.calls.Keys == {0} && s.calls[0].phase.Prepared? && s.calls[0].request == CRASH_REQUEST
    requires s.world == CRASH_WORLD && s.writer == Some(0)
    ensures var t := Take(g, Take(g, Take(g, s, Create(0, false)), Write(0, 1, false)), Abandon(0));
      && t.db == s.db && t.world.targets == s.world.targets && t.world.safe == s.world.safe
      && "p" in t.world.names && t.calls == map[] && t.writer.None?
  {
    var t := Take(g, s, Create(0, false));
    assert t.calls.Keys == {0} && t.calls[0].phase.Created? && t.writer == Some(0) && "p" in t.world.names;
    assert t.db == s.db && t.world.targets == s.world.targets && t.world.safe == s.world.safe;
    WriteThenCrash(g, t);
    hide Take;
  }

  lemma WriteThenCrash(g: Digests, s: State)
    requires s.calls.Keys == {0} && s.calls[0].phase.Created? && s.writer == Some(0)
    ensures var t := Take(g, Take(g, s, Write(0, 1, false)), Abandon(0));
      && t.db == s.db && t.world.targets == s.world.targets && t.world.safe == s.world.safe
      && t.world.names == s.world.names && t.calls == map[] && t.writer.None?
  {
  }

  /** With a checkpoint that writes the file. */
  lemma AgainWrites(g: Digests, s: State)
    requires s.db == CRASH_LEDGER && s.calls == map[] && s.writer.None? && "p" in s.world.names
    requires s.world.targets == CRASH_WORLD.targets && s.world.safe == CRASH_WORLD.safe
    ensures TakeAll(g, s, Again(BeforePrepareCommit)).db == CRASH_LEDGER
  {
    hide Bind, InsertAction, NewAction, Conclude, DoStart, DoBegin, DoWrite, DoCheck, Insert, TakeAll;
    FourSteps(g, s, Again(BeforePrepareCommit));
    CrashBegins(g, s, 1, BeforePrepareCommit);
  }

  /** With a checkpoint before the effect. */
  lemma AgainSkips(g: Digests, s: State)
    requires s.db == CRASH_LEDGER && s.calls == map[] && s.writer.None? && StateOk(g, s)
    requires s.world.targets == CRASH_WORLD.targets && s.world.safe == CRASH_WORLD.safe
    ensures |TakeAll(g, s, Again(AfterPrepare)).db.actions| == 1
  {
    hide StateOk, Conclude, NewAction, TakeAll;
    hide Take;
    var steps := Again(AfterPrepare);
    FourSteps(g, s, steps);
    CrashBegins(g, s, 1, AfterPrepare);
    StepKeeps(g, s, steps[0]);
    StepKeeps(g, Take(g, s, steps[0]), steps[1]);
    SkipCommits(g, Take(g, Take(g, s, steps[0]), steps[1]));
  }

  lemma SkipCommits(g: Digests, s: State)
    requires StateOk(g, s) && s.db == CRASH_LEDGER && 1 in s.calls && s.calls[1].phase.Ready?
    requires s.calls[1].binding.observation == 0
    ensures |Take(g, Take(g, s, Create(1, false)), Commit(1)).db.actions| == 1
  {
    hide StateOk, DoStart, DoBegin, DoWrite, DoCheck, DoCommit, Insert, Dropped, NewAction, History;
    hide Invariant, Completed, Conclude;
    CommitAdds(g, s, 1);
  }
}
