/** What authority and evidence mean over whole runs. */
module ReplayTheorems {
  import opened Options
  import opened Encoding
  import opened Replay

  // Authority

  /** Whoever reads an authoritative projection reads the output of the present
    log, and its generation is that of the present log. */
  lemma AuthoritativeIsCurrent(rules: Rules, s: State, id: string)
    requires StateOk(rules, s)
    ensures var row := Read(rules, s, id).1;
      row.Some? && row.value.authoritative ==>
        && row.value.status == Complete && row.value.schema == 1
        && row.value.generation == row.value.source == Generation(rules, s.events)
        && Payload(rules, s.events) == Some(row.value.payload)
  {
    hide Generation, Payload;
    if id in s.projections { assert RowOk(rules, s, id); }
  }

  /** The row that a successful rebuild leaves. */
  function Fresh(rules: Rules, s: State): Row
    requires Payload(rules, s.events).Some?
  {
    var generation := Generation(rules, s.events);
    Row(1, generation, generation, true, Complete, Payload(rules, s.events).value)
  }

  predicate IsFresh(rules: Rules, s: State, id: string) {
    Payload(rules, s.events).Some? && id in s.projections && s.projections[id] == Fresh(rules, s)
  }

  /** The operation neither appends to the log nor asks for a projection of
    another schema. */
  predicate Spares(op: Op, id: string) {
    !op.DoAppend? && (op.DoRebuild? && op.id == id ==> op.schema == 1)
  }

  lemma FreshIsRead(rules: Rules, s: State, id: string)
    requires IsFresh(rules, s, id)
    ensures Read(rules, s, id) == (s, Some(Fresh(rules, s))) && Check(rules, s, id) == (s, Complete)
  {
    hide Generation, Payload;
  }

  lemma RebuildIsFresh(rules: Rules, s: State, id: string)
    requires Succeeds(rules, s, 1)
    ensures var (u, row) := Rebuild(rules, s, id, 1);
      IsFresh(rules, u, id) && u.events == s.events && row == Some(Fresh(rules, u))
  {
    hide Generation, Payload;
  }

  lemma StaysFresh(rules: Rules, s: State, id: string, op: Op)
    requires IsFresh(rules, s, id) && Spares(op, id)
    ensures IsFresh(rules, Do(rules, s, op), id)
  {
    hide Generation, Payload, IsExact, Selected, Verdict;
    SameLog(rules, s, op);
    FreshIsRead(rules, s, id);
    if op.DoRebuild? && op.id == id { RebuildIsFresh(rules, s, id); }
  }

  /** After a successful rebuild every read is complete until the next append,
    and so is every status check. */
  lemma {:induction false} CompleteUntilAppend(rules: Rules, s: State, id: string, ops: seq<Op>)
    requires Succeeds(rules, s, 1) && forall i :: 0 <= i < |ops| ==> Spares(ops[i], id)
    ensures var u := DoAll(rules, Rebuild(rules, s, id, 1).0, ops);
      && u.events == s.events
      && Read(rules, u, id) == (u, Some(Fresh(rules, u))) && Check(rules, u, id) == (u, Complete)
  {
    RebuildIsFresh(rules, s, id);
    FreshRuns(rules, Rebuild(rules, s, id, 1).0, id, ops);
    FreshIsRead(rules, DoAll(rules, Rebuild(rules, s, id, 1).0, ops), id);
  }

  lemma {:induction false} FreshRuns(rules: Rules, s: State, id: string, ops: seq<Op>)
    requires IsFresh(rules, s, id) && forall i :: 0 <= i < |ops| ==> Spares(ops[i], id)
    ensures IsFresh(rules, DoAll(rules, s, ops), id) && DoAll(rules, s, ops).events == s.events
    decreases |ops|
  {
    hide IsFresh, Do;
    if ops != [] {
      StaysFresh(rules, s, id, ops[0]);
      SameLog(rules, s, ops[0]);
      FreshRuns(rules, Do(rules, s, ops[0]), id, ops[1..]);
    }
  }

  // Collisions

  ghost predicate NoCollision(rules: Rules, a: seq<Event>, b: seq<Event>) {
    rules.digest(History(a)) == rules.digest(History(b)) ==> History(a) == History(b)
  }

  /** The digest tells the encodings of the log's beginnings apart. */
  ghost predicate CollisionFree(rules: Rules, events: seq<Event>) {
    && AllRepresentable(events)
    && forall i, j :: 0 <= i < j <= |events| ==> NoCollision(rules, events[..i], events[..j])
  }

  /** Then no two beginnings share a generation: the encoding adds no confusion. */
  lemma GenerationsDiffer(rules: Rules, events: seq<Event>, i: nat, j: nat)
    requires CollisionFree(rules, events) && i < j <= |events|
    ensures Generation(rules, events[..i]) != Generation(rules, events[..j])
  {
    assert NoCollision(rules, events[..i], events[..j]);
    var a, b := events[..i], events[..j];
    assert |a| == i && |b| == j;
    if Generation(rules, a) == Generation(rules, b) { HistoryInjective(a, b); }
  }

  /** Without authority, or with that of an earlier log. */
  ghost predicate Outdated(rules: Rules, s: State, id: string) {
    id in s.projections && s.projections[id].authoritative ==>
      exists k :: 0 <= k < |s.events| && s.projections[id].generation == Generation(rules, s.events[..k])
  }

  lemma AppendOutdates(rules: Rules, s: State, e: Event, id: string)
    requires StateOk(rules, s) && Append(s, e).1.None?
    ensures Outdated(rules, Append(s, e).0, id)
  {
    hide Generation, Payload;
    var u := Append(s, e).0;
    if id in s.projections {
      assert RowOk(rules, s, id);
      var k: nat :| Remembers(rules, s.events, s.projections[id], k);
      assert u.events[..k] == s.events[..k];
    }
  }

  lemma OutdatedIsNotRead(rules: Rules, s: State, id: string)
    requires Outdated(rules, s, id) && CollisionFree(rules, s.events)
    ensures Read(rules, s, id).1.Some? ==> !Read(rules, s, id).1.value.authoritative
  {
    hide CollisionFree;
    if id in s.projections && s.projections[id].authoritative {
      var k :| 0 <= k < |s.events| && s.projections[id].generation == Generation(rules, s.events[..k]);
      GenerationsDiffer(rules, s.events, k, |s.events|);
      assert s.events[..|s.events|] == s.events;
    }
  }

  predicate Restores(rules: Rules, s: State, op: Op, id: string) {
    op.DoRebuild? && op.id == id && Succeeds(rules, s, op.schema)
  }

  lemma StaysOutdated(rules: Rules, s: State, op: Op, id: string)
    requires Outdated(rules, s, id) && !Restores(rules, s, op, id)
    ensures Outdated(rules, Do(rules, s, op), id)
  {
    hide Generation, Restores, Do;
    var u := Do(rules, s, op);
    GrowsOrStays(rules, s, op);
    SameRowOrNoAuthority(rules, s, op, id);
    if id in u.projections && u.projections[id].authoritative {
      var k :| 0 <= k < |s.events| && s.projections[id].generation == Generation(rules, s.events[..k]);
      assert u.events[..k] == s.events[..k];
    }
  }

  lemma GrowsOrStays(rules: Rules, s: State, op: Op)
    ensures s.events <= Do(rules, s, op).events
  {
    if !op.DoAppend? { SameLog(rules, s, op); }
  }

  predicate NoNewAuthority(s: State, u: State, id: string) {
    id in u.projections && u.projections[id].authoritative ==>
      id in s.projections && s.projections[id] == u.projections[id]
  }

  lemma ReadGivesNone(rules: Rules, s: State, other: string, id: string)
    ensures NoNewAuthority(s, Read(rules, s, other).0, id)
  {
    hide Verdict;
  }

  lemma CheckGivesNone(rules: Rules, s: State, other: string, id: string)
    ensures NoNewAuthority(s, Check(rules, s, other).0, id)
  {
    hide Generation, Payload, Read;
    ReadGivesNone(rules, s, other, id);
  }

  lemma RebuildGivesNone(rules: Rules, s: State, other: string, schema: int, id: string)
    requires other != id || !Succeeds(rules, s, schema)
    ensures NoNewAuthority(s, Rebuild(rules, s, other, schema).0, id)
  {
    hide Generation, Payload, Read;
    ReadGivesNone(rules, Rebuilt(rules, s, other, schema), other, id);
  }

  /** Only a successful rebuild makes a row authoritative. */
  lemma SameRowOrNoAuthority(rules: Rules, s: State, op: Op, id: string)
    requires !Restores(rules, s, op, id)
    ensures NoNewAuthority(s, Do(rules, s, op), id)
  {
    hide Generation, Payload, IsExact, Selected, Read, Check, Rebuild;
    match op
    case DoRebuild(other, schema) => RebuildGivesNone(rules, s, other, schema, id);
    case DoRead(other) => ReadGivesNone(rules, s, other, id);
    case DoCheck(other) => CheckGivesNone(rules, s, other, id);
    case _ =>
  }

  /** The run never rebuilds the projection with success. */
  ghost predicate NeverRestores(rules: Rules, s: State, ops: seq<Op>, id: string)
    decreases |ops|
  {
    ops != [] ==> !Restores(rules, s, ops[0], id) && NeverRestores(rules, Do(rules, s, ops[0]), ops[1..], id)
  }

  lemma {:induction false} RunsStayOutdated(rules: Rules, s: State, ops: seq<Op>, id: string)
    requires Outdated(rules, s, id) && NeverRestores(rules, s, ops, id)
    ensures Outdated(rules, DoAll(rules, s, ops), id)
    decreases |ops|
  {
    hide Outdated, Restores, Do;
    if ops != [] {
      StaysOutdated(rules, s, ops[0], id);
      RunsStayOutdated(rules, Do(rules, s, ops[0]), ops[1..], id);
    }
  }

  /** After an append, and whatever else happens, no read of any projection is
    authoritative until a rebuild of it succeeds. */
  lemma NoAuthorityAfterAppend(rules: Rules, s: State, e: Event, ops: seq<Op>, id: string)
    requires StateOk(rules, s) && Append(s, e).1.None?
    requires NeverRestores(rules, Append(s, e).0, ops, id)
    requires CollisionFree(rules, DoAll(rules, Append(s, e).0, ops).events)
    ensures var read := Read(rules, DoAll(rules, Append(s, e).0, ops), id).1; read.Some? ==> !read.value.authoritative
  {
    AppendOutdates(rules, s, e, id);
    RunsStayOutdated(rules, Append(s, e).0, ops, id);
    OutdatedIsNotRead(rules, DoAll(rules, Append(s, e).0, ops), id);
  }

  /** Where a projection row exists, both status tables agree, after every run of a fresh store. */
  lemma TablesAgree(rules: Rules, ops: seq<Op>, id: string)
    ensures var s := DoAll(rules, EMPTY, ops);
      id in s.projections ==>
        && id in s.statuses && s.statuses[id].status == s.projections[id].status
        && s.statuses[id].authoritative == s.projections[id].authoritative
  {
    RunsKeep(rules, EMPTY, ops);
    hide StateOk;
    var s := DoAll(rules, EMPTY, ops);
    if id in s.projections { OkAt(rules, s, id); }
  }

  lemma OkAt(rules: Rules, s: State, id: string)
    requires StateOk(rules, s) && id in s.projections
    ensures RowOk(rules, s, id)
  {
  }

  // Playback

  /** A playback is exact just when its generation is that of a beginning of the
    log, and the claim is that beginning: every transition, input and outcome,
    every outcome derived again. */
  lemma ExactPlaybackIff(rules: Rules, s: State, g: int, ts: seq<string>, ins: seq<string>, outs: seq<string>)
    requires CollisionFree(rules, s.events)
    ensures IsExact(rules, s.events, g, ts, ins, outs) <==>
      && |ts| == |ins| == |outs| <= |s.events| && Generation(rules, s.events[..|ts|]) == g
      && forall i :: 0 <= i < |ts| ==> Replays(rules, s.events[i], ts[i], ins[i], outs[i])
  {
    hide CollisionFree, Replays;
    var n := |ts|;
    var selected := Select(rules, s.events, g, 0);
    if n <= |s.events| && Generation(rules, s.events[..n]) == g {
      if selected.value < n { GenerationsDiffer(rules, s.events, selected.value, n); }
    }
  }

  /** With recorded inputs it is enough that transitions and outcomes match. */
  lemma RecordedInputsMatch(rules: Rules, s: State, id: string, g: int, ts: seq<string>, outs: seq<string>)
    requires id !in s.playbacks
    ensures var selected := Select(rules, s.events, g, 0);
      PlayRecorded(rules, s, id, g, ts, outs).1.value.exact <==>
        && selected.Some? && selected.value == |ts| == |outs|
        && forall i :: 0 <= i < |ts| ==>
          && s.events[i].transition == ts[i] && s.events[i].outcome == Some(outs[i])
          && Derive(rules, ts[i], s.events[i].input) == Some(outs[i])
  {
    hide Generation, Derive;
  }

  /** Evidence is there exactly for the recorded exact playbacks. */
  lemma EvidenceExactly(rules: Rules, s: State, id: string)
    requires StateOk(rules, s)
    ensures Evidence(rules, s, id) <==> id in s.playbacks && s.playbacks[id].exact
  {
    hide Generation;
    if id in s.playbacks {
      assert PlaybackOk(rules, s, id);
    }
  }

  lemma PlaybacksStay(rules: Rules, s: State, op: Op, id: string)
    requires id in s.playbacks
    ensures id in Do(rules, s, op).playbacks && Do(rules, s, op).playbacks[id] == s.playbacks[id]
  {
    hide Generation, Payload, IsExact, Selected, Verdict;
  }

  lemma {:induction false} PlaybacksAreForever(rules: Rules, s: State, ops: seq<Op>, id: string)
    requires id in s.playbacks
    ensures id in DoAll(rules, s, ops).playbacks && DoAll(rules, s, ops).playbacks[id] == s.playbacks[id]
    decreases |ops|
  {
    hide Do;
    if ops != [] {
      PlaybacksStay(rules, s, ops[0], id);
      PlaybacksAreForever(rules, Do(rules, s, ops[0]), ops[1..], id);
    }
  }

  /** What an exact playback proved stays proved, whatever is appended later and
    whether or not generations collide. */
  lemma EvidenceIsDurable(
      rules: Rules, s: State, id: string, g: int, ts: seq<string>, ins: seq<string>, outs: seq<string>, ops: seq<Op>)
    requires StateOk(rules, s) && id !in s.playbacks
    ensures var u := DoAll(rules, Play(rules, s, id, g, ts, ins, outs).0, ops);
      Evidence(rules, u, id) <==> IsExact(rules, s.events, g, ts, ins, outs)
  {
    hide StateOk, IsExact, Evidence, Generation;
    var t := Play(rules, s, id, g, ts, ins, outs).0;
    PlayKeeps(rules, s, id, g, ts, ins, outs);
    RunsKeep(rules, t, ops);
    PlaybacksAreForever(rules, t, ops, id);
    EvidenceExactly(rules, DoAll(rules, t, ops), id);
  }

  /** The run without its simulations. */
  function WithoutSimulations(ops: seq<Op>): seq<Op> {
    if ops == [] then []
    else (if ops[0].DoSimulate? then [] else [ops[0]]) + WithoutSimulations(ops[1..])
  }

  predicate AlikeButSimulations(s: State, u: State) { s.(simulations := u.simulations) == u }

  lemma ReadsAlike(rules: Rules, s: State, u: State, id: string)
    requires AlikeButSimulations(s, u)
    ensures AlikeButSimulations(Read(rules, s, id).0, Read(rules, u, id).0)
      && Read(rules, s, id).1 == Read(rules, u, id).1
  {
    hide Verdict;
  }

  lemma ChecksAlike(rules: Rules, s: State, u: State, id: string)
    requires AlikeButSimulations(s, u)
    ensures AlikeButSimulations(Check(rules, s, id).0, Check(rules, u, id).0)
  {
    hide Generation, Payload, Read, Mark, AlikeButSimulations;
    ReadsAlike(rules, s, u, id);
    var a, b := Read(rules, s, id).0, Read(rules, u, id).0;
    SameEventsAlike(a, b);
    MarksAlike(a, b, id, Missing);
    MarksAlike(a, b, id, Failing);
    MarksAlike(a, b, id, Stale);
    MarksAlike(a, b, id, Drifted);
  }

  lemma SameEventsAlike(s: State, u: State)
    requires AlikeButSimulations(s, u)
    ensures s.events == u.events
  {
  }

  lemma MarksAlike(s: State, u: State, id: string, status: Status)
    requires AlikeButSimulations(s, u)
    ensures AlikeButSimulations(Mark(s, id, status), Mark(u, id, status))
  {
  }

  lemma RebuildsAlike(rules: Rules, s: State, u: State, id: string, schema: int)
    requires AlikeButSimulations(s, u)
    ensures AlikeButSimulations(Rebuild(rules, s, id, schema).0, Rebuild(rules, u, id, schema).0)
  {
    hide Generation, Payload, Read;
    ReadsAlike(rules, Rebuilt(rules, s, id, schema), Rebuilt(rules, u, id, schema), id);
  }

  lemma StepsAlike(rules: Rules, s: State, u: State, op: Op)
    requires AlikeButSimulations(s, u) && !op.DoSimulate?
    ensures AlikeButSimulations(Do(rules, s, op), Do(rules, u, op))
  {
    hide Generation, Payload, IsExact, Selected, Read, Check, Rebuild;
    match op
    case DoRebuild(id, schema) => RebuildsAlike(rules, s, u, id, schema);
    case DoRead(id) => ReadsAlike(rules, s, u, id);
    case DoCheck(id) => ChecksAlike(rules, s, u, id);
    case _ =>
  }

  /** A captured outcome never counts: whatever is simulated during a run, the log,
    the projections, the playbacks and all evidence are those of the run without it. */
  lemma {:induction false} SimulationsNeverCount(rules: Rules, s: State, u: State, ops: seq<Op>, id: string)
    requires AlikeButSimulations(s, u)
    ensures var a, b := DoAll(rules, s, ops), DoAll(rules, u, WithoutSimulations(ops));
      AlikeButSimulations(a, b) && Evidence(rules, a, id) == Evidence(rules, b, id)
    decreases |ops|
  {
    hide Do;
    if ops != [] {
      var rest := WithoutSimulations(ops[1..]);
      if ops[0].DoSimulate? {
        assert WithoutSimulations(ops) == rest;
        SimulationIsAside(rules, s, ops[0]);
        SimulationsNeverCount(rules, Do(rules, s, ops[0]), u, ops[1..], id);
      } else {
        assert WithoutSimulations(ops)[1..] == rest;
        StepsAlike(rules, s, u, ops[0]);
        SimulationsNeverCount(rules, Do(rules, s, ops[0]), Do(rules, u, ops[0]), ops[1..], id);
      }
    }
  }

  lemma SimulationIsAside(rules: Rules, s: State, op: Op)
    requires op.DoSimulate?
    ensures AlikeButSimulations(Do(rules, s, op), s)
  {
  }
}
