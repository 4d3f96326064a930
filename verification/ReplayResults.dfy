/** What a rebuilt projection contains, when it can be rebuilt, how it ages, and
  what a playback reports, stated of the events alone. */
module ReplayResults {
  import opened Options
  import opened Encoding
  import opened Replay
  import opened ReplayTheorems

  /** The transitions that events may have. */
  predicate Known(transition: string) { transition in {"uppercase", "t1", "t2", "identity", "set"} }

  /** What an event with a known transition puts out. */
  function OutputOf(rules: Rules, e: Event): string {
    if e.transition == "identity" || e.transition == "set" then e.input else rules.upper(e.input)
  }

  ghost predicate AllKnown(rows: seq<Event>) { forall i :: 0 <= i < |rows| ==> Known(rows[i].transition) }

  lemma DerivedByEvent(rules: Rules, e: Event)
    ensures Derive(rules, e.transition, e.input) == if Known(e.transition) then Some(OutputOf(rules, e)) else None
  {
  }

  lemma {:induction false} AllDerived(rules: Rules, rows: seq<Event>)
    ensures DeriveAll(rules, rows).Some? <==> AllKnown(rows)
    ensures AllKnown(rows) ==>
      && |DeriveAll(rules, rows).value| == |rows|
      && forall i :: 0 <= i < |rows| ==> DeriveAll(rules, rows).value[i] == OutputOf(rules, rows[i])
    decreases |rows|
  {
    hide Derive, Known, OutputOf;
    if rows != [] {
      var before, last := rows[..|rows| - 1], rows[|rows| - 1];
      AllDerived(rules, before);
      DerivedByEvent(rules, last);
      assert AllKnown(rows) <==> AllKnown(before) && Known(last.transition);
    }
  }

  lemma PayloadExactly(rules: Rules, rows: seq<Event>)
    ensures Payload(rules, rows).Some? <==> AllKnown(rows)
  {
    hide DeriveAll, Joined, AllKnown;
    AllDerived(rules, rows);
  }

  // What a rebuild answers

  /** A rebuild succeeds exactly with the schema of this version and a log of known transitions. */
  lemma RebuildsExactly(rules: Rules, s: State, id: string, schema: int)
    ensures Rebuild(rules, s, id, schema).1.Some? <==> schema == 1 && AllKnown(s.events)
    ensures Rebuild(rules, s, id, schema).1.Some? ==>
      var row := Rebuild(rules, s, id, schema).1.value;
      && row.schema == 1 && row.authoritative && row.status == Complete
      && row.generation == row.source == rules.digest(History(s.events))
  {
    hide Payload, AllKnown;
    PayloadExactly(rules, s.events);
  }

  /** The payload of an empty log is empty, that of one event its output. */
  lemma ShortPayloads(rules: Rules, s: State, id: string)
    requires Rebuild(rules, s, id, 1).1.Some?
    ensures s.events == [] ==> Rebuild(rules, s, id, 1).1.value.payload == ""
    ensures |s.events| == 1 ==> Rebuild(rules, s, id, 1).1.value.payload == OutputOf(rules, s.events[0])
  {
    hide DeriveAll, Known, OutputOf;
    RebuildPays(rules, s, id);
    AllDerived(rules, s.events);
  }

  lemma RebuildPays(rules: Rules, s: State, id: string)
    requires Rebuild(rules, s, id, 1).1.Some?
    ensures AllKnown(s.events) && Payload(rules, s.events) == Some(Rebuild(rules, s, id, 1).1.value.payload)
  {
    hide Payload, AllKnown;
    PayloadExactly(rules, s.events);
  }

  /** Each further event adds a line end and its output, whichever projection is rebuilt. */
  lemma PayloadGrows(rules: Rules, s: State, e: Event, id: string, other: string)
    requires s.events != [] && Append(s, e).1.None?
    requires Rebuild(rules, s, id, 1).1.Some? && Rebuild(rules, Append(s, e).0, other, 1).1.Some?
    ensures Rebuild(rules, Append(s, e).0, other, 1).1.value.payload
      == Rebuild(rules, s, id, 1).1.value.payload + "\n" + OutputOf(rules, e)
  {
    hide Rebuild, Known, OutputOf, DeriveAll;
    RebuildPays(rules, s, id);
    RebuildPays(rules, Append(s, e).0, other);
    AllDerived(rules, s.events);
    AllDerived(rules, Append(s, e).0.events);
    var values, more := DeriveAll(rules, s.events).value, DeriveAll(rules, Append(s, e).0.events).value;
    assert more == values + [OutputOf(rules, e)];
  }

  /** Lines, with a line end between each two of them. */
  function Lines(lines: seq<string>): string {
    if lines == [] then "" else if |lines| == 1 then lines[0] else lines[0] + "\n" + Lines(lines[1..])
  }

  lemma {:induction false} LinesMore(lines: seq<string>, line: string)
    requires lines != []
    ensures Lines(lines + [line]) == Lines(lines) + "\n" + line
    decreases |lines|
  {
    var more := lines + [line];
    assert more[1..] == lines[1..] + [line];
    if |lines| == 1 {
      assert lines[1..] + [line] == [line];
    } else {
      LinesMore(lines[1..], line);
      assert lines[0] + "\n" + (Lines(lines[1..]) + "\n" + line) == lines[0] + "\n" + Lines(lines[1..]) + "\n" + line;
    }
  }

  lemma {:induction false} JoinedIsLines(values: seq<string>)
    ensures Joined(values) == Lines(values)
    decreases |values|
  {
    if |values| > 1 {
      var front := values[..|values| - 1];
      JoinedIsLines(front);
      LinesMore(front, values[|values| - 1]);
      assert front + [values[|values| - 1]] == values;
    }
  }

  function Outputs(rules: Rules, rows: seq<Event>): (outs: seq<string>)
    ensures |outs| == |rows| && forall i :: 0 <= i < |rows| ==> outs[i] == OutputOf(rules, rows[i])
  {
    seq(|rows|, i requires 0 <= i < |rows| => OutputOf(rules, rows[i]))
  }

  /** The payload is the outputs of the events, line by line. */
  lemma PayloadIsLines(rules: Rules, s: State, id: string, schema: int)
    ensures var row := Rebuild(rules, s, id, schema).1;
      && (row.Some? <==> schema == 1 && AllKnown(s.events))
      && (row.Some? ==> row.value.payload == Lines(Outputs(rules, s.events)))
  {
    hide Rebuild, DeriveAll, Known, OutputOf, Joined, Lines;
    RebuildsExactly(rules, s, id, schema);
    if Rebuild(rules, s, id, schema).1.Some? {
      RebuildPays(rules, s, id);
      AllDerived(rules, s.events);
      assert DeriveAll(rules, s.events).value == Outputs(rules, s.events);
      JoinedIsLines(Outputs(rules, s.events));
    }
  }

  /** Reading a projection back right after its rebuild changes nothing more. */
  lemma RebuildIsRebuilt(rules: Rules, s: State, id: string, schema: int)
    ensures Rebuild(rules, s, id, schema).0 == Rebuilt(rules, s, id, schema)
    ensures Rebuild(rules, s, id, schema).1 ==
      if schema == 1 && Payload(rules, s.events).Some? then Some(Rebuilt(rules, s, id, schema).projections[id])
      else None
  {
    hide Payload, Generation;
  }

  /** Both tables and the log of rebuilds after a rebuild. A failed one takes authority
    away, keeps the old payload if there was one, and says why it failed. */
  lemma RebuildLeaves(rules: Rules, s: State, id: string, schema: int)
    ensures var u := Rebuild(rules, s, id, schema).0;
      var ok := schema == 1 && AllKnown(s.events);
      var generation := rules.digest(History(s.events));
      var reason := if schema == 1 then "unknown transition" else "incompatible schema";
      && u.events == s.events && u.playbacks == s.playbacks && u.simulations == s.simulations
      && u.projections.Keys == s.projections.Keys + {id} && u.statuses.Keys == s.statuses.Keys + {id}
      && (forall k :: k in s.projections && k != id ==> u.projections[k] == s.projections[k])
      && (forall k :: k in s.statuses && k != id ==> u.statuses[k] == s.statuses[k])
      && u.statuses[id] ==
        (if ok then StatusRow(Complete, true, None, None) else StatusRow(Failing, false, Some(reason), None))
      && (ok ==> Some(u.projections[id]) == Rebuild(rules, s, id, schema).1)
      && (!ok ==>
            u.projections[id] ==
              if id in s.projections then s.projections[id].(authoritative := false, status := Failing)
              else Row(1, generation, generation, false, Failing, ""))
      && |u.rebuilds| == |s.rebuilds| + 1 && s.rebuilds <= u.rebuilds
      && u.rebuilds[|s.rebuilds|] == Rebuilding(
        id, if s.events == [] then "" else s.events[|s.events| - 1].id,
        if s.events == [] then 0 else s.events[|s.events| - 1].sequence,
        if ok then Complete else Failing, if ok then None else Some(reason))
  {
    hide Payload, AllKnown, Rebuild;
    PayloadExactly(rules, s.events);
    RebuildIsRebuilt(rules, s, id, schema);
  }

  // How a projection ages

  /** A projection that was rebuilt is stale as soon as an event is appended: reading
    hands out the old payload under the old generation, without authority. */
  lemma StaleAfterAppend(rules: Rules, s: State, id: string, e: Event)
    requires Rebuild(rules, s, id, 1).1.Some?
    requires var u := Rebuild(rules, s, id, 1).0; Append(u, e).1.None? && CollisionFree(rules, Append(u, e).0.events)
    ensures var row := Rebuild(rules, s, id, 1).1.value;
      var u := Append(Rebuild(rules, s, id, 1).0, e).0;
      && Read(rules, u, id).1 == Some(row.(authoritative := false, status := Stale))
      && Check(rules, u, id).1 == Stale
      && Read(rules, u, id).0.projections[id] == row.(authoritative := false, status := Stale)
      && Check(rules, u, id).0.projections[id] == row.(authoritative := false, status := Stale)
  {
    hide Payload, AllKnown, CollisionFree, Rebuild, Generation;
    RebuildLeaves(rules, s, id, 1);
    RebuildsExactly(rules, s, id, 1);
    var u := Append(Rebuild(rules, s, id, 1).0, e).0;
    GenerationsDiffer(rules, u.events, |s.events|, |u.events|);
    GenerationIsDigest(rules, s.events);
    assert u.events[..|s.events|] == s.events && u.events[..|u.events|] == u.events;
  }

  lemma GenerationIsDigest(rules: Rules, rows: seq<Event>)
    ensures Generation(rules, rows) == rules.digest(History(rows))
  {
  }

  /** A projection whose rebuild failed is failing until one succeeds, whatever is appended. */
  lemma FailingAfterFailure(rules: Rules, s: State, id: string, schema: int, e: Event)
    requires Rebuild(rules, s, id, schema).1.None?
    ensures var u := Rebuild(rules, s, id, schema).0;
      var v := Append(u, e).0;
      && Check(rules, u, id).1 == Check(rules, v, id).1 == Failing
      && Read(rules, v, id).1.Some? && Read(rules, v, id).1.value.status == Failing
      && !Read(rules, v, id).1.value.authoritative
      && Check(rules, v, id).0.statuses[id] == StatusRow(
        Failing, false, Some(if schema == 1 then "unknown transition" else "incompatible schema"), Some(Failing))
  {
    hide Payload, AllKnown, Rebuild, Generation;
    RebuildLeaves(rules, s, id, schema);
    RebuildsExactly(rules, s, id, schema);
  }

  /** What was never rebuilt is missing. */
  lemma MissingUntilRebuilt(rules: Rules, s: State, id: string)
    requires id !in s.projections
    ensures Read(rules, s, id) == (s, None) && Check(rules, s, id).1 == Missing
    ensures id in Check(rules, s, id).0.statuses && Check(rules, s, id).0.statuses[id].status == Missing
    ensures !Check(rules, s, id).0.statuses[id].authoritative
  {
  }

  // What a playback reports

  /** The claim is the event, with an outcome that follows from it. */
  predicate Repeats(rules: Rules, e: Event, transition: string, input: string, outcome: string) {
    && e.transition == transition && e.input == input && e.outcome == Some(outcome)
    && Known(transition) && outcome == OutputOf(rules, e)
  }

  lemma RepeatsExactly(rules: Rules, e: Event, transition: string, input: string, outcome: string)
    ensures Replays(rules, e, transition, input, outcome) <==> Repeats(rules, e, transition, input, outcome)
  {
    DerivedByEvent(rules, e);
  }

  /** The number of events that make up the history of that generation, if it is one of the log's. */
  ghost predicate IsHistoryOf(rules: Rules, rows: seq<Event>, generation: int, n: int) {
    0 <= n <= |rows| && rules.digest(History(rows[..n])) == generation
  }

  lemma SelectedIsHistory(rules: Rules, s: State, generation: int)
    requires CollisionFree(rules, s.events)
    ensures forall n :: IsHistoryOf(rules, s.events, generation, n) ==> Selected(rules, s.events, generation) == n
    ensures generation >= 0 ==>
      var n := Select(rules, s.events, generation, 0);
      n.Some? ==> IsHistoryOf(rules, s.events, generation, n.value)
    ensures generation >= 0 && Select(rules, s.events, generation, 0).None? ==>
      forall n :: !IsHistoryOf(rules, s.events, generation, n)
  {
    hide CollisionFree, Generation;
    forall n | IsHistoryOf(rules, s.events, generation, n) ensures Selected(rules, s.events, generation) == n {
      GenerationIsDigest(rules, s.events[..n]);
      var found := Select(rules, s.events, generation, 0).value;
      if found < n { GenerationsDiffer(rules, s.events, found, n); }
    }
    if generation >= 0 {
      var n := Select(rules, s.events, generation, 0);
      if n.Some? { GenerationIsDigest(rules, s.events[..n.value]); }
      forall k | 0 <= k <= |s.events| ensures Generation(rules, s.events[..k]) == rules.digest(History(s.events[..k])) {
        GenerationIsDigest(rules, s.events[..k]);
      }
    }
  }

  /** A playback under a new name is exact exactly when its claim repeats, event by
    event, the history of its generation. One that is not exact says whether an
    outcome on record was contradicted; it is recorded as it was answered. */
  lemma PlaybackExactly(
      rules: Rules, s: State, id: string, g: int, ts: seq<string>, ins: seq<string>, outs: seq<string>)
    requires CollisionFree(rules, s.events) && id !in s.playbacks
    ensures var (u, played) := Play(rules, s, id, g, ts, ins, outs);
      && played.Some? && played.value.generation == g
      && (played.value.exact <==>
            && |ts| == |ins| == |outs| && IsHistoryOf(rules, s.events, g, |ts|)
            && forall i :: 0 <= i < |ts| ==> Repeats(rules, s.events[i], ts[i], ins[i], outs[i]))
      && played.value.divergence ==
        (if played.value.exact then None
         else if exists n, i :: IsHistoryOf(rules, s.events, g, n) && 0 <= i < n && i < |outs|
                                && s.events[i].outcome != Some(outs[i])
         then Some("persisted outcome mismatch")
         else Some("transition or result mismatch"))
      && u == s.(playbacks := s.playbacks[id := played.value])
  {
    hide CollisionFree, Generation, Replays, Repeats, Select, Selected;
    ExactPlaybackIff(rules, s, g, ts, ins, outs);
    if |ts| <= |s.events| { GenerationIsDigest(rules, s.events[..|ts|]); }
    forall i | 0 <= i < |ts| && |ts| == |ins| == |outs| <= |s.events|
      ensures Replays(rules, s.events[i], ts[i], ins[i], outs[i])
        <==> Repeats(rules, s.events[i], ts[i], ins[i], outs[i])
    {
      RepeatsExactly(rules, s.events[i], ts[i], ins[i], outs[i]);
    }
    SelectedIsHistory(rules, s, g);
    DiffersExactly(rules, s, g, outs);
  }

  lemma DiffersExactly(rules: Rules, s: State, g: int, outs: seq<string>)
    requires CollisionFree(rules, s.events)
    ensures var n := Selected(rules, s.events, g);
      (exists i :: 0 <= i < n && i < |outs| && s.events[i].outcome != Some(outs[i])) <==>
      exists n, i ::
        IsHistoryOf(rules, s.events, g, n) && 0 <= i < n && i < |outs| && s.events[i].outcome != Some(outs[i])
  {
    hide CollisionFree, IsHistoryOf, Generation, Select;
    SelectedIsHistory(rules, s, g);
    var n := Selected(rules, s.events, g);
    if i :| 0 <= i < n && i < |outs| && s.events[i].outcome != Some(outs[i]) {
      assert IsHistoryOf(rules, s.events, g, n);
    }
  }

  lemma {:induction false} SimulationsStay(rules: Rules, s: State, ops: seq<Op>, id: string)
    requires id in s.simulations
    ensures id in DoAll(rules, s, ops).simulations && DoAll(rules, s, ops).simulations[id] == s.simulations[id]
    decreases |ops|
  {
    hide Do;
    if ops != [] {
      SimulationStays(rules, s, ops[0], id);
      SimulationsStay(rules, Do(rules, s, ops[0]), ops[1..], id);
    }
  }

  lemma SimulationStays(rules: Rules, s: State, op: Op, id: string)
    requires id in s.simulations
    ensures id in Do(rules, s, op).simulations && Do(rules, s, op).simulations[id] == s.simulations[id]
  {
    hide IsExact, Selected, Payload, Generation, InputsOf;
  }

  /** A captured outcome stays under its name, whatever comes after, and nothing else is
    captured under it. */
  lemma CaptureIsForever(rules: Rules, s: State, id: string, outcome: string, ops: seq<Op>, other: string)
    requires id !in s.simulations
    ensures var (t, ok) := Simulate(s, id, outcome);
      var u := DoAll(rules, t, ops);
      && ok && t == s.(simulations := s.simulations[id := outcome])
      && id in u.simulations && u.simulations[id] == outcome && Simulate(u, id, other) == (u, false)
  {
    hide Do;
    SimulationsStay(rules, Simulate(s, id, outcome).0, ops, id);
  }

  // What the log takes

  /** An event is taken exactly when the log is empty, or its number is greater than the
    last one and its name is new; it then stands at the end. */
  lemma AppendsExactly(s: State, e: Event)
    requires Increasing(s.events)
    ensures var (u, error) := Append(s, e);
      && (error == Some(OutOfOrder) <==> s.events != [] && e.sequence <= s.events[|s.events| - 1].sequence)
      && (error.None? <==>
            && (s.events != [] ==> s.events[|s.events| - 1].sequence < e.sequence)
            && forall i :: 0 <= i < |s.events| ==> s.events[i].id != e.id)
      && u == if error.None? then s.(events := s.events + [e]) else s
  {
    if s.events != [] {
      var last := s.events[|s.events| - 1];
      assert last in s.events;
      forall d | d in s.events ensures d.sequence <= last.sequence {
        var i :| 0 <= i < |s.events| && s.events[i] == d;
      }
    }
    assert forall i :: 0 <= i < |s.events| ==> s.events[i] in s.events;
  }
}
