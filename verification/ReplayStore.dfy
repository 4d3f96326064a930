/** The event tables as the store's methods change them. */
module ReplayStore {
  import opened Options
  import opened Encoding
  import opened Replay
  import opened ReplayResults

  class Store {
    const rules: Rules
    var events: seq<Event>
    var projections: map<string, Row>
    var statuses: map<string, StatusRow>
    var rebuilds: seq<Rebuilding>
    var playbacks: map<string, Playback>
    var simulations: map<string, string>

    function Now(): State
      reads this
    {
      State(events, projections, statuses, rebuilds, playbacks, simulations)
    }

    constructor (rules: Rules)
      ensures this.rules == rules && Now() == EMPTY
    {
      this.rules := rules;
      events, projections, statuses, rebuilds, playbacks, simulations := [], map[], map[], [], map[], map[];
    }

    method AppendEvent(e: Event) returns (error: Option<Error>)
      modifies this`events
      ensures (Now(), error) == Append(old(Now()), e)
    {
      var taken, maximum := false, None;
      for i := 0 to |events|
        invariant taken <==> exists d :: d in events[..i] && e.id == d.id
        invariant maximum.None? <==> i == 0
        invariant maximum.Some? ==> forall d :: d in events[..i] ==> d.sequence <= maximum.value
        invariant maximum.Some? ==> exists d :: d in events[..i] && d.sequence == maximum.value
      {
        var d := events[i];
        assert events[..i + 1] == events[..i] + [d];
        assert d in events[..i + 1];
        taken := taken || e.id == d.id;
        if maximum.None? || maximum.value < d.sequence {
          maximum := Some(d.sequence);
        }
      }
      assert events[..|events|] == events;
      if maximum.Some? && e.sequence <= maximum.value {
        return Some(OutOfOrder);
      }
      if taken {
        return Some(Database);
      }
      events := events + [e];
      error := None;
    }

    /** `event_generation` of the first events. */
    method EventGeneration(length: nat) returns (generation: nat)
      requires length <= |events|
      ensures generation == Generation(rules, events[..length])
    {
      var bytes := HistoryBytes(events[..length]);
      generation := rules.digest(bytes);
    }

    /** The outputs of all events joined by line ends. */
    method Derived() returns (payload: Option<string>)
      ensures payload == Payload(rules, events)
    {
      hide Derive, Joined;
      var values: seq<string> := [];
      for i := 0 to |events|
        invariant DeriveAll(rules, events[..i]) == Some(values)
      {
        assert events[..i + 1][..i] == events[..i];
        var value := Derive(rules, events[i].transition, events[i].input);
        if value.None? {
          NoneStays(rules, events, i + 1);
          return None;
        }
        values := values + [value.value];
      }
      assert events[..|events|] == events;
      payload := Some(Joined(values));
    }

    method MarkStatus(id: string, status: Status)
      modifies this`projections, this`statuses
      ensures Now() == Mark(old(Now()), id, status)
    {
      if id in projections {
        projections := projections[id := projections[id].(authoritative := false, status := status)];
      }
      var failure := if id in statuses then statuses[id].failure else None;
      statuses := statuses[id := StatusRow(status, false, failure, Some(status))];
    }

    method Projection(id: string) returns (row: Option<Row>)
      modifies this`projections, this`statuses
      ensures (Now(), row) == Read(rules, old(Now()), id)
    {
      hide Payload, Generation;
      if id !in projections {
        return None;
      }
      var stored := projections[id];
      var generation := EventGeneration(|events|);
      assert events[..|events|] == events;
      var expected := Derived();
      var status;
      if stored.status == Failing || stored.schema != 1 || stored.generation != generation
         || stored.source != generation {
        status := if stored.status == Failing then Failing else Stale;
      } else if expected.None? || stored.payload != expected.value {
        status := Drifted;
      } else {
        status := Complete;
      }
      if status != Complete || !stored.authoritative {
        MarkStatus(id, status);
        stored := stored.(authoritative := false, status := status);
      }
      row := Some(stored);
    }

    method ProjectionStatus(id: string) returns (status: Status)
      modifies this`projections, this`statuses
      ensures (Now(), status) == Check(rules, old(Now()), id)
    {
      hide Payload, Generation, Read;
      var row := Projection(id);
      if row.None? {
        MarkStatus(id, Missing);
        return Missing;
      }
      if row.value.status == Failing {
        if row.value.authoritative {
          MarkStatus(id, Failing);
        }
        return Failing;
      }
      SameEvents(rules, old(Now()), id);
      var generation := EventGeneration(|events|);
      assert events[..|events|] == events;
      if row.value.schema != 1 || row.value.generation != generation {
        MarkStatus(id, Stale);
        return Stale;
      }
      var expected := Derived();
      status := if expected == Some(row.value.payload) && row.value.authoritative then Complete else Drifted;
      if status != Complete {
        MarkStatus(id, status);
      }
    }

    method RebuildProjection(id: string, schema: int) returns (row: Option<Row>)
      modifies this
      ensures (Now(), row) == Rebuild(rules, old(Now()), id, schema)
      ensures row.Some? <==> schema == 1 && AllKnown(old(events))
      ensures row.Some? ==> row.value.payload == Lines(Outputs(rules, old(events)))
    {
      hide Payload, Generation, Read, AllKnown, Lines, Outputs;
      PayloadIsLines(rules, Now(), id, schema);
      var generation := EventGeneration(|events|);
      assert events[..|events|] == events;
      var payload := None;
      if schema == 1 {
        payload := Derived();
      }
      var status := if payload.Some? then Complete else Failing;
      var failure :=
        if payload.Some? then None else Some(if schema == 1 then "unknown transition" else "incompatible schema");
      var last := if events == [] then ("", 0) else (events[|events| - 1].id, events[|events| - 1].sequence);
      rebuilds := rebuilds + [Rebuilding(id, last.0, last.1, status, failure)];
      statuses := statuses[id := StatusRow(status, payload.Some?, failure, None)];
      if status == Complete {
        projections := projections[id := Row(1, generation, generation, true, Complete, payload.value)];
      } else if id in projections {
        projections := projections[id := projections[id].(authoritative := false, status := status)];
      } else {
        projections := projections[id := Row(1, generation, generation, false, status, "")];
      }
      assert Now() == Rebuilt(rules, old(Now()), id, schema);
      if status != Complete {
        return None;
      }
      row := Projection(id);
    }

    /** The search for the first history of a generation. */
    method FindHistory(generation: int) returns (selected: Option<nat>)
      ensures generation < 0 ==> selected.None?
      ensures generation >= 0 ==> selected == Select(rules, events, generation, 0)
    {
      hide Generation;
      selected := None;
      if generation >= 0 {
        var length := 0;
        while length <= |events|
          invariant length <= |events| + 1
          invariant length <= |events|
            ==> Select(rules, events, generation, length) == Select(rules, events, generation, 0)
          invariant length == |events| + 1 ==> Select(rules, events, generation, 0) == None
        {
          var g := EventGeneration(length);
          if g == generation {
            return Some(length);
          }
          length := length + 1;
        }
      }
    }

    method PlaybackWithInputs(id: string, generation: int, ts: seq<string>, ins: seq<string>, outs: seq<string>)
      returns (result: Option<Playback>)
      modifies this`playbacks
      ensures (Now(), result) == Play(rules, old(Now()), id, generation, ts, ins, outs)
    {
      hide Generation, Derive;
      var selected := FindHistory(generation);
      var n := if selected.Some? then selected.value else 0;
      assert n == Selected(rules, events, generation);
      var exact := generation >= 0 && selected.Some? && n == |ts| && n == |ins| && n == |outs|;
      if exact {
        for i := 0 to n
          invariant exact <==> forall j :: 0 <= j < i ==> Replays(rules, events[j], ts[j], ins[j], outs[j])
        {
          exact := exact && Replays(rules, events[i], ts[i], ins[i], outs[i]);
        }
      }
      var differs := false;
      var i := 0;
      while i < n && i < |outs|
        invariant 0 <= i <= n && i <= |outs|
        invariant differs <==> exists j :: 0 <= j < i && events[j].outcome != Some(outs[j])
      {
        differs := differs || events[i].outcome != Some(outs[i]);
        i := i + 1;
      }
      var divergence := if exact then None
        else if differs then Some("persisted outcome mismatch") else Some("transition or result mismatch");
      result := None;
      if id !in playbacks {
        result := Some(Playback.Playback(generation, exact, divergence));
        playbacks := playbacks[id := result.value];
      }
    }

    method PlaybackRecorded(id: string, generation: int, ts: seq<string>, outs: seq<string>)
      returns (result: Option<Playback>)
      modifies this`playbacks
      ensures (Now(), result) == PlayRecorded(rules, old(Now()), id, generation, ts, outs)
    {
      hide Generation, Play, Select;
      var selected := FindHistory(generation);
      var n := if selected.Some? then selected.value else 0;
      var inputs := InputsOf(events[..n]);
      result := PlaybackWithInputs(id, generation, ts, inputs, outs);
    }

    method SimulateCapturedOutcome(id: string, outcome: string) returns (ok: bool)
      modifies this`simulations
      ensures (Now(), ok) == Simulate(old(Now()), id, outcome)
    {
      ok := id !in simulations;
      if ok {
        simulations := simulations[id := outcome];
      }
    }

    method ExactPlaybackEvidence(id: string) returns (ok: bool)
      ensures ok == Evidence(rules, Now(), id)
    {
      hide Generation;
      if id !in playbacks || !playbacks[id].exact || playbacks[id].divergence.Some? {
        return false;
      }
      ok := false;
      for length := 0 to |events| + 1
        invariant ok <==> exists k :: 0 <= k < length && Generation(rules, events[..k]) == playbacks[id].generation
      {
        var g := EventGeneration(length);
        ok := ok || g == playbacks[id].generation;
      }
    }
  }

  lemma {:induction false} NoneStays(rules: Rules, rows: seq<Event>, n: nat)
    requires n <= |rows| && DeriveAll(rules, rows[..n]).None?
    ensures DeriveAll(rules, rows).None?
    decreases |rows| - n
  {
    hide Derive;
    if n < |rows| {
      assert rows[..n + 1][..n] == rows[..n];
      NoneStays(rules, rows, n + 1);
    } else {
      assert rows[..n] == rows;
    }
  }

  lemma SameEvents(rules: Rules, s: State, id: string)
    ensures Read(rules, s, id).0.events == s.events
  {
    hide Verdict;
  }
}
