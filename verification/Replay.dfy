/** The event log and what is cached of it: projections, their authority, and
  the evidence of playbacks. Generations are digests of the encoded history. */
module Replay {
  import opened Options
  import opened Bytes
  import opened Encoding

  /** Of the digest only that it maps octets to non-negative numbers, of upper
    case only that it maps texts to texts. */
  datatype Rules = Rules(digest: seq<byte> -> nat, upper: string -> string)

  datatype Status = Missing | Stale | Drifted | Complete | Failing

  datatype Row = Row(schema: int, generation: nat, source: nat, authoritative: bool, status: Status, payload: string)

  datatype StatusRow = StatusRow(status: Status, authoritative: bool, failure: Option<string>, drift: Option<Status>)

  datatype Rebuilding = Rebuilding(
    projection: string, event: string, sequence: int, status: Status, failure: Option<string>)

  datatype Playback = Playback(generation: int, exact: bool, divergence: Option<string>)

  datatype State = State(
    events: seq<Event>, projections: map<string, Row>, statuses: map<string, StatusRow>, rebuilds: seq<Rebuilding>,
    playbacks: map<string, Playback>, simulations: map<string, string>)

  const EMPTY := State([], map[], map[], [], map[], map[])

  datatype Error = OutOfOrder | Database | RebuildFailure | Conflict

  // Derivation

  function Derive(rules: Rules, transition: string, input: string): Option<string> {
    if transition in ["uppercase", "t1", "t2"] then Some(rules.upper(input))
    else if transition in ["identity", "set"] then Some(input)
    else None
  }

  /** The outputs of all events, if every transition is known. */
  function DeriveAll(rules: Rules, rows: seq<Event>): Option<seq<string>> {
    if rows == [] then Some([])
    else
      var before, last := DeriveAll(rules, rows[..|rows| - 1]), rows[|rows| - 1];
      var value := Derive(rules, last.transition, last.input);
      if before.Some? && value.Some? then Some(before.value + [value.value]) else None
  }

  function Joined(values: seq<string>): string {
    if values == [] then "" else if |values| == 1 then values[0]
    else Joined(values[..|values| - 1]) + "\n" + values[|values| - 1]
  }

  function Payload(rules: Rules, rows: seq<Event>): Option<string> {
    var values := DeriveAll(rules, rows);
    if values.Some? then Some(Joined(values.value)) else None
  }

  function Generation(rules: Rules, rows: seq<Event>): nat { rules.digest(History(rows)) }

  // Operations

  /** `append_event`: only a later sequence number, only a new name. */
  function Append(s: State, e: Event): (State, Option<Error>) {
    if exists d :: d in s.events && e.sequence <= d.sequence then (s, Some(OutOfOrder))
    else if exists d :: d in s.events && e.id == d.id then (s, Some(Database))
    else (s.(events := s.events + [e]), None)
  }

  /** What a stored projection is worth against the present log. */
  function Verdict(rules: Rules, events: seq<Event>, row: Row): Status {
    var generation := Generation(rules, events);
    if row.status == Failing then Failing
    else if row.schema != 1 || row.generation != generation || row.source != generation then Stale
    else if Payload(rules, events) != Some(row.payload) then Drifted
    else Complete
  }

  /** `mark_projection_status`. */
  function Mark(s: State, id: string, status: Status): State {
    s.(projections :=
         if id in s.projections then s.projections[id := s.projections[id].(authoritative := false, status := status)]
         else s.projections,
       statuses := s.statuses[id := StatusRow(
         status, false, if id in s.statuses then s.statuses[id].failure else None, Some(status))])
  }

  /** `projection`: a row that lost its worth is marked, and handed out without authority. */
  function Read(rules: Rules, s: State, id: string): (State, Option<Row>) {
    if id !in s.projections then (s, None)
    else
      var row := s.projections[id];
      var status := Verdict(rules, s.events, row);
      if status == Complete && row.authoritative then (s, Some(row))
      else (Mark(s, id, status), Some(row.(authoritative := false, status := status)))
  }

  /** `projection_status`. */
  function Check(rules: Rules, s: State, id: string): (State, Status) {
    var (u, read) := Read(rules, s, id);
    if read.None? then (Mark(u, id, Missing), Missing)
    else if read.value.status == Failing then (if read.value.authoritative then Mark(u, id, Failing) else u, Failing)
    else if read.value.schema != 1 || read.value.generation != Generation(rules, u.events) then
      (Mark(u, id, Stale), Stale)
    else if Payload(rules, u.events) == Some(read.value.payload) && read.value.authoritative then (u, Complete)
    else (Mark(u, id, Drifted), Drifted)
  }

  /** The rows that `rebuild_projection` writes in its transaction. */
  function Rebuilt(rules: Rules, s: State, id: string, schema: int): State {
    var generation := Generation(rules, s.events);
    var payload := if schema == 1 then Payload(rules, s.events) else None;
    var status := if payload.Some? then Complete else Failing;
    var failure :=
      if payload.Some? then None else Some(if schema == 1 then "unknown transition" else "incompatible schema");
    var row :=
      if payload.Some? then Row(1, generation, generation, true, Complete, payload.value)
      else if id in s.projections then s.projections[id].(authoritative := false, status := Failing)
      else Row(1, generation, generation, false, Failing, "");
    var last := if s.events == [] then ("", 0) else (s.events[|s.events| - 1].id, s.events[|s.events| - 1].sequence);
    s.(projections := s.projections[id := row],
       statuses := s.statuses[id := StatusRow(status, payload.Some?, failure, None)],
       rebuilds := s.rebuilds + [Rebuilding(id, last.0, last.1, status, failure)])
  }

  /** `rebuild_projection`: the row as it is read back, or a failure. */
  function Rebuild(rules: Rules, s: State, id: string, schema: int): (State, Option<Row>) {
    var u := Rebuilt(rules, s, id, schema);
    if schema == 1 && Payload(rules, s.events).Some? then Read(rules, u, id) else (u, None)
  }

  predicate Succeeds(rules: Rules, s: State, schema: int) { schema == 1 && Payload(rules, s.events).Some? }

  /** The length of the shortest history of that generation. */
  function Select(rules: Rules, events: seq<Event>, generation: int, from: nat): (r: Option<nat>)
    requires from <= |events|
    ensures r.Some? ==> from <= r.value <= |events| && Generation(rules, events[..r.value]) == generation
    ensures r.Some? ==> forall k :: from <= k < r.value ==> Generation(rules, events[..k]) != generation
    ensures r.None? ==> forall k :: from <= k <= |events| ==> Generation(rules, events[..k]) != generation
    decreases |events| - from
  {
    if Generation(rules, events[..from]) == generation then Some(from)
    else if from == |events| then None
    else Select(rules, events, generation, from + 1)
  }

  /** The claim repeats the event and derives its outcome again. */
  predicate Replays(rules: Rules, e: Event, transition: string, input: string, outcome: string) {
    && e.transition == transition && e.input == input && e.outcome == Some(outcome)
    && Derive(rules, transition, input) == Some(outcome)
  }

  predicate IsExact(rules: Rules, events: seq<Event>, generation: int, ts: seq<string>, ins: seq<string>,
      outs: seq<string>)
  {
    var selected := Select(rules, events, generation, 0);
    && generation >= 0 && selected.Some? && selected.value == |ts| == |ins| == |outs|
    && forall i :: 0 <= i < |ts| ==> Replays(rules, events[i], ts[i], ins[i], outs[i])
  }

  function Selected(rules: Rules, events: seq<Event>, generation: int): (n: nat)
    ensures n <= |events|
  {
    if generation < 0 then 0
    else var selected := Select(rules, events, generation, 0); if selected.Some? then selected.value else 0
  }

  function Play(rules: Rules, s: State, id: string, generation: int, ts: seq<string>, ins: seq<string>,
      outs: seq<string>)
    : (State, Option<Playback>)
  {
    var exact := IsExact(rules, s.events, generation, ts, ins, outs);
    var n := Selected(rules, s.events, generation);
    var differs := exists i :: 0 <= i < n && i < |outs| && s.events[i].outcome != Some(outs[i]);
    var result := Playback(generation, exact,
      if exact then None
      else if differs then Some("persisted outcome mismatch")
      else Some("transition or result mismatch"));
    if id in s.playbacks then (s, None) else (s.(playbacks := s.playbacks[id := result]), Some(result))
  }

  function InputsOf(rows: seq<Event>): (r: seq<string>)
    ensures |r| == |rows| && forall i :: 0 <= i < |rows| ==> r[i] == rows[i].input
  {
    seq(|rows|, i requires 0 <= i < |rows| => rows[i].input)
  }

  /** `playback`: the inputs are those of the selected history. */
  function PlayRecorded(rules: Rules, s: State, id: string, generation: int, ts: seq<string>, outs: seq<string>)
    : (State, Option<Playback>)
  {
    Play(rules, s, id, generation, ts, InputsOf(s.events[..Selected(rules, s.events, generation)]), outs)
  }

  function Simulate(s: State, id: string, outcome: string): (State, bool) {
    if id in s.simulations then (s, false) else (s.(simulations := s.simulations[id := outcome]), true)
  }

  /** `exact_playback_evidence`. */
  predicate Evidence(rules: Rules, s: State, id: string) {
    && id in s.playbacks && s.playbacks[id].exact && s.playbacks[id].divergence.None?
    && Select(rules, s.events, s.playbacks[id].generation, 0).Some?
  }

  datatype Op =
    | DoAppend(event: Event)
    | DoRebuild(id: string, schema: int)
    | DoRead(id: string)
    | DoCheck(id: string)
    | DoPlay(id: string, generation: int, ts: seq<string>, ins: seq<string>, outs: seq<string>)
    | DoPlayRecorded(id: string, generation: int, ts: seq<string>, outs: seq<string>)
    | DoSimulate(id: string, outcome: string)

  function Do(rules: Rules, s: State, op: Op): State {
    match op
    case DoAppend(e) => Append(s, e).0
    case DoRebuild(id, schema) => Rebuild(rules, s, id, schema).0
    case DoRead(id) => Read(rules, s, id).0
    case DoCheck(id) => Check(rules, s, id).0
    case DoPlay(id, g, ts, ins, outs) => Play(rules, s, id, g, ts, ins, outs).0
    case DoPlayRecorded(id, g, ts, outs) => PlayRecorded(rules, s, id, g, ts, outs).0
    case DoSimulate(id, outcome) => Simulate(s, id, outcome).0
  }

  function DoAll(rules: Rules, s: State, ops: seq<Op>): State
    decreases |ops|
  {
    if ops == [] then s else DoAll(rules, Do(rules, s, ops[0]), ops[1..])
  }

  // The log

  ghost predicate Increasing(rows: seq<Event>) {
    forall i, j :: 0 <= i < j < |rows| ==> rows[i].sequence < rows[j].sequence && rows[i].id != rows[j].id
  }

  predicate TextLess(a: string, b: string) {
    if b == "" then false else if a == "" then true
    else a[0] < b[0] || (a[0] == b[0] && TextLess(a[1..], b[1..]))
  }

  /** `ORDER BY event_sequence, id`. */
  ghost predicate Ordered(rows: seq<Event>) {
    forall i, j :: 0 <= i < j < |rows| ==>
      rows[i].sequence < rows[j].sequence
      || (rows[i].sequence == rows[j].sequence && !TextLess(rows[j].id, rows[i].id))
  }

  lemma FirstIsFirst(rows: seq<Event>, answer: seq<Event>)
    requires Increasing(rows) && Ordered(answer) && multiset(rows) == multiset(answer) && rows != []
    ensures answer != [] && answer[0] == rows[0]
  {
    assert rows[0] in multiset(answer);
    var i :| 0 <= i < |answer| && answer[i] == rows[0];
    assert answer[0] in multiset(rows);
    var j :| 0 <= j < |rows| && rows[j] == answer[0];
  }

  lemma TailsMatch(rows: seq<Event>, answer: seq<Event>)
    requires rows != [] && answer != [] && rows[0] == answer[0] && multiset(rows) == multiset(answer)
    ensures multiset(rows[1..]) == multiset(answer[1..])
  {
    assert rows == [rows[0]] + rows[1..] && answer == [rows[0]] + answer[1..];
    assert multiset(rows[1..]) == multiset(rows) - multiset{rows[0]};
    assert multiset(answer[1..]) == multiset(answer) - multiset{rows[0]};
  }

  lemma TailsInOrder(rows: seq<Event>, answer: seq<Event>)
    requires rows != [] && answer != [] && Increasing(rows) && Ordered(answer)
    ensures Increasing(rows[1..]) && Ordered(answer[1..])
  {
    hide TextLess;
  }

  /** Whatever order the query brings the rows of an increasing log into, it is
    the order in which they were appended. */
  lemma {:induction false} QueryIsAppendOrder(rows: seq<Event>, answer: seq<Event>)
    requires Increasing(rows) && Ordered(answer) && multiset(rows) == multiset(answer)
    ensures answer == rows
    decreases |rows|
  {
    if rows != [] {
      FirstIsFirst(rows, answer);
      TailsMatch(rows, answer);
      TailsInOrder(rows, answer);
      hide Increasing, Ordered;
      QueryIsAppendOrder(rows[1..], answer[1..]);
      assert rows == [rows[0]] + rows[1..] && answer == [rows[0]] + answer[1..];
    } else {
      assert |multiset(answer)| == 0;
    }
  }

  // What every run keeps

  ghost predicate IsPast(rules: Rules, events: seq<Event>, generation: int) {
    exists k :: 0 <= k <= |events| && Generation(rules, events[..k]) == generation
  }

  /** What the log was when the row was last rebuilt. */
  ghost predicate Remembers(rules: Rules, events: seq<Event>, row: Row, k: nat) {
    && k <= |events| && row.generation == row.source == Generation(rules, events[..k])
    && (row.authoritative ==> Payload(rules, events[..k]) == Some(row.payload))
  }

  ghost predicate RowOk(rules: Rules, s: State, id: string)
    requires id in s.projections
  {
    var row := s.projections[id];
    && row.schema == 1 && (row.authoritative ==> row.status == Complete)
    && (exists k :: Remembers(rules, s.events, row, k))
    && id in s.statuses && s.statuses[id].status == row.status && s.statuses[id].authoritative == row.authoritative
  }

  ghost predicate PlaybackOk(rules: Rules, s: State, id: string)
    requires id in s.playbacks
  {
    var p := s.playbacks[id];
    (p.exact <==> p.divergence.None?) && (p.exact ==> IsPast(rules, s.events, p.generation))
  }

  ghost predicate StateOk(rules: Rules, s: State) {
    && Increasing(s.events)
    && (forall id :: id in s.projections ==> RowOk(rules, s, id))
    && (forall id :: id in s.statuses && id !in s.projections ==> !s.statuses[id].authoritative)
    && (forall id :: id in s.playbacks ==> PlaybackOk(rules, s, id))
  }

  lemma AppendKeeps(rules: Rules, s: State, e: Event)
    requires StateOk(rules, s)
    ensures StateOk(rules, Append(s, e).0)
  {
    hide Generation, Payload;
    var u := Append(s, e).0;
    if u != s {
      assert forall d :: d in s.events ==> d.sequence < e.sequence && d.id != e.id;
      assert forall i :: 0 <= i < |s.events| ==> s.events[i] in s.events;
      assert forall k :: 0 <= k <= |s.events| ==> u.events[..k] == s.events[..k];
      forall id | id in u.projections ensures RowOk(rules, u, id) {
        assert RowOk(rules, s, id);
        var k :| Remembers(rules, s.events, s.projections[id], k);
        assert Remembers(rules, u.events, u.projections[id], k);
      }
      forall id | id in u.playbacks ensures PlaybackOk(rules, u, id) {
        assert PlaybackOk(rules, s, id);
        if u.playbacks[id].exact {
          var k :| 0 <= k <= |s.events| && Generation(rules, s.events[..k]) == s.playbacks[id].generation;
          assert Generation(rules, u.events[..k]) == u.playbacks[id].generation;
        }
      }
    }
  }

  lemma MarkKeeps(rules: Rules, s: State, id: string, status: Status)
    requires StateOk(rules, s)
    ensures StateOk(rules, Mark(s, id, status))
  {
    hide Generation, Payload, IsPast;
    var u := Mark(s, id, status);
    forall other | other in u.projections ensures RowOk(rules, u, other) {
      assert RowOk(rules, s, other);
      var k :| Remembers(rules, s.events, s.projections[other], k);
      assert Remembers(rules, u.events, u.projections[other], k);
    }
    forall other | other in u.playbacks ensures PlaybackOk(rules, u, other) { assert PlaybackOk(rules, s, other); }
  }

  lemma ReadKeeps(rules: Rules, s: State, id: string)
    requires StateOk(rules, s)
    ensures StateOk(rules, Read(rules, s, id).0) && Read(rules, s, id).0.events == s.events
  {
    hide StateOk, Verdict;
    if id in s.projections { MarkKeeps(rules, s, id, Verdict(rules, s.events, s.projections[id])); }
  }

  lemma CheckKeeps(rules: Rules, s: State, id: string)
    requires StateOk(rules, s)
    ensures StateOk(rules, Check(rules, s, id).0)
  {
    hide StateOk, Read, Payload, Generation;
    ReadKeeps(rules, s, id);
    var u := Read(rules, s, id).0;
    MarkKeeps(rules, u, id, Missing);
    MarkKeeps(rules, u, id, Failing);
    MarkKeeps(rules, u, id, Stale);
    MarkKeeps(rules, u, id, Drifted);
  }

  lemma RebuiltKeeps(rules: Rules, s: State, id: string, schema: int)
    requires StateOk(rules, s)
    ensures StateOk(rules, Rebuilt(rules, s, id, schema))
  {
    hide Generation, Payload, IsPast;
    var u := Rebuilt(rules, s, id, schema);
    assert s.events[..|s.events|] == s.events;
    forall other | other in u.projections ensures RowOk(rules, u, other) {
      if other in s.projections {
        assert RowOk(rules, s, other);
        var k :| Remembers(rules, s.events, s.projections[other], k);
        assert other != id || !Succeeds(rules, s, schema) ==> Remembers(rules, u.events, u.projections[other], k);
      }
      if other == id && (Succeeds(rules, s, schema) || id !in s.projections) {
        assert Remembers(rules, u.events, u.projections[other], |s.events|);
      }
    }
    forall other | other in u.playbacks ensures PlaybackOk(rules, u, other) { assert PlaybackOk(rules, s, other); }
  }

  lemma PlayKeeps(rules: Rules, s: State, id: string, g: int, ts: seq<string>, ins: seq<string>, outs: seq<string>)
    requires StateOk(rules, s)
    ensures StateOk(rules, Play(rules, s, id, g, ts, ins, outs).0)
  {
    hide Generation, Payload, Replays;
    var u := Play(rules, s, id, g, ts, ins, outs).0;
    forall other | other in u.playbacks ensures PlaybackOk(rules, u, other) {
      if other in s.playbacks { assert PlaybackOk(rules, s, other); }
    }
    forall other | other in u.projections ensures RowOk(rules, u, other) { assert RowOk(rules, s, other); }
  }

  lemma SimulateKeeps(rules: Rules, s: State, id: string, outcome: string)
    requires StateOk(rules, s)
    ensures StateOk(rules, Simulate(s, id, outcome).0)
  {
    hide Generation, Payload, IsPast;
    var u := Simulate(s, id, outcome).0;
    forall other | other in u.projections ensures RowOk(rules, u, other) { assert RowOk(rules, s, other); }
    forall other | other in u.playbacks ensures PlaybackOk(rules, u, other) { assert PlaybackOk(rules, s, other); }
  }

  lemma StepKeeps(rules: Rules, s: State, op: Op)
    requires StateOk(rules, s)
    ensures StateOk(rules, Do(rules, s, op)) && s.events <= Do(rules, s, op).events
  {
    hide StateOk, Payload, Generation, Rebuilt, IsExact, Selected, Read, Check;
    match op
    case DoAppend(e) => AppendKeeps(rules, s, e);
    case DoRebuild(id, schema) =>
      RebuiltKeeps(rules, s, id, schema);
      ReadKeeps(rules, Rebuilt(rules, s, id, schema), id);
      SameLog(rules, s, op);
    case DoRead(id) => ReadKeeps(rules, s, id);
    case DoCheck(id) =>
      CheckKeeps(rules, s, id);
      SameLog(rules, s, op);
    case DoPlay(id, g, ts, ins, outs) => PlayKeeps(rules, s, id, g, ts, ins, outs);
    case DoPlayRecorded(id, g, ts, outs) =>
      PlayKeeps(rules, s, id, g, ts, InputsOf(s.events[..Selected(rules, s.events, g)]), outs);
    case DoSimulate(id, outcome) => SimulateKeeps(rules, s, id, outcome);
  }

  lemma SameLog(rules: Rules, s: State, op: Op)
    requires !op.DoAppend?
    ensures Do(rules, s, op).events == s.events
  {
    hide Payload, Generation, IsExact, Selected, Verdict;
  }

  /** Every run keeps the log increasing, both status tables in agreement, and
    the log as it was as a beginning of the log as it is. */
  lemma {:induction false} RunsKeep(rules: Rules, s: State, ops: seq<Op>)
    requires StateOk(rules, s)
    ensures StateOk(rules, DoAll(rules, s, ops)) && s.events <= DoAll(rules, s, ops).events
    decreases |ops|
  {
    hide StateOk, Do;
    if ops != [] {
      StepKeeps(rules, s, ops[0]);
      RunsKeep(rules, Do(rules, s, ops[0]), ops[1..]);
    }
  }
}
