/** Requests that the client formats are framed, accepted and answered, and the
  client accepts every answer. */
module Exchange {
  import opened Options
  import opened Bytes
  import Utf8
  import opened JsonGrammar
  import opened JsonReading
  import opened JsonQuote
  import opened JsonPrinter
  import opened Semver
  import opened Protocol
  import opened ProtocolTheorems

  // Bodies

  function ClientValue(role: string, instance: string): Value {
    Object([("client_role", Str(role)), ("client_version", Str(VERSION)), ("client_instance_id", Str(instance))])
  }

  function HandshakeValue(daemon: string): Value {
    Object([("daemon_version", Str(VERSION)), ("daemon_instance_id", Str(daemon)), ("protocol_version", Number("1")),
            ("capabilities", Array([Str("health")]))])
  }

  function HealthValue(daemon: string): Value {
    Object([("status", Str("ok")), ("daemon_version", Str(VERSION)), ("daemon_instance_id", Str(daemon)),
            ("protocol_version", Number("1"))])
  }

  function ErrorValue(code: string, message: string): Value {
    Object([("code", Str(code)), ("message", Str(message)), ("retryable", Bool(false))])
  }

  lemma BodyKeysArePlain()
    ensures PlainText("client_role") && PlainText("client_version") && PlainText("client_instance_id")
    ensures PlainText("daemon_version") && PlainText("daemon_instance_id") && PlainText("protocol_version")
    ensures PlainText("capabilities") && PlainText("status") && PlainText("code") && PlainText("message")
    ensures PlainText("retryable") && PlainText(VERSION) && PlainText("health") && PlainText("ok")
  {
  }

  lemma QuoteLabel(key: string, s: string)
    requires PlainText(key)
    ensures Label(key, Quote(s)) == Entry(key, Print(Str(s)))
  {
    hide Label, Entry, PlainText;
    LabelIsEntry(key, Str(s));
  }

  lemma ClientIsPrinted(role: string, instance: string)
    requires PlainText(role) && PlainText(instance)
    ensures Print(ClientValue(role, instance)) == Braces([
      Label("client_role", Plain(role)), Label("client_version", Plain(VERSION)),
      Label("client_instance_id", Plain(instance))])
  {
    hide PlainText, Print, Entry, Label, Plain, Braces;
    BodyKeysArePlain();
    PlainLabel("client_role", role);
    PlainLabel("client_version", VERSION);
    PlainLabel("client_instance_id", instance);
    var fs := ClientValue(role, instance).fields;
    ObjectIsPrinted(fs);
    assert Printed(fs)[0] == Entry(fs[0].0, Print(fs[0].1)) && Printed(fs)[1] == Entry(fs[1].0, Print(fs[1].1));
    assert Printed(fs) == [Printed(fs)[0], Printed(fs)[1], Entry(fs[2].0, Print(fs[2].1))];
  }

  lemma CapabilitiesArePrinted()
    ensures Print(Array([Str("health")])) == Brackets([Plain("health")]) && Printable(Array([Str("health")]))
  {
    BodyKeysArePlain();
    PlainIsQuote("health");
    var v := Array([Str("health")]);
    assert Print(v.values[0]) == Quote("health");
    hide Quote, Plain, Brackets;
    assert Elements(v, 1) == [];
    assert Elements(v, 0) == [Quote("health")] + Elements(v, 1);
  }

  lemma HandshakeIsPrinted(daemon: string)
    ensures Print(HandshakeValue(daemon)) == Braces([
      Label("daemon_version", Plain(VERSION)), Label("daemon_instance_id", Quote(daemon)),
      Label("protocol_version", "1"),
      Label("capabilities", Brackets([Plain("health")]))])
  {
    hide PlainText, Print, Entry, Label, Plain, Braces, Brackets, Quote;
    BodyKeysArePlain();
    CapabilitiesArePrinted();
    PlainLabel("daemon_version", VERSION);
    QuoteLabel("daemon_instance_id", daemon);
    OneLabel("protocol_version");
    LabelIsEntry("capabilities", Array([Str("health")]));
    var fs := HandshakeValue(daemon).fields;
    ObjectIsPrinted(fs);
    assert Printed(fs)[0] == Entry(fs[0].0, Print(fs[0].1)) && Printed(fs)[1] == Entry(fs[1].0, Print(fs[1].1));
    assert Printed(fs)
      == [Printed(fs)[0], Printed(fs)[1], Entry(fs[2].0, Print(fs[2].1)), Entry(fs[3].0, Print(fs[3].1))];
  }

  lemma HealthIsPrinted(daemon: string)
    ensures Print(HealthValue(daemon)) == Braces([
      Label("status", Plain("ok")), Label("daemon_version", Plain(VERSION)), Label("daemon_instance_id", Quote(daemon)),
      Label("protocol_version", "1")])
  {
    hide PlainText, Print, Entry, Label, Plain, Braces, Quote;
    BodyKeysArePlain();
    PlainLabel("status", "ok");
    PlainLabel("daemon_version", VERSION);
    QuoteLabel("daemon_instance_id", daemon);
    OneLabel("protocol_version");
    var fs := HealthValue(daemon).fields;
    ObjectIsPrinted(fs);
    assert Printed(fs)[0] == Entry(fs[0].0, Print(fs[0].1)) && Printed(fs)[1] == Entry(fs[1].0, Print(fs[1].1));
    assert Printed(fs)
      == [Printed(fs)[0], Printed(fs)[1], Entry(fs[2].0, Print(fs[2].1)), Entry(fs[3].0, Print(fs[3].1))];
  }

  lemma FalseIsPrinted()
    ensures Print(Bool(false)) == "false" && Printable(Bool(false))
  {
  }

  lemma ErrorIsPrinted(code: string, message: string)
    ensures Print(ErrorValue(code, message)) == ErrorText(code, message, false)
  {
    hide PlainText, Print, Entry, Label, Plain, Braces, Quote;
    BodyKeysArePlain();
    FalseIsPrinted();
    QuoteLabel("code", code);
    QuoteLabel("message", message);
    LabelIsEntry("retryable", Bool(false));
    var fs := ErrorValue(code, message).fields;
    ObjectIsPrinted(fs);
    assert Printed(fs)[0] == Entry(fs[0].0, Print(fs[0].1)) && Printed(fs)[1] == Entry(fs[1].0, Print(fs[1].1));
    assert Printed(fs) == [Printed(fs)[0], Printed(fs)[1], Entry(fs[2].0, Print(fs[2].1))];
  }

  lemma BodiesAreDistinct(role: string, instance: string, daemon: string, code: string, message: string)
    ensures Distinct(ClientValue(role, instance).fields) && Distinct(HandshakeValue(daemon).fields)
    ensures Distinct(HealthValue(daemon).fields) && Distinct(ErrorValue(code, message).fields)
  {
  }

  lemma StrIsPrintable(s: string)
    ensures Printable(Str(s))
  {
  }

  lemma ClientIsPrintable(role: string, instance: string)
    ensures Printable(ClientValue(role, instance))
  {
    hide Printable, Distinct;
    BodiesAreDistinct(role, instance, "", "", "");
    StrIsPrintable(role);
    StrIsPrintable(VERSION);
    StrIsPrintable(instance);
    ObjectIsPrintable(ClientValue(role, instance).fields);
  }

  lemma ResultsArePrintable(daemon: string)
    ensures Printable(HandshakeValue(daemon)) && Printable(HealthValue(daemon))
  {
    hide Printable, Distinct, Print;
    OneIsPrinted();
    CapabilitiesArePrinted();
    BodiesAreDistinct("", "", daemon, "", "");
    StrIsPrintable(VERSION);
    StrIsPrintable(daemon);
    StrIsPrintable("ok");
    ObjectIsPrintable(HandshakeValue(daemon).fields);
    ObjectIsPrintable(HealthValue(daemon).fields);
  }

  lemma ErrorIsPrintable(code: string, message: string)
    ensures Printable(ErrorValue(code, message))
  {
    hide Printable, Distinct, Print;
    BodiesAreDistinct("", "", "", code, message);
    StrIsPrintable(code);
    StrIsPrintable(message);
    FalseIsPrinted();
    ObjectIsPrintable(ErrorValue(code, message).fields);
  }

  // The client's requests are accepted

  lemma ClientIsComplete(role: string, instance: string)
    requires role in ["tui", "jsonl", "doctor"] && ValidUuid(instance)
    ensures CompleteClient(Some(ClientValue(role, instance)))
  {
    hide ValidSemver, ValidUuid, Distinct, Field;
    VersionIsValid();
    BodiesAreDistinct(role, instance, "", "", "");
    var fs := ClientValue(role, instance).fields;
    FieldAt(fs, 0, "client_role");
    FieldAt(fs, 1, "client_version");
    FieldAt(fs, 2, "client_instance_id");
    assert fs[0].0 == "client_role" && fs[1].0 == "client_version" && fs[2].0 == "client_instance_id";
  }

  lemma KindsArePlain()
    ensures PlainText("handshake.request") && PlainText("health.request")
    ensures PlainText("handshake.response") && PlainText("health.response")
  {
  }

  lemma HandshakeIsAccepted(
      role: string, id: string, instance: string, daemon: string, ids: Supply, drawn: nat)
    requires role in ["tui", "jsonl", "doctor"] && ValidUuid(id) && ValidUuid(instance)
    ensures HandleRequest(Utf8.Encode(HandshakeRequest(role, id, instance)), false, daemon, ids, drawn) ==
      Served(HandshakeResponse(NewId(ids(drawn)), id, daemon), true, drawn + 1)
  {
    hide PlainText, ReadEnvelope, ValidUuid, Line, Label, Plain, Print, Printable, Braces, NewId, CompleteClient;
    hide ClientValue, HandshakeResponse, Answer;
    KindsArePlain();
    UuidIsPlain(id);
    UuidIsPlain(instance);
    RolesArePlain();
    Utf8.EncodedIsDecoded(HandshakeRequest(role, id, instance));
    ClientIsPrinted(role, instance);
    ClientIsPrintable(role, instance);
    RequestIsRead("handshake.request", id, ClientValue(role, instance));
    ClientIsComplete(role, instance);
    AnswerToHandshake(id, ClientValue(role, instance), daemon, ids, drawn);
  }

  /** The envelope of a request that names a kind, an identifier and a payload. */
  function RequestEnvelope(kind: string, id: string, payload: Value): Envelope {
    Envelope(Some(PROTOCOL), Some("1"), true, Some(kind), Some(id), None, false, Some(payload), None)
  }

  lemma AnswerToHandshake(id: string, payload: Value, daemon: string, ids: Supply, drawn: nat)
    requires ValidUuid(id) && CompleteClient(Some(payload))
    ensures Answer(RequestEnvelope("handshake.request", id, payload), false, daemon, ids, drawn) ==
      Served(HandshakeResponse(NewId(ids(drawn)), id, daemon), true, drawn + 1)
  {
    hide ValidUuid, CompleteClient, HandshakeResponse, HealthResponse, NewId, Refuse;
  }

  lemma AnswerToHealth(id: string, daemon: string, ids: Supply, drawn: nat)
    requires ValidUuid(id)
    ensures Answer(RequestEnvelope("health.request", id, Object([])), true, daemon, ids, drawn) ==
      Served(HealthResponse(NewId(ids(drawn)), id, daemon), false, drawn + 1)
  {
    hide ValidUuid, CompleteClient, HandshakeResponse, HealthResponse, NewId, Refuse;
  }

  lemma RolesArePlain()
    ensures PlainText("tui") && PlainText("jsonl") && PlainText("doctor")
  {
  }

  lemma EmptyIsPrinted()
    ensures Print(Object([])) == Braces([]) && Printable(Object([]))
  {
    assert Entries(Object([]), 0) == [];
  }

  lemma HealthIsAccepted(id: string, daemon: string, ids: Supply, drawn: nat)
    requires ValidUuid(id)
    ensures HandleRequest(Utf8.Encode(HealthRequest(id)), true, daemon, ids, drawn) ==
      Served(HealthResponse(NewId(ids(drawn)), id, daemon), false, drawn + 1)
  {
    hide PlainText, ReadEnvelope, ValidUuid, Line, Label, Plain, Print, Printable, Braces, NewId, CompleteClient;
    hide HealthResponse, Answer;
    KindsArePlain();
    UuidIsPlain(id);
    EmptyIsPrinted();
    Utf8.EncodedIsDecoded(HealthRequest(id));
    RequestIsRead("health.request", id, Object([]));
    AnswerToHealth(id, daemon, ids, drawn);
  }

  // The client accepts the answers

  lemma HandshakePayloadMatches(daemon: string)
    requires ValidUuid(daemon)
    ensures PayloadMatches(HandshakeValue(daemon).fields, "handshake.response")
  {
    hide ValidSemver, ValidUuid, Distinct, Field;
    VersionIsValid();
    BodiesAreDistinct("", "", daemon, "", "");
    var fs := HandshakeValue(daemon).fields;
    FieldAt(fs, 0, "daemon_version");
    FieldAt(fs, 1, "daemon_instance_id");
    assert fs[0].0 == "daemon_version" && fs[1].0 == "daemon_instance_id";
    assert fs[2] == ("protocol_version", Number("1")) && fs[3] == ("capabilities", Array([Str("health")]));
  }

  lemma HealthPayloadMatches(daemon: string)
    requires ValidUuid(daemon)
    ensures PayloadMatches(HealthValue(daemon).fields, "health.response")
  {
    hide ValidSemver, ValidUuid, Distinct, Field;
    VersionIsValid();
    BodiesAreDistinct("", "", daemon, "", "");
    var fs := HealthValue(daemon).fields;
    FieldAt(fs, 1, "daemon_version");
    FieldAt(fs, 2, "daemon_instance_id");
    assert fs[1].0 == "daemon_version" && fs[2].0 == "daemon_instance_id";
    assert fs[0] == ("status", Str("ok")) && fs[3] == ("protocol_version", Number("1"));
  }

  lemma HandshakeResponseMatches(id: string, correlation: string, daemon: string)
    requires ValidUuid(id) && ValidUuid(daemon)
    ensures ResponseMatches(HandshakeResponse(id, correlation, daemon), "handshake.response", correlation)
  {
    hide PlainText, ReadEnvelope, ValidUuid, Line, Label, Plain, Print, Printable, Braces, Brackets, PayloadMatches;
    hide Quote;
    KindsArePlain();
    UuidIsPlain(id);
    HandshakePayloadMatches(daemon);
    HandshakeIsPrinted(daemon);
    ResultsArePrintable(daemon);
    PayloadResponse("handshake.response", id, correlation, HandshakeValue(daemon));
  }

  lemma HealthResponseMatches(id: string, correlation: string, daemon: string)
    requires ValidUuid(id) && ValidUuid(daemon)
    ensures ResponseMatches(HealthResponse(id, correlation, daemon), "health.response", correlation)
  {
    hide PlainText, ReadEnvelope, ValidUuid, Line, Label, Plain, Print, Printable, Braces, Brackets, PayloadMatches;
    hide Quote;
    KindsArePlain();
    UuidIsPlain(id);
    HealthPayloadMatches(daemon);
    HealthIsPrinted(daemon);
    ResultsArePrintable(daemon);
    PayloadResponse("health.response", id, correlation, HealthValue(daemon));
  }

  lemma ErrorCodeOfValue(code: string, message: string)
    ensures ErrorCodeOf(ErrorValue(code, message).fields) ==
      if code in CODES && LockedRetryable(code) == Some(false) then Some(code) else None
  {
    hide Distinct, Field, LockedRetryable;
    BodiesAreDistinct("", "", "", code, message);
    var fs := ErrorValue(code, message).fields;
    FieldAt(fs, 0, "code");
    FieldAt(fs, 1, "message");
    FieldAt(fs, 2, "retryable");
    assert fs[0].0 == "code" && fs[1].0 == "message" && fs[2].0 == "retryable";
  }

  /** An error response is read as its own code exactly when the code is in the
    client's table and is locked to not being retryable; its message and what it
    answers may be any text. */
  lemma ErrorDecodes(id: string, correlation: string, code: string, message: string)
    requires ValidUuid(id)
    ensures ResponseErrorCode(ErrorResponse(id, correlation, code, message), correlation) ==
      if code in CODES && LockedRetryable(code) == Some(false) then Some(code) else None
  {
    hide PlainText, ReadEnvelope, ValidUuid, Line, Label, Plain, Print, Printable, ErrorText, ErrorCodeOf, Quote;
    hide LockedRetryable;
    UuidIsPlain(id);
    ErrorIsPrinted(code, message);
    ErrorCodeOfValue(code, message);
    ErrorIsPrintable(code, message);
    ErrorResponseIsRead(id, correlation, ErrorValue(code, message));
  }

  /** The errors that the daemon sends. */
  const DAEMON_CODES := ["protocol.malformed", "protocol.unsupported_version", "protocol.oversized",
    "authorization.peer_uid"]

  lemma DaemonCodesAreLocked()
    ensures forall code :: code in DAEMON_CODES ==> code in CODES && LockedRetryable(code) == Some(false)
  {
    assert StartsWith("protocol.malformed", "protocol.");
    assert StartsWith("protocol.unsupported_version", "protocol.");
    assert StartsWith("protocol.oversized", "protocol.");
    assert StartsWith("authorization.peer_uid", "authorization.");
  }

  /** The counter has not left the range in which identifiers are UUIDs. */
  ghost predicate Supplies(ids: Supply) { forall k :: ids(k) < 0x1_0000_0000_0000 }

  /** The response is one that the client understands as an answer to `correlation`:
    an expected response, or an error that decodes to one of the daemon's codes. */
  ghost predicate Understood(response: string, correlation: string) {
    || ResponseMatches(response, "handshake.response", correlation)
    || ResponseMatches(response, "health.response", correlation)
    || exists code :: code in DAEMON_CODES && ResponseErrorCode(response, correlation) == Some(code)
  }

  /** The identifier a line names itself by, if it is one. */
  function NamedBy(line: seq<byte>): Option<string> {
    var text := Utf8.Decode(line);
    var e := if text.Some? then ReadEnvelope(text.value) else None;
    if e.Some? && e.value.id.Some? && ValidUuid(e.value.id.value) then e.value.id else None
  }

  /** The identifier that stands at the beginning of a text, if it is one. */
  function ShownBy(input: seq<byte>): Option<string> {
    var text := Utf8.Decode(input);
    var id := if text.Some? then ScanPrefix(text.value, "id") else None;
    if id.Some? && ValidUuid(id.value) then id else None
  }

  lemma PrefixShows(input: seq<byte>, ids: Supply, drawn: nat)
    ensures CorrelationPrefix(input, ids, drawn) ==
      if ShownBy(input).Some? then (ShownBy(input).value, drawn) else (NewId(ids(drawn)), drawn + 1)
  {
    hide ValidUuid, NewId;
  }

  /** What an answer to a line refers to: the line's own identifier; one that stands
    at the beginning of a line that cannot be read; or else a new one. */
  function CorrelationOfLine(line: seq<byte>, ids: Supply, drawn: nat): string {
    var text := Utf8.Decode(line);
    if NamedBy(line).Some? then NamedBy(line).value
    else if text.Some? && ReadEnvelope(text.value).None? && ShownBy(line).Some? then ShownBy(line).value
    else NewId(ids(drawn))
  }

  lemma RefusalIsUnderstood(correlation: string, code: string, message: string, ids: Supply, drawn: nat)
    requires Supplies(ids) && code in DAEMON_CODES
    ensures Understood(Refuse(correlation, code, message, ids, drawn).response, correlation)
  {
    hide ValidUuid, NewId, ErrorResponse, ResponseErrorCode, LockedRetryable, ResponseMatches;
    DaemonCodesAreLocked();
    NewIdIsUuid(ids(drawn));
    ErrorDecodes(NewId(ids(drawn)), correlation, code, message);
  }

  lemma AnswerIsUnderstood(e: Envelope, handshaken: bool, daemon: string, ids: Supply, drawn: nat)
    requires Supplies(ids) && ValidUuid(daemon)
    ensures Understood(
      Answer(e, handshaken, daemon, ids, drawn).response,
      if e.id.Some? && ValidUuid(e.id.value) then e.id.value else NewId(ids(drawn)))
  {
    hide Refuse, HandshakeResponse, HealthResponse, CompleteClient, NewId, ResponseMatches, ResponseErrorCode;
    hide Understood;
    hide ValidUuid;
    var valid := e.id.Some? && ValidUuid(e.id.value);
    var correlation := if valid then e.id.value else NewId(ids(drawn));
    var n := if valid then drawn else drawn + 1;
    RefusalIsUnderstood(correlation, "protocol.malformed", "malformed request", ids, n);
    RefusalIsUnderstood(correlation, "protocol.unsupported_version", "unsupported protocol", ids, n);
    NewIdIsUuid(ids(drawn));
    SuccessIsUnderstood(NewId(ids(drawn)), correlation, daemon);
  }

  lemma SuccessIsUnderstood(id: string, correlation: string, daemon: string)
    requires ValidUuid(id) && ValidUuid(daemon)
    ensures Understood(HandshakeResponse(id, correlation, daemon), correlation)
    ensures Understood(HealthResponse(id, correlation, daemon), correlation)
  {
    hide ValidUuid, HandshakeResponse, HealthResponse, ResponseMatches, ResponseErrorCode;
    HandshakeResponseMatches(id, correlation, daemon);
    HealthResponseMatches(id, correlation, daemon);
  }

  /** Whatever octets a line holds, the daemon's answer is one that the client
    understands, as an answer to what the line is known by. */
  lemma EveryAnswerIsUnderstood(line: seq<byte>, handshaken: bool, daemon: string, ids: Supply, drawn: nat)
    requires Supplies(ids) && ValidUuid(daemon)
    ensures Understood(
      HandleRequest(line, handshaken, daemon, ids, drawn).response, CorrelationOfLine(line, ids, drawn))
  {
    hide Understood, Refuse, ReadEnvelope, NewId, Answer, CorrelationPrefix, ValidUuid;
    var text := Utf8.Decode(line);
    if text.None? {
      RefusalIsUnderstood(NewId(ids(drawn)), "protocol.malformed", "malformed request", ids, drawn + 1);
    } else {
      var e := ReadEnvelope(text.value);
      if e.None? {
        PrefixShows(line, ids, drawn);
        var (correlation, n) := CorrelationPrefix(line, ids, drawn);
        RefusalIsUnderstood(correlation, "protocol.malformed", "malformed request", ids, n);
      } else {
        AnswerIsUnderstood(e.value, handshaken, daemon, ids, drawn);
      }
    }
  }

  /** So is the refusal of a peer that belongs to another user, which comes before any line. */
  lemma PeerRefusalIsUnderstood(ids: Supply, drawn: nat)
    requires Supplies(ids)
    ensures var correlation := NewId(ids(drawn));
      ResponseErrorCode(
        Refuse(correlation, "authorization.peer_uid", "peer authorization failed", ids, drawn + 1).response,
        correlation)
      == Some("authorization.peer_uid")
  {
    hide ValidUuid, NewId, ErrorResponse, ResponseErrorCode, LockedRetryable;
    DaemonCodesAreLocked();
    NewIdIsUuid(ids(drawn + 1));
    ErrorDecodes(NewId(ids(drawn + 1)), NewId(ids(drawn)), "authorization.peer_uid", "peer authorization failed");
  }
}
