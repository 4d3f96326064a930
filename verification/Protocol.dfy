/** The messages of the local protocol, the daemon that answers them, and the
  client that accepts the answers. */
module Protocol {
  import opened Options
  import opened Bytes
  import Hexadecimal
  import Utf8
  import opened JsonGrammar
  import opened JsonReading
  import opened JsonQuote
  import opened JsonPrinter
  import opened Semver

  const PROTOCOL := "akashic.local"
  const VERSION := "0.1.0"

  // Identifiers

  function IdPrefix(): string { "00000000-0000-4000-8000-" }

  /** `new_id`, given the value of the 64-bit counter. */
  function NewId(counter: nat): string { IdPrefix() + Hexadecimal.Padded(counter % 0x1_0000_0000_0000_0000, 12) }

  predicate UuidChar(c: char, i: nat) { if i in {8, 13, 18, 23} then c == '-' else IsHexDigit(c) }

  predicate ValidUuid(s: string) { |s| == 36 && forall i :: 0 <= i < 36 ==> UuidChar(s[i], i) }

  lemma IdPrefixShape()
    ensures |IdPrefix()| == 24 && forall i :: 0 <= i < 24 ==> UuidChar(IdPrefix()[i], i)
  {
  }

  lemma HexIsUuidChar(c: char, i: nat)
    requires Hexadecimal.IsLowerHex(c) && i >= 24
    ensures UuidChar(c, i)
  {
  }

  /** An identifier has the shape of a UUID just as long as the counter fits into twelve digits. */
  lemma NewIdIsUuid(counter: nat)
    requires counter < 0x1_0000_0000_0000_0000
    ensures ValidUuid(NewId(counter)) <==> counter < 0x1_0000_0000_0000
  {
    hide Hexadecimal.Padded, Hexadecimal.Power16, Hexadecimal.IsLowerHex, IdPrefix, UuidChar;
    var digits := Hexadecimal.Padded(counter, 12);
    Hexadecimal.PaddedLength(counter, 12);
    Powers();
    IdPrefixShape();
    var s := NewId(counter);
    assert s == IdPrefix() + digits;
    forall i | 0 <= i < |s| ensures UuidChar(s[i], i) {
      if i >= 24 { HexIsUuidChar(digits[i - 24], i); }
    }
  }

  lemma Powers()
    ensures Hexadecimal.Power16(12) == 0x1_0000_0000_0000
  {
    assert Hexadecimal.Power16(3) == 0x1000 && Hexadecimal.Power16(6) == 0x100_0000
      && Hexadecimal.Power16(9) == 0x10_0000_0000;
  }

  /** Different counters make different identifiers. */
  lemma NewIdsDiffer(m: nat, n: nat)
    requires m < 0x1_0000_0000_0000_0000 && n < 0x1_0000_0000_0000_0000 && NewId(m) == NewId(n)
    ensures m == n
  {
    hide IdPrefix, Hexadecimal.Padded, Hexadecimal.FromHex;
    var p, x, y := IdPrefix(), Hexadecimal.Padded(m, 12), Hexadecimal.Padded(n, 12);
    assert x == (p + x)[|p|..] == (p + y)[|p|..] == y;
    Hexadecimal.PaddedValue(m, 12);
    Hexadecimal.PaddedValue(n, 12);
  }

  /** The values that one connection draws from the counter: other connections
    draw from it too, so nothing is said about how they follow each other. */
  type Supply = nat -> nat

  // The layout of the messages

  /** A text between quotes as a format string puts it there, without escapes. */
  function Plain(s: string): string { ['"'] + (s + ['"']) }

  function Label(key: string, text: string): string { Plain(key) + ([':'] + text) }

  function Line(kind: string, id: string, rest: seq<string>): string {
    Braces([Label("protocol", Plain(PROTOCOL)), Label("version", "1"), Label("kind", Plain(kind)),
      Label("id", Plain(id))] + rest)
    + "\n"
  }

  function HandshakeRequest(role: string, id: string, instance: string): string {
    Line("handshake.request", id, [Label("payload", Braces([
      Label("client_role", Plain(role)), Label("client_version", Plain(VERSION)),
      Label("client_instance_id", Plain(instance))]))])
  }

  function HealthRequest(id: string): string { Line("health.request", id, [Label("payload", Braces([]))]) }

  function HandshakeResponse(id: string, correlation: string, daemon: string): string {
    Line("handshake.response", id, [Label("correlation_id", Quote(correlation)), Label("payload", Braces([
      Label("daemon_version", Plain(VERSION)), Label("daemon_instance_id", Quote(daemon)),
      Label("protocol_version", "1"),
      Label("capabilities", Brackets([Plain("health")]))]))])
  }

  function HealthResponse(id: string, correlation: string, daemon: string): string {
    Line("health.response", id, [Label("correlation_id", Quote(correlation)), Label("payload", Braces([
      Label("status", Plain("ok")), Label("daemon_version", Plain(VERSION)), Label("daemon_instance_id", Quote(daemon)),
      Label("protocol_version", "1")]))])
  }

  function ErrorText(code: string, message: string, retryable: bool): string {
    Braces([Label("code", Quote(code)), Label("message", Quote(message)),
            Label("retryable", if retryable then "true" else "false")])
  }

  /** `response_error` with the identifier it draws. */
  function ErrorResponse(id: string, correlation: string, code: string, message: string): string {
    Line("error.response", id,
      [Label("correlation_id", Quote(correlation)), Label("error", ErrorText(code, message, false))])
  }

  // Reading messages

  datatype Envelope = Envelope(
    protocol: Option<string>, version: Option<string>, versionPresent: bool, kind: Option<string>, id: Option<string>,
    correlation: Option<string>, correlationPresent: bool, payload: Option<Value>, error: Option<Value>)

  predicate EnvelopeKey(key: string) {
    key in ["protocol", "version", "kind", "id", "correlation_id", "payload", "error"]
  }

  /** `json::envelope`. */
  function ReadEnvelope(text: string): Option<Envelope> {
    var v := Parse(text);
    if v.None? || !v.value.Object? then None else EnvelopeOf(v.value.fields)
  }

  function EnvelopeOf(fs: seq<(string, Value)>): Option<Envelope> {
    if exists i :: 0 <= i < |fs| && !EnvelopeKey(fs[i].0) then None
    else
      Some(Envelope(
        StringField(fs, "protocol"), NumberField(fs, "version"), Field(fs, "version").Some?, StringField(fs, "kind"),
        StringField(fs, "id"), StringField(fs, "correlation_id"), Field(fs, "correlation_id").Some?,
        Field(fs, "payload"), Field(fs, "error")))
  }

  predicate HasExactFields(fs: seq<(string, Value)>, expected: seq<string>) {
    |fs| == |expected| && forall k :: k in expected ==> exists i :: 0 <= i < |fs| && fs[i].0 == k
  }

  /** `correlation_prefix`: the identifier at the beginning of a line that did not
    arrive whole, or a new one. The number of identifiers drawn comes with it. */
  function CorrelationPrefix(input: seq<byte>, ids: Supply, drawn: nat): (string, nat) {
    var text := Utf8.Decode(input);
    var id := if text.Some? then ScanPrefix(text.value, "id") else None;
    if id.Some? && ValidUuid(id.value) then (id.value, drawn) else (NewId(ids(drawn)), drawn + 1)
  }

  /** A response, whether it completes the handshake, and how many identifiers have been drawn. */
  datatype Served = Served(response: string, completed: bool, drawn: nat)

  function Refuse(correlation: string, code: string, message: string, ids: Supply, drawn: nat): Served {
    Served(ErrorResponse(NewId(ids(drawn)), correlation, code, message), false, drawn + 1)
  }

  function Malformed(correlation: string, ids: Supply, drawn: nat): Served {
    Refuse(correlation, "protocol.malformed", "malformed request", ids, drawn)
  }

  predicate CompleteClient(payload: Option<Value>) {
    && payload.Some? && payload.value.Object?
    && var fs := payload.value.fields;
       var role, version, instance :=
         StringField(fs, "client_role"), StringField(fs, "client_version"), StringField(fs, "client_instance_id");
       && HasExactFields(fs, ["client_role", "client_version", "client_instance_id"])
       && role.Some? && role.value in ["tui", "jsonl", "doctor"]
       && version.Some? && ValidSemver(version.value) && instance.Some? && ValidUuid(instance.value)
  }

  /** `handle_request`. */
  function HandleRequest(line: seq<byte>, handshaken: bool, daemon: string, ids: Supply, drawn: nat): Served {
    var text := Utf8.Decode(line);
    if text.None? then Malformed(NewId(ids(drawn)), ids, drawn + 1)
    else
      var envelope := ReadEnvelope(text.value);
      if envelope.None? then
        var (correlation, n) := CorrelationPrefix(line, ids, drawn);
        Malformed(correlation, ids, n)
      else Answer(envelope.value, handshaken, daemon, ids, drawn)
  }

  function Answer(e: Envelope, handshaken: bool, daemon: string, ids: Supply, drawn: nat): Served {
    if e.id.None? || !ValidUuid(e.id.value) then Malformed(NewId(ids(drawn)), ids, drawn + 1)
    else
      var correlation := e.id.value;
      if (e.correlationPresent && e.correlation.None?) || (e.correlation.Some? && !ValidUuid(e.correlation.value)) then
        Malformed(correlation, ids, drawn)
      else if !e.versionPresent || e.version.None? then Malformed(correlation, ids, drawn)
      else if e.protocol != Some(PROTOCOL) || e.version != Some("1") then
        Refuse(correlation, "protocol.unsupported_version", "unsupported protocol", ids, drawn)
      else if e.payload.Some? == e.error.Some? then Malformed(correlation, ids, drawn)
      else if e.kind == Some("handshake.request") && !handshaken then
        if !CompleteClient(e.payload) then Malformed(correlation, ids, drawn)
        else Served(HandshakeResponse(NewId(ids(drawn)), correlation, daemon), true, drawn + 1)
      else if e.kind == Some("health.request") && handshaken && e.payload == Some(Object([])) then
        Served(HealthResponse(NewId(ids(drawn)), correlation, daemon), false, drawn + 1)
      else Malformed(correlation, ids, drawn)
  }

  // What the client makes of a response

  predicate StartsWith(s: string, prefix: string) { |prefix| <= |s| && s[..|prefix|] == prefix }

  function LockedRetryable(code: string): Option<bool> {
    if code == "usage.invalid" || StartsWith(code, "config.") || StartsWith(code, "protocol.")
       || StartsWith(code, "authorization.") then Some(false)
    else if StartsWith(code, "lifecycle.") || code == "internal.unexpected" then Some(true)
    else None
  }

  const CODES := [
    "usage.invalid", "config.invalid", "config.unsupported_version", "config.secret_forbidden", "protocol.malformed",
    "protocol.unsupported_version", "protocol.oversized", "authorization.peer_uid", "lifecycle.daemon_running",
    "lifecycle.daemon_unavailable", "lifecycle.shutdown_timeout", "internal.unexpected"]

  /** `response_error_code`. */
  function ResponseErrorCode(response: string, correlation: string): Option<string> {
    var e := ReadEnvelope(response);
    if e.None? || e.value.protocol != Some(PROTOCOL) || e.value.version != Some("1")
       || e.value.kind != Some("error.response") || e.value.payload.Some? || e.value.id.None?
       || !ValidUuid(e.value.id.value)
       || e.value.correlation != Some(correlation) || e.value.error.None? || !e.value.error.value.Object? then None
    else ErrorCodeOf(e.value.error.value.fields)
  }

  function ErrorCodeOf(fs: seq<(string, Value)>): Option<string> {
    if |fs| != 3 || exists i :: 0 <= i < |fs| && fs[i].0 !in ["code", "message", "retryable"] then None
    else
      var code, message, retryable := StringField(fs, "code"), StringField(fs, "message"), Field(fs, "retryable");
      if code.None? || message.None? || retryable.None? || !retryable.value.Bool? then None
      else if LockedRetryable(code.value) != Some(retryable.value.b) then None
      else if code.value in CODES then code
      else None
  }

  /** `response_matches`. */
  predicate ResponseMatches(response: string, kind: string, correlation: string) {
    var e := ReadEnvelope(response);
    && e.Some? && e.value.protocol == Some(PROTOCOL) && e.value.version == Some("1") && e.value.kind == Some(kind)
    && e.value.id.Some? && ValidUuid(e.value.id.value) && e.value.correlation == Some(correlation)
    && e.value.payload.Some? && e.value.error.None? && e.value.payload.value.Object?
    && PayloadMatches(e.value.payload.value.fields, kind)
  }

  predicate PayloadMatches(fs: seq<(string, Value)>, kind: string) {
    var version, daemon := StringField(fs, "daemon_version"), StringField(fs, "daemon_instance_id");
    && kind in ["handshake.response", "health.response"]
    && HasExactFields(fs, if kind == "handshake.response"
                          then ["daemon_version", "daemon_instance_id", "protocol_version", "capabilities"]
                          else ["status", "daemon_version", "daemon_instance_id", "protocol_version"])
    && version.Some? && ValidSemver(version.value) && daemon.Some? && ValidUuid(daemon.value)
    && ("protocol_version", Number("1")) in fs
    && (if kind == "handshake.response" then ("capabilities", Array([Str("health")])) in fs
        else ("status", Str("ok")) in fs)
  }
}
