/** Which lines are requests that succeed and how every other line is refused,
  stated of the fields that a line spells. */
module Requests {
  import opened Options
  import opened Bytes
  import Utf8
  import opened JsonGrammar
  import opened JsonReading
  import Theorems = JsonTheorems
  import opened JsonPrinter
  import opened JsonQuote
  import Semver
  import opened Protocol
  import opened ProtocolTheorems
  import opened Exchange
  import opened Framing
  import opened Frames
  import opened Connection

  type FieldList = seq<(string, Value)>

  // Identifiers

  predicate HexText(s: string, length: nat) {
    |s| == length && forall i :: 0 <= i < |s| ==> s[i] in "0123456789abcdefABCDEF"
  }

  /** Five groups of hexadecimal digits. */
  predicate Groups(a: string, b: string, c: string, d: string, e: string) {
    HexText(a, 8) && HexText(b, 4) && HexText(c, 4) && HexText(d, 4) && HexText(e, 12)
  }

  ghost predicate IsUuid(s: string) {
    exists a, b, c, d, e :: Groups(a, b, c, d, e) && s == a + "-" + b + "-" + c + "-" + d + "-" + e
  }

  lemma HexDigits(c: char)
    ensures IsHexDigit(c) <==> c in "0123456789abcdefABCDEF"
  {
    var digits := "0123456789abcdefABCDEF";
    if '0' <= c <= '9' {
      assert digits[c as int - '0' as int] == c;
    } else if 'a' <= c <= 'f' {
      assert digits[c as int - 'a' as int + 10] == c;
    } else if 'A' <= c <= 'F' {
      assert digits[c as int - 'A' as int + 16] == c;
    }
  }

  lemma HexAt(s: string, from: nat, to: nat)
    requires ValidUuid(s) && from <= to <= 36
    requires (from, to) in {(0, 8), (9, 13), (14, 18), (19, 23), (24, 36)}
    ensures HexText(s[from..to], to - from)
  {
    var group := s[from..to];
    forall i | 0 <= i < |group| ensures group[i] in "0123456789abcdefABCDEF" {
      assert UuidChar(s[from + i], from + i) && group[i] == s[from + i];
      HexDigits(group[i]);
    }
  }

  lemma ValidIsFiveGroups(s: string)
    requires ValidUuid(s)
    ensures IsUuid(s)
  {
    hide HexText;
    HexAt(s, 0, 8);
    HexAt(s, 9, 13);
    HexAt(s, 14, 18);
    HexAt(s, 19, 23);
    HexAt(s, 24, 36);
    HyphensBetween(s);
    assert Groups(s[0..8], s[9..13], s[14..18], s[19..23], s[24..36]);
  }

  lemma HyphensBetween(s: string)
    requires ValidUuid(s)
    ensures s == s[0..8] + "-" + s[9..13] + "-" + s[14..18] + "-" + s[19..23] + "-" + s[24..36]
  {
    assert UuidChar(s[8], 8) && UuidChar(s[13], 13) && UuidChar(s[18], 18) && UuidChar(s[23], 23);
    hide ValidUuid;
  }

  lemma FiveGroupsAreValid(a: string, b: string, c: string, d: string, e: string)
    requires Groups(a, b, c, d, e)
    ensures ValidUuid(a + "-" + b + "-" + c + "-" + d + "-" + e)
  {
    var s := a + "-" + b + "-" + c + "-" + d + "-" + e;
    assert s[..8] == a && s[9..13] == b && s[14..18] == c && s[19..23] == d && s[24..] == e;
    assert s[8] == s[13] == s[18] == s[23] == '-';
    forall i | 0 <= i < 36 ensures UuidChar(s[i], i) {
      if i !in {8, 13, 18, 23} { HexInGroup(s, i); }
    }
  }

  lemma HexInGroup(s: string, i: nat)
    requires |s| == 36 && i < 36 && i !in {8, 13, 18, 23}
    requires Groups(s[..8], s[9..13], s[14..18], s[19..23], s[24..])
    ensures IsHexDigit(s[i])
  {
    HexDigits(s[i]);
    if i < 8 {
      assert s[i] == s[..8][i];
    } else if i < 13 {
      assert s[i] == s[9..13][i - 9];
    } else if i < 18 {
      assert s[i] == s[14..18][i - 14];
    } else if i < 23 {
      assert s[i] == s[19..23][i - 19];
    } else {
      assert s[i] == s[24..][i - 24];
    }
  }

  /** The check on identifiers accepts exactly five groups of hexadecimal digits
    with hyphens between them. */
  lemma UuidIsFiveGroups(s: string)
    ensures ValidUuid(s) <==> IsUuid(s)
  {
    hide ValidUuid, Groups;
    if ValidUuid(s) { ValidIsFiveGroups(s); }
    if a, b, c, d, e :| Groups(a, b, c, d, e) && s == a + "-" + b + "-" + c + "-" + d + "-" + e {
      FiveGroupsAreValid(a, b, c, d, e);
    }
  }

  // What a line spells

  /** The line is the UTF-8 form of a JSON text for an object with these fields. */
  ghost predicate LineSpells(line: seq<byte>, fs: FieldList) {
    exists text :: line == Utf8.Encode(text) && Spells(text, Object(fs))
  }

  ghost predicate NoOther(fs: FieldList, keys: seq<string>) { forall i :: 0 <= i < |fs| ==> fs[i].0 in keys }

  ghost predicate Lacks(fs: FieldList, key: string) { forall i :: 0 <= i < |fs| ==> fs[i].0 != key }

  const KEYS := ["protocol", "version", "kind", "id", "correlation_id", "payload", "error"]

  /** The fields of a message that can be answered by its identifier: none but the
    seven, a UUID as identifier and as correlation if there is one, and a number
    as version. */
  ghost predicate WellFormed(fs: FieldList) {
    && NoOther(fs, KEYS)
    && (exists id :: ("id", Str(id)) in fs && IsUuid(id))
    && (Lacks(fs, "correlation_id") || exists id :: ("correlation_id", Str(id)) in fs && IsUuid(id))
    && (exists n :: ("version", Number(n)) in fs)
  }

  predicate Supported(fs: FieldList) { ("protocol", Str("akashic.local")) in fs && ("version", Number("1")) in fs }

  ghost predicate IsVersion(s: string) { exists v: Semver.Version :: v.Ok() && v.Text() == s }

  /** What a client says of itself: these three and nothing else. */
  ghost predicate IsClient(fs: FieldList) {
    && |fs| == 3
    && (exists role :: role in ["tui", "jsonl", "doctor"] && ("client_role", Str(role)) in fs)
    && (exists version :: IsVersion(version) && ("client_version", Str(version)) in fs)
    && (exists instance :: IsUuid(instance) && ("client_instance_id", Str(instance)) in fs)
  }

  ghost predicate AsksHandshake(fs: FieldList) {
    && WellFormed(fs) && Supported(fs) && ("kind", Str("handshake.request")) in fs && Lacks(fs, "error")
    && exists client :: ("payload", Object(client)) in fs && IsClient(client)
  }

  ghost predicate AsksHealth(fs: FieldList) {
    && WellFormed(fs) && Supported(fs) && ("kind", Str("health.request")) in fs && Lacks(fs, "error")
    && ("payload", Object([])) in fs
  }

  // Looking up fields

  lemma {:induction false} FieldIsMember(fs: FieldList, key: string)
    requires Distinct(fs)
    ensures Field(fs, key).None? <==> Lacks(fs, key)
    ensures forall v :: Field(fs, key) == Some(v) <==> (key, v) in fs
    decreases |fs|
  {
    if fs != [] {
      FieldIsMember(fs[1..], key);
      assert fs == [fs[0]] + fs[1..];
      if fs[0].0 == key {
        forall i | 1 <= i < |fs| ensures fs[i].0 != key {}
      }
    }
  }

  lemma LineParses(line: seq<byte>, fs: FieldList)
    ensures LineSpells(line, fs) <==>
      var text := Utf8.Decode(line); text.Some? && Parse(text.value) == Some(Object(fs))
  {
    hide Utf8.Decode, Utf8.Encode, Parse, Spells;
    var text := Utf8.Decode(line);
    if text.Some? {
      Utf8.DecodedIsEncoded(line);
      Theorems.ParseIsTheDialect(text.value, Object(fs));
    }
    if t :| line == Utf8.Encode(t) && Spells(t, Object(fs)) {
      Utf8.EncodedIsDecoded(t);
      Theorems.ParseIsTheDialect(t, Object(fs));
    }
  }

  /** No key is there twice, in the object and in the objects it holds. */
  ghost predicate Keyed(fs: FieldList) {
    Distinct(fs) && forall ps :: ("payload", Object(ps)) in fs ==> Distinct(ps)
  }

  lemma ParsedIsKeyed(text: string, fs: FieldList)
    requires Parse(text) == Some(Object(fs))
    ensures Keyed(fs)
  {
    hide Parse, Print;
    ReadIsPrintable(text, Object(fs));
    forall ps | ("payload", Object(ps)) in fs ensures Distinct(ps) {
      var i :| 0 <= i < |fs| && fs[i] == ("payload", Object(ps));
      assert Printable(fs[i].1);
    }
  }

  // The envelope

  lemma EnvelopeExactly(fs: FieldList)
    ensures EnvelopeOf(fs).Some? <==> NoOther(fs, KEYS)
  {
  }

  /** What is well formed, in terms of the envelope. */
  predicate Addressed(e: Envelope) {
    && e.id.Some? && ValidUuid(e.id.value)
    && (e.correlationPresent ==> e.correlation.Some? && ValidUuid(e.correlation.value))
    && e.version.Some?
  }

  lemma WellFormedExactly(fs: FieldList)
    requires Distinct(fs)
    ensures WellFormed(fs) <==> EnvelopeOf(fs).Some? && Addressed(EnvelopeOf(fs).value)
  {
    hide Field, Distinct, IsUuid, ValidUuid, Lacks, NoOther, EnvelopeKey;
    EnvelopeExactly(fs);
    FieldIsMember(fs, "id");
    FieldIsMember(fs, "correlation_id");
    FieldIsMember(fs, "version");
    forall id ensures ValidUuid(id) <==> IsUuid(id) { UuidIsFiveGroups(id); }
    hide EnvelopeOf;
  }

  lemma ClientExactly(fs: FieldList)
    requires Distinct(fs)
    ensures CompleteClient(Some(Object(fs))) <==> IsClient(fs)
  {
    hide Field, Distinct, IsUuid, ValidUuid, IsVersion, Semver.ValidSemver;
    FieldIsMember(fs, "client_role");
    FieldIsMember(fs, "client_version");
    FieldIsMember(fs, "client_instance_id");
    forall id ensures ValidUuid(id) <==> IsUuid(id) { UuidIsFiveGroups(id); }
    forall version ensures Semver.ValidSemver(version) <==> IsVersion(version) { VersionExactly(version); }
  }

  lemma VersionExactly(version: string)
    ensures Semver.ValidSemver(version) <==> IsVersion(version)
  {
    Semver.SemverIsTheGrammar(version);
  }

  predicate Current(e: Envelope) { e.protocol == Some("akashic.local") && e.version == Some("1") }

  predicate WantsHandshake(e: Envelope) {
    Addressed(e) && Current(e) && e.kind == Some("handshake.request") && e.error.None? && CompleteClient(e.payload)
  }

  predicate WantsHealth(e: Envelope) {
    Addressed(e) && Current(e) && e.kind == Some("health.request") && e.error.None? && e.payload == Some(Object([]))
  }

  lemma HandshakeFields(fs: FieldList)
    requires Keyed(fs)
    ensures AsksHandshake(fs) <==> EnvelopeOf(fs).Some? && WantsHandshake(EnvelopeOf(fs).value)
  {
    hide Field, Distinct, WellFormed, CompleteClient, IsClient, Addressed, NoOther;
    WellFormedExactly(fs);
    FieldIsMember(fs, "protocol");
    FieldIsMember(fs, "version");
    FieldIsMember(fs, "kind");
    FieldIsMember(fs, "payload");
    FieldIsMember(fs, "error");
    var payload := Field(fs, "payload");
    if payload.Some? && payload.value.Object? { ClientExactly(payload.value.fields); }
    if !(payload.Some? && payload.value.Object?) { NoClient(payload); }
  }

  lemma NoClient(payload: Option<Value>)
    requires !(payload.Some? && payload.value.Object?)
    ensures !CompleteClient(payload)
  {
  }

  lemma HealthFields(fs: FieldList)
    requires Keyed(fs)
    ensures AsksHealth(fs) <==> EnvelopeOf(fs).Some? && WantsHealth(EnvelopeOf(fs).value)
  {
    hide Field, Distinct, WellFormed, Addressed, NoOther;
    WellFormedExactly(fs);
    FieldIsMember(fs, "protocol");
    FieldIsMember(fs, "version");
    FieldIsMember(fs, "kind");
    FieldIsMember(fs, "payload");
    FieldIsMember(fs, "error");
  }

  lemma SupportedFields(fs: FieldList)
    requires Keyed(fs) && EnvelopeOf(fs).Some?
    ensures Supported(fs) <==> Current(EnvelopeOf(fs).value)
  {
    hide Field, Distinct;
    FieldIsMember(fs, "protocol");
    FieldIsMember(fs, "version");
  }

  // The four answers

  /** What an answer is: a response of the kind asked for, or one of two refusals. */
  datatype Verdict = Handshake | Health | Unsupported | Malformation

  ghost function VerdictOn(line: seq<byte>, handshaken: bool): Verdict {
    if !handshaken && exists fs :: LineSpells(line, fs) && AsksHandshake(fs) then Handshake
    else if handshaken && exists fs :: LineSpells(line, fs) && AsksHealth(fs) then Health
    else if exists fs :: LineSpells(line, fs) && WellFormed(fs) && !Supported(fs) then Unsupported
    else Malformation
  }

  /** The response that the daemon formats for each of them. */
  function Formatted(v: Verdict, id: string, correlation: string, daemon: string): string {
    match v
    case Handshake => HandshakeResponse(id, correlation, daemon)
    case Health => HealthResponse(id, correlation, daemon)
    case Unsupported => ErrorResponse(id, correlation, "protocol.unsupported_version", "unsupported protocol")
    case Malformation => ErrorResponse(id, correlation, "protocol.malformed", "malformed request")
  }

  function VerdictOf(e: Envelope, handshaken: bool): Verdict {
    if !handshaken && WantsHandshake(e) then Handshake
    else if handshaken && WantsHealth(e) then Health
    else if Addressed(e) && !Current(e) then Unsupported
    else Malformation
  }

  lemma EnvelopeAnswered(e: Envelope, handshaken: bool, daemon: string, ids: Supply, drawn: nat)
    requires e.version.Some? ==> e.versionPresent
    requires e.correlation.Some? ==> e.correlationPresent
    ensures var named := e.id.Some? && ValidUuid(e.id.value);
      var correlation := if named then e.id.value else NewId(ids(drawn));
      var n := if named then drawn else drawn + 1;
      var v := VerdictOf(e, handshaken);
      Answer(e, handshaken, daemon, ids, drawn)
        == Served(Formatted(v, NewId(ids(n)), correlation, daemon), v.Handshake?, n + 1)
  {
    hide ValidUuid, CompleteClient, HandshakeResponse, HealthResponse, ErrorResponse, NewId;
    assert CompleteClient(e.payload) ==> e.payload.Some? by { if e.payload.None? { NoClient(e.payload); } }
  }

  lemma FieldsJudged(fs: FieldList, handshaken: bool)
    requires Keyed(fs) && EnvelopeOf(fs).Some?
    ensures VerdictOf(EnvelopeOf(fs).value, handshaken) ==
      if !handshaken && AsksHandshake(fs) then Handshake
      else if handshaken && AsksHealth(fs) then Health
      else if WellFormed(fs) && !Supported(fs) then Unsupported
      else Malformation
  {
    hide AsksHandshake, AsksHealth, WellFormed, Supported, WantsHandshake, WantsHealth, Addressed, Current, EnvelopeOf;
    HandshakeFields(fs);
    HealthFields(fs);
    SupportedFields(fs);
    WellFormedExactly(fs);
  }

  lemma VerdictOnFields(line: seq<byte>, fs: FieldList, handshaken: bool)
    requires LineSpells(line, fs) && (forall gs :: LineSpells(line, gs) ==> gs == fs)
    ensures VerdictOn(line, handshaken) ==
      if !handshaken && AsksHandshake(fs) then Handshake
      else if handshaken && AsksHealth(fs) then Health
      else if WellFormed(fs) && !Supported(fs) then Unsupported
      else Malformation
  {
    hide LineSpells, AsksHandshake, AsksHealth, WellFormed, Supported;
  }

  lemma OneReading(line: seq<byte>, fs: FieldList, gs: FieldList)
    requires LineSpells(line, fs) && LineSpells(line, gs)
    ensures gs == fs
  {
    hide LineSpells, Parse, Utf8.Decode;
    LineParses(line, fs);
    LineParses(line, gs);
  }

  /** The answer to any line of octets is the one that its fields deserve: a response
    to a complete and supported request that is due, a refusal of the protocol
    or its version for a well-formed message, and a refusal as malformed for
    everything else. */
  lemma AnsweredByVerdict(line: seq<byte>, handshaken: bool, daemon: string, ids: Supply, drawn: nat)
    ensures var served := HandleRequest(line, handshaken, daemon, ids, drawn);
      var v := VerdictOn(line, handshaken);
      && served.completed == v.Handshake? && served.drawn > drawn
      && served.response
        == Formatted(v, NewId(ids(served.drawn - 1)), CorrelationOfLine(line, ids, drawn), daemon)
  {
    hide Formatted, NewId, ReadEnvelope, Answer, ValidUuid, VerdictOn, LineSpells, Utf8.Decode, ShownBy;
    hide CorrelationPrefix, Protocol.Malformed, ErrorResponse;
    PrefixShows(line, ids, drawn);
    var text := Utf8.Decode(line);
    if text.Some? && ReadEnvelope(text.value).Some? {
      ReadableAnswered(line, handshaken, daemon, ids, drawn);
    } else {
      UnreadableIsMalformed(line, handshaken);
      FormattedRefusal(CorrelationOfLine(line, ids, drawn), daemon, ids, drawn);
      FormattedRefusal(CorrelationOfLine(line, ids, drawn), daemon, ids, drawn + 1);
    }
  }

  lemma FormattedRefusal(correlation: string, daemon: string, ids: Supply, n: nat)
    ensures Protocol.Malformed(correlation, ids, n)
      == Served(Formatted(Malformation, NewId(ids(n)), correlation, daemon), false, n + 1)
  {
    hide ErrorResponse, NewId;
  }

  lemma UnreadableIsMalformed(line: seq<byte>, handshaken: bool)
    requires var text := Utf8.Decode(line); text.None? || ReadEnvelope(text.value).None?
    ensures VerdictOn(line, handshaken) == Malformation
  {
    hide LineSpells, Parse, Utf8.Decode, Supported, NoOther, IsUuid, Lacks, EnvelopeOf;
    forall fs | LineSpells(line, fs) ensures !WellFormed(fs) {
      LineParses(line, fs);
      EnvelopeExactly(fs);
    }
  }

  lemma ReadableAnswered(line: seq<byte>, handshaken: bool, daemon: string, ids: Supply, drawn: nat)
    requires var text := Utf8.Decode(line); text.Some? && ReadEnvelope(text.value).Some?
    ensures var served := HandleRequest(line, handshaken, daemon, ids, drawn);
      var v := VerdictOn(line, handshaken);
      && served.completed == v.Handshake? && served.drawn > drawn
      && served.response
        == Formatted(v, NewId(ids(served.drawn - 1)), CorrelationOfLine(line, ids, drawn), daemon)
  {
    hide Formatted, NewId, Answer, ValidUuid, VerdictOn, LineSpells, Parse, Utf8.Decode, EnvelopeOf, VerdictOf, Keyed;
    var text := Utf8.Decode(line).value;
    var fs := Parse(text).value.fields;
    var e := EnvelopeOf(fs).value;
    LineParses(line, fs);
    ParsedIsKeyed(text, fs);
    forall gs | LineSpells(line, gs) ensures gs == fs { OneReading(line, fs, gs); }
    VerdictOnFields(line, fs, handshaken);
    FieldsJudged(fs, handshaken);
    Presence(fs);
    EnvelopeAnswered(e, handshaken, daemon, ids, drawn);
  }

  lemma Presence(fs: FieldList)
    requires EnvelopeOf(fs).Some?
    ensures var e := EnvelopeOf(fs).value;
      (e.version.Some? ==> e.versionPresent) && (e.correlation.Some? ==> e.correlationPresent)
  {
  }

  // What the client sees

  /** What each answer is to the client that reads it. */
  lemma VerdictIsSeen(v: Verdict, n: nat, correlation: string, daemon: string)
    requires n < 0x1_0000_0000_0000 && ValidUuid(daemon)
    ensures var response := Formatted(v, NewId(n), correlation, daemon);
      && (ResponseMatches(response, "handshake.response", correlation) <==> v.Handshake?)
      && (ResponseMatches(response, "health.response", correlation) <==> v.Health?)
      && ResponseErrorCode(response, correlation) ==
        match v
        case Unsupported => Some("protocol.unsupported_version")
        case Malformation => Some("protocol.malformed")
        case _ => None
  {
    hide ValidUuid, NewId, HandshakeResponse, HealthResponse, ErrorResponse, LockedRetryable, ResponseMatches;
    hide ResponseErrorCode, KindOf;
    NewIdIsUuid(n);
    DaemonCodesAreLocked();
    HandshakeKind(n, correlation, daemon);
    HealthKind(n, correlation, daemon);
    ErrorKind(n, correlation, "protocol.unsupported_version", "unsupported protocol");
    ErrorKind(n, correlation, "protocol.malformed", "malformed request");
    KindsTell(Formatted(v, NewId(n), correlation, daemon), correlation);
    match v
    case Handshake => HandshakeResponseMatches(NewId(n), correlation, daemon);
    case Health => HealthResponseMatches(NewId(n), correlation, daemon);
    case Unsupported => ErrorDecodes(NewId(n), correlation, "protocol.unsupported_version", "unsupported protocol");
    case Malformation => ErrorDecodes(NewId(n), correlation, "protocol.malformed", "malformed request");
  }

  lemma KindsTell(response: string, correlation: string)
    ensures ResponseMatches(response, "handshake.response", correlation) ==>
      KindOf(response) == Some("handshake.response")
    ensures ResponseMatches(response, "health.response", correlation) ==> KindOf(response) == Some("health.response")
    ensures ResponseErrorCode(response, correlation).Some? ==> KindOf(response) == Some("error.response")
    ensures |"handshake.response"| != |"health.response"| && |"error.response"| != |"health.response"|
    ensures |"handshake.response"| != |"error.response"|
  {
    hide ReadEnvelope, ValidUuid, PayloadMatches, ErrorCodeOf;
  }

  /** A line completes the handshake exactly when none has been completed and its
    fields ask for one, in a protocol and a version that are spoken here. */
  lemma HandshakeExactly(line: seq<byte>, handshaken: bool, daemon: string, ids: Supply, drawn: nat)
    ensures HandleRequest(line, handshaken, daemon, ids, drawn).completed <==>
      !handshaken && exists fs :: LineSpells(line, fs) && AsksHandshake(fs)
  {
    hide LineSpells, AsksHandshake, AsksHealth, HandleRequest, Formatted;
    AnsweredByVerdict(line, handshaken, daemon, ids, drawn);
  }

  /** Every line, read by the client under what the line is known by: a handshake
    response exactly for a handshake request that is due, a health response
    exactly for a health request after it, the error of the version exactly for
    a well-formed message of another protocol or version, and the error of
    malformed requests for all else. */
  lemma AnsweredExactly(line: seq<byte>, handshaken: bool, daemon: string, ids: Supply, drawn: nat)
    requires Supplies(ids) && ValidUuid(daemon)
    ensures var response := HandleRequest(line, handshaken, daemon, ids, drawn).response;
      var correlation := CorrelationOfLine(line, ids, drawn);
      var shakes := !handshaken && exists fs :: LineSpells(line, fs) && AsksHandshake(fs);
      var checks := handshaken && exists fs :: LineSpells(line, fs) && AsksHealth(fs);
      var foreign := exists fs :: LineSpells(line, fs) && WellFormed(fs) && !Supported(fs);
      && (ResponseMatches(response, "handshake.response", correlation) <==> shakes)
      && (ResponseMatches(response, "health.response", correlation) <==> checks)
      && ResponseErrorCode(response, correlation) ==
        if shakes || checks then None
        else if foreign then Some("protocol.unsupported_version")
        else Some("protocol.malformed")
  {
    hide LineSpells, AsksHandshake, AsksHealth, WellFormed, Supported, HandleRequest, Formatted, CorrelationOfLine;
    hide ResponseMatches, ResponseErrorCode, ValidUuid, NewId;
    AnsweredByVerdict(line, handshaken, daemon, ids, drawn);
    var served := HandleRequest(line, handshaken, daemon, ids, drawn);
    VerdictIsSeen(VerdictOn(line, handshaken), ids(served.drawn - 1), CorrelationOfLine(line, ids, drawn), daemon);
  }

  /** What a line is known by is its identifier, if its fields are those of a message. */
  lemma NamedExactly(line: seq<byte>, id: string)
    ensures NamedBy(line) == Some(id) <==>
      exists fs :: LineSpells(line, fs) && NoOther(fs, KEYS) && IsUuid(id) && ("id", Str(id)) in fs
  {
    hide LineSpells, Parse, Utf8.Decode, Field, Keyed, ValidUuid, IsUuid;
    UuidIsFiveGroups(id);
    if fs :| LineSpells(line, fs) && NoOther(fs, KEYS) && IsUuid(id) && ("id", Str(id)) in fs {
      LineParses(line, fs);
      IdIsField(Utf8.Decode(line).value, fs);
    }
    if NamedBy(line) == Some(id) {
      var text := Utf8.Decode(line).value;
      var fs := Parse(text).value.fields;
      LineParses(line, fs);
      IdIsField(text, fs);
    }
  }

  lemma IdIsField(text: string, fs: FieldList)
    requires Parse(text) == Some(Object(fs))
    ensures EnvelopeOf(fs).Some? <==> NoOther(fs, KEYS)
    ensures EnvelopeOf(fs).Some? ==> forall id :: EnvelopeOf(fs).value.id == Some(id) <==> ("id", Str(id)) in fs
  {
    hide Parse, Field;
    ParsedIsKeyed(text, fs);
    EnvelopeExactly(fs);
    FieldIsMember(fs, "id");
  }

  // Frames that are no requests

  /** A line that is too long, one that the stream ends in, and one that is no text
    are refused, each with its own error. */
  lemma FramesAreRefused(f: Frame, handshaken: bool, daemon: string, ids: Supply, drawn: nat)
    requires (f.Oversized? || f.Incomplete? || f.InvalidUtf8?) && Supplies(ids)
    ensures var served := Respond(f, handshaken, daemon, ids, drawn);
      && !served.completed
      && ResponseErrorCode(served.response, CorrelationOf(f, ids, drawn))
        == Some(if f.Oversized? then "protocol.oversized" else "protocol.malformed")
  {
    hide NewId, Refuse, ResponseErrorCode, CorrelationPrefix, ShownBy, Supplies;
    match f
    case Oversized(prefix) =>
      PrefixShows(prefix, ids, drawn);
      var (correlation, n) := CorrelationPrefix(prefix, ids, drawn);
      RefusalDecodes(correlation, "protocol.oversized", "request too large", ids, n);
    case Incomplete(tail) =>
      PrefixShows(tail, ids, drawn);
      var (correlation, n) := CorrelationPrefix(tail, ids, drawn);
      RefusalDecodes(correlation, "protocol.malformed", "malformed request", ids, n);
    case InvalidUtf8(_) => RefusalDecodes(NewId(ids(drawn)), "protocol.malformed", "malformed request", ids, drawn + 1);
  }

  lemma RefusalDecodes(correlation: string, code: string, message: string, ids: Supply, n: nat)
    requires Supplies(ids) && code in DAEMON_CODES
    ensures var served := Refuse(correlation, code, message, ids, n);
      !served.completed && ResponseErrorCode(served.response, correlation) == Some(code)
  {
    hide ValidUuid, NewId, ErrorResponse, ResponseErrorCode, LockedRetryable, DAEMON_CODES, CODES;
    DaemonCodesAreLocked();
    NewIdIsUuid(ids(n));
    ErrorDecodes(NewId(ids(n)), correlation, code, message);
  }

  // The identifiers of the responses

  function IdOf(response: string): Option<string> {
    var e := ReadEnvelope(response);
    if e.Some? then e.value.id else None
  }

  lemma HandshakeId(n: nat, correlation: string, daemon: string)
    ensures IdOf(HandshakeResponse(NewId(n), correlation, daemon)) == Some(NewId(n))
  {
    hide ReadEnvelope, Line, Label, Quote, Print, Printable, PlainText, NewId;
    NewIdIsClean(n);
    KindsArePlain();
    HandshakeIsPrinted(daemon);
    ResultsArePrintable(daemon);
    PayloadResponse("handshake.response", NewId(n), correlation, HandshakeValue(daemon));
  }

  lemma HealthId(n: nat, correlation: string, daemon: string)
    ensures IdOf(HealthResponse(NewId(n), correlation, daemon)) == Some(NewId(n))
  {
    hide ReadEnvelope, Line, Label, Quote, Print, Printable, PlainText, NewId;
    NewIdIsClean(n);
    KindsArePlain();
    HealthIsPrinted(daemon);
    ResultsArePrintable(daemon);
    PayloadResponse("health.response", NewId(n), correlation, HealthValue(daemon));
  }

  lemma ErrorId(n: nat, correlation: string, code: string, message: string)
    ensures IdOf(ErrorResponse(NewId(n), correlation, code, message)) == Some(NewId(n))
  {
    hide ReadEnvelope, Line, Label, Quote, Print, Printable, PlainText, NewId, ErrorText;
    NewIdIsClean(n);
    ErrorIsPrinted(code, message);
    ErrorIsPrintable(code, message);
    ErrorResponseIsRead(NewId(n), correlation, ErrorValue(code, message));
  }

  lemma FormattedId(v: Verdict, n: nat, correlation: string, daemon: string)
    ensures IdOf(Formatted(v, NewId(n), correlation, daemon)) == Some(NewId(n))
  {
    hide IdOf, HandshakeResponse, HealthResponse, ErrorResponse, NewId;
    match v
    case Handshake => HandshakeId(n, correlation, daemon);
    case Health => HealthId(n, correlation, daemon);
    case Unsupported => ErrorId(n, correlation, "protocol.unsupported_version", "unsupported protocol");
    case Malformation => ErrorId(n, correlation, "protocol.malformed", "malformed request");
  }

  /** Every response carries the identifier drawn last. */
  lemma ResponseHasNewId(f: Frame, handshaken: bool, daemon: string, ids: Supply, drawn: nat)
    requires Answered(f)
    ensures var served := Respond(f, handshaken, daemon, ids, drawn);
      served.drawn > drawn && IdOf(served.response) == Some(NewId(ids(served.drawn - 1)))
  {
    hide IdOf, HandleRequest, ErrorResponse, NewId, CorrelationPrefix, Formatted, CorrelationOfLine, ShownBy;
    match f
    case Complete(line) =>
      AnsweredByVerdict(line, handshaken, daemon, ids, drawn);
      var n := HandleRequest(line, handshaken, daemon, ids, drawn).drawn - 1;
      FormattedId(VerdictOn(line, handshaken), ids(n), CorrelationOfLine(line, ids, drawn), daemon);
    case Oversized(prefix) =>
      PrefixShows(prefix, ids, drawn);
      var (correlation, n) := CorrelationPrefix(prefix, ids, drawn);
      ErrorId(ids(n), correlation, "protocol.oversized", "request too large");
    case Incomplete(tail) =>
      PrefixShows(tail, ids, drawn);
      var (correlation, n) := CorrelationPrefix(tail, ids, drawn);
      ErrorId(ids(n), correlation, "protocol.malformed", "malformed request");
    case InvalidUtf8(_) =>
      ErrorId(ids(drawn + 1), NewId(ids(drawn)), "protocol.malformed", "malformed request");
  }

  /** The responses carry identifiers that were drawn one after another, from `drawn` on. */
  ghost predicate DrawnInTurn(rs: seq<string>, ids: Supply, drawn: nat)
    decreases |rs|
  {
    rs != [] ==> exists n :: n >= drawn && IdOf(rs[0]) == Some(NewId(ids(n))) && DrawnInTurn(rs[1..], ids, n + 1)
  }

  lemma OneMoreDrawn(r: string, rs: seq<string>, ids: Supply, drawn: nat, n: nat)
    requires n >= drawn && IdOf(r) == Some(NewId(ids(n))) && DrawnInTurn(rs, ids, n + 1)
    ensures DrawnInTurn([r] + rs, ids, drawn)
  {
    hide IdOf;
    assert ([r] + rs)[1..] == rs;
  }

  lemma {:induction false} RepliesAreDrawn(fs: seq<Frame>, handshaken: bool, daemon: string, ids: Supply, drawn: nat)
    ensures DrawnInTurn(Replies(fs, handshaken, daemon, ids, drawn), ids, drawn)
    decreases |fs|
  {
    hide IdOf, Respond, DrawnInTurn, Terminal;
    NothingIsDrawn(ids, drawn);
    if fs != [] && !fs[0].End? {
      if fs[0].Pending? {
        RepliesAreDrawn(fs[1..], handshaken, daemon, ids, drawn);
      } else {
        var served := Respond(fs[0], handshaken, daemon, ids, drawn);
        ResponseHasNewId(fs[0], handshaken, daemon, ids, drawn);
        NothingIsDrawn(ids, served.drawn);
        RepliesAreDrawn(fs[1..], handshaken || served.completed, daemon, ids, served.drawn);
        var rest := if Terminal(fs[0]) then []
          else Replies(fs[1..], handshaken || served.completed, daemon, ids, served.drawn);
        OneMoreDrawn(served.response, rest, ids, drawn, served.drawn - 1);
      }
    }
  }

  lemma NothingIsDrawn(ids: Supply, drawn: nat)
    ensures DrawnInTurn([], ids, drawn)
  {
  }

  /** The counter does not come round while the connection lasts. */
  ghost predicate NeverRepeats(ids: Supply) {
    && (forall i :: ids(i) < 0x1_0000_0000_0000_0000)
    && (forall i, j :: ids(i) == ids(j) ==> i == j)
  }

  lemma {:induction false} DrawnAtLeast(rs: seq<string>, ids: Supply, drawn: nat, i: nat) returns (n: nat)
    requires DrawnInTurn(rs, ids, drawn) && i < |rs|
    ensures n >= drawn && IdOf(rs[i]) == Some(NewId(ids(n)))
    decreases |rs|
  {
    hide IdOf, NewId;
    var first: nat :| first >= drawn && IdOf(rs[0]) == Some(NewId(ids(first))) && DrawnInTurn(rs[1..], ids, first + 1);
    n := first;
    if i > 0 { n := DrawnAtLeast(rs[1..], ids, first + 1, i - 1); }
  }

  lemma {:induction false} DrawnDiffer(rs: seq<string>, ids: Supply, drawn: nat, i: nat, j: nat)
    requires DrawnInTurn(rs, ids, drawn) && i < j < |rs| && NeverRepeats(ids)
    ensures IdOf(rs[i]) != IdOf(rs[j])
    decreases |rs|
  {
    hide IdOf, NewId;
    var first: nat :| first >= drawn && IdOf(rs[0]) == Some(NewId(ids(first))) && DrawnInTurn(rs[1..], ids, first + 1);
    if i == 0 {
      var n := DrawnAtLeast(rs[1..], ids, first + 1, j - 1);
      assert rs[1..][j - 1] == rs[j];
      if NewId(ids(first)) == NewId(ids(n)) { NewIdsDiffer(ids(first), ids(n)); }
    } else {
      DrawnDiffer(rs[1..], ids, first + 1, i - 1, j - 1);
    }
  }

  /** Whatever a connection is sent, no two of its responses carry the same
    identifier, as long as the counter does not repeat itself. */
  lemma ResponsesAreDistinct(fs: seq<Frame>, handshaken: bool, daemon: string, ids: Supply, drawn: nat, i: nat, j: nat)
    requires NeverRepeats(ids) && i < j < |Replies(fs, handshaken, daemon, ids, drawn)|
    ensures var rs := Replies(fs, handshaken, daemon, ids, drawn); IdOf(rs[i]) != IdOf(rs[j])
  {
    hide IdOf, Replies, DrawnInTurn, NeverRepeats;
    RepliesAreDrawn(fs, handshaken, daemon, ids, drawn);
    DrawnDiffer(Replies(fs, handshaken, daemon, ids, drawn), ids, drawn, i, j);
  }

  // What the responses say

  /** The bodies of the two responses, field by field. */
  lemma ResponsesSay(n: nat, correlation: string, daemon: string)
    ensures var e := ReadEnvelope(HandshakeResponse(NewId(n), correlation, daemon));
      e.Some? && e.value.payload == Some(Object([
        ("daemon_version", Str("0.1.0")), ("daemon_instance_id", Str(daemon)), ("protocol_version", Number("1")),
        ("capabilities", Array([Str("health")]))]))
    ensures var e := ReadEnvelope(HealthResponse(NewId(n), correlation, daemon));
      e.Some? && e.value.payload == Some(Object([
        ("status", Str("ok")), ("daemon_version", Str("0.1.0")), ("daemon_instance_id", Str(daemon)),
        ("protocol_version", Number("1"))]))
  {
    hide ReadEnvelope, Line, Label, Quote, Print, Printable, PlainText, NewId;
    NewIdIsClean(n);
    KindsArePlain();
    HandshakeIsPrinted(daemon);
    HealthIsPrinted(daemon);
    ResultsArePrintable(daemon);
    PayloadResponse("handshake.response", NewId(n), correlation, HandshakeValue(daemon));
    PayloadResponse("health.response", NewId(n), correlation, HealthValue(daemon));
  }
}
