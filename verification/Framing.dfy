/** Every message is one line, and the client's requests fit into any line limit
  that may be configured. */
module Framing {
  import opened Options
  import opened Bytes
  import Utf8
  import Hexadecimal
  import opened JsonGrammar
  import opened JsonQuote
  import opened JsonPrinter
  import opened Protocol
  import opened ProtocolTheorems
  import opened Frames

  predicate Clean(s: string) { '\n' !in s }

  lemma CleanJoin(s: string, t: string)
    ensures Clean(s + t) <==> Clean(s) && Clean(t)
  {
    if !Clean(s) {
      var i :| 0 <= i < |s| && s[i] == '\n';
      assert (s + t)[i] == '\n';
    }
    if !Clean(t) {
      var i :| 0 <= i < |t| && t[i] == '\n';
      assert (s + t)[|s| + i] == '\n';
    }
  }

  lemma PlainIsClean(s: string)
    requires PlainText(s)
    ensures Clean(s)
  {
    assert IsControl('\n');
    forall i | 0 <= i < |s| ensures s[i] != '\n' { assert PlainChar(s[i]); }
  }

  lemma EscapedIsClean(c: char)
    ensures Clean(Escaped(c))
  {
    var digits := Hexadecimal.Padded(c as nat, 4);
    assert forall i :: 0 <= i < |digits| ==> Hexadecimal.IsLowerHex(digits[i]);
  }

  lemma {:induction false} QuoteIsClean(s: string)
    ensures Clean(EscapedAll(s)) && Clean(Quote(s))
  {
    hide Escaped;
    if s != "" {
      EscapedIsClean(s[0]);
      QuoteIsClean(s[1..]);
      CleanJoin(Escaped(s[0]), EscapedAll(s[1..]));
    }
  }

  ghost predicate AllClean(parts: seq<string>) { forall i :: 0 <= i < |parts| ==> Clean(parts[i]) }

  lemma {:induction false} CommasAreClean(parts: seq<string>)
    requires AllClean(parts)
    ensures Clean(Commas(parts)) && Clean(Braces(parts)) && Clean(Brackets(parts))
    decreases |parts|
  {
    hide Clean;
    if |parts| > 1 {
      CommasAreClean(parts[1..]);
      CleanJoin([','], Commas(parts[1..]));
      CleanJoin(parts[0], [','] + Commas(parts[1..]));
    }
    CleanSigns();
    CleanJoin(Commas(parts), ['}']);
    CleanJoin(['{'], Commas(parts) + ['}']);
    CleanJoin(Commas(parts), [']']);
    CleanJoin(['['], Commas(parts) + [']']);
  }

  lemma CleanSigns()
    ensures Clean("") && Clean([',']) && Clean(['{']) && Clean(['}']) && Clean(['[']) && Clean([']']) && Clean(['"'])
    ensures Clean([':']) && Clean("1") && Clean("false") && Clean("true")
  {
  }

  lemma LabelIsClean(key: string, text: string)
    requires Clean(key) && Clean(text)
    ensures Clean(Label(key, text))
  {
    hide Clean, Plain;
    CleanSigns();
    PlainKeepsClean(key);
    CleanJoin([':'], text);
    CleanJoin(Plain(key), [':'] + text);
  }

  lemma PlainKeepsClean(s: string)
    requires Clean(s)
    ensures Clean(Plain(s))
  {
    hide Clean;
    CleanSigns();
    CleanJoin(s, ['"']);
    CleanJoin(['"'], s + ['"']);
  }

  /** A line without its newline. */
  function LineBody(kind: string, id: string, rest: seq<string>): string {
    Braces([Label("protocol", Plain(PROTOCOL)), Label("version", "1"), Label("kind", Plain(kind)),
      Label("id", Plain(id))] + rest)
  }

  lemma LineIsOneLine(kind: string, id: string, rest: seq<string>)
    requires Clean(kind) && Clean(id) && AllClean(rest)
    ensures Line(kind, id, rest) == LineBody(kind, id, rest) + "\n" && Clean(LineBody(kind, id, rest))
  {
    hide Clean, Plain, Label, Braces;
    KeysArePlain();
    PlainIsClean("protocol");
    PlainIsClean("version");
    PlainIsClean("kind");
    PlainIsClean("id");
    PlainIsClean(PROTOCOL);
    CleanSigns();
    PlainKeepsClean(PROTOCOL);
    PlainKeepsClean(kind);
    PlainKeepsClean(id);
    LabelIsClean("protocol", Plain(PROTOCOL));
    LabelIsClean("version", "1");
    LabelIsClean("kind", Plain(kind));
    LabelIsClean("id", Plain(id));
    CommasAreClean(
      [Label("protocol", Plain(PROTOCOL)), Label("version", "1"), Label("kind", Plain(kind)), Label("id", Plain(id))]
        + rest);
  }

  /** The text is one line: its newline is its last character and its only one. */
  ghost predicate OneLine(s: string) { exists body :: s == body + "\n" && Clean(body) }

  // Octets

  lemma {:induction false} EncodedIsClean(s: string)
    requires Clean(s)
    ensures NEWLINE !in Utf8.Encode(s)
  {
    if s != "" {
      assert s[0] != '\n';
      EncodedIsClean(s[1..]);
    }
  }

  /** One line makes one frame. */
  lemma OneLineIsOneFrame(s: string, rest: seq<byte>, max: nat)
    requires OneLine(s) && |Utf8.Encode(s)| <= max
    ensures Split(Utf8.Encode(s) + rest, max) == [Complete(Utf8.Encode(s))] + Split(rest, max)
  {
    var body :| s == body + "\n" && Clean(body);
    Utf8.EncodeJoin(body, "\n");
    assert Utf8.Encode("\n") == [NEWLINE] by { assert "\n"[1..] == ""; }
    EncodedIsClean(body);
    LineAhead(Utf8.Encode(body), rest, max);
    Utf8.EncodedIsDecoded(s);
  }

  predicate Ascii(s: string) { forall i :: 0 <= i < |s| ==> s[i] as int < 0x80 }

  lemma {:induction false} AsciiLength(s: string)
    requires Ascii(s)
    ensures |Utf8.Encode(s)| == |s|
  {
    if s != "" { AsciiLength(s[1..]); }
  }

  /** A part that is ASCII and not longer than that. */
  predicate Short(s: string, n: nat) { Ascii(s) && |s| <= n }

  lemma ShortJoin(s: string, t: string, m: nat, n: nat)
    requires Short(s, m) && Short(t, n)
    ensures Short(s + t, m + n)
  {
  }

  lemma ShortLabel(key: string, text: string, m: nat, n: nat)
    requires Short(key, m) && Short(text, n)
    ensures Short(Label(key, text), m + n + 3)
  {
  }

  lemma ShortPlain(s: string, n: nat)
    requires Short(s, n)
    ensures Short(Plain(s), n + 2)
  {
  }

  lemma {:induction false} ShortCommas(parts: seq<string>, n: nat)
    requires forall i :: 0 <= i < |parts| ==> Short(parts[i], n)
    ensures Short(Commas(parts), |parts| * (n + 1)) && Short(Braces(parts), |parts| * (n + 1) + 2)
    decreases |parts|
  {
    hide Short;
    EmptyIsShort();
    if parts != [] {
      ShortCommas(parts[1..], n);
      ShortTail(parts, n);
    }
    assert |parts| * (n + 1) == if parts == [] then 0 else (n + 1) + (|parts| - 1) * (n + 1);
    ShortJoin(Commas(parts), ['}'], |parts| * (n + 1), 1);
    ShortJoin(['{'], Commas(parts) + ['}'], 1, |parts| * (n + 1) + 1);
  }

  lemma EmptyIsShort()
    ensures Short("", 0) && Short(['{'], 1) && Short(['}'], 1) && Short([','], 1)
  {
  }

  lemma ShortTail(parts: seq<string>, n: nat)
    requires parts != [] && Short(parts[0], n) && Short(Commas(parts[1..]), (|parts| - 1) * (n + 1))
    ensures Short(Commas(parts), (n + 1) + (|parts| - 1) * (n + 1))
  {
    if |parts| > 1 {
      EmptyIsShort();
      var rest := Commas(parts[1..]);
      hide Commas;
      ShortJoin([','], rest, 1, (|parts| - 1) * (n + 1));
      ShortJoin(parts[0], [','] + rest, n, 1 + (|parts| - 1) * (n + 1));
    }
  }

  lemma UuidIsShort(s: string)
    requires ValidUuid(s)
    ensures Short(s, 36) && Clean(s)
  {
    forall i | 0 <= i < |s| ensures s[i] as int < 0x80 && s[i] != '\n' { assert UuidChar(s[i], i); }
  }

  lemma WordsAreShort()
    ensures Short("protocol", 8) && Short(PROTOCOL, 13) && Short("version", 7) && Short("1", 1) && Short("kind", 4)
    ensures Short("id", 2) && Short("payload", 7) && Short("client_role", 11) && Short("client_version", 14)
    ensures Short("client_instance_id", 18) && Short(VERSION, 5) && Short("tui", 6) && Short("jsonl", 6)
      && Short("doctor", 6)
    ensures Short("handshake.request", 17) && Short("health.request", 14)
  {
  }

  lemma Longer(s: string, m: nat, n: nat)
    requires Short(s, m) && m <= n
    ensures Short(s, n)
  {
  }

  lemma LineIsShort(kind: string, id: string, payload: string)
    requires Short(kind, 17) && Short(id, 36) && Short(payload, 185)
    ensures Short(Line(kind, id, [Label("payload", payload)]), 1024)
  {
    hide Short, Plain, Label, Braces;
    WordsAreShort();
    ShortPlain(PROTOCOL, 13);
    ShortPlain(kind, 17);
    ShortPlain(id, 36);
    ShortLabel("protocol", Plain(PROTOCOL), 8, 15);
    ShortLabel("version", "1", 7, 1);
    ShortLabel("kind", Plain(kind), 4, 19);
    ShortLabel("id", Plain(id), 2, 38);
    ShortLabel("payload", payload, 7, 185);
    Longer(Label("protocol", Plain(PROTOCOL)), 26, 195);
    Longer(Label("version", "1"), 11, 195);
    Longer(Label("kind", Plain(kind)), 26, 195);
    Longer(Label("id", Plain(id)), 43, 195);
    var parts := [Label("protocol", Plain(PROTOCOL)), Label("version", "1"), Label("kind", Plain(kind)),
      Label("id", Plain(id))]
      + [Label("payload", payload)];
    ShortCommas(parts, 195);
    assert Short("\n", 1) by { NewlineIsShort(); }
    ShortJoin(Braces(parts), "\n", 982, 1);
    Longer(Braces(parts) + "\n", 983, 1024);
  }

  lemma NewlineIsShort()
    ensures Short("\n", 1)
  {
  }

  lemma ClientIsShort(role: string, instance: string)
    requires Short(role, 6) && Short(instance, 36)
    ensures Short(Braces([
      Label("client_role", Plain(role)), Label("client_version", Plain(VERSION)),
      Label("client_instance_id", Plain(instance))]), 185)
  {
    hide Short, Plain, Label, Braces;
    WordsAreShort();
    ShortPlain(role, 6);
    ShortPlain(VERSION, 5);
    ShortPlain(instance, 36);
    ShortLabel("client_role", Plain(role), 11, 8);
    ShortLabel("client_version", Plain(VERSION), 14, 7);
    ShortLabel("client_instance_id", Plain(instance), 18, 38);
    Longer(Label("client_role", Plain(role)), 22, 59);
    Longer(Label("client_version", Plain(VERSION)), 24, 59);
    var parts := [
      Label("client_role", Plain(role)), Label("client_version", Plain(VERSION)),
      Label("client_instance_id", Plain(instance))];
    ShortCommas(parts, 59);
    Longer(Braces(parts), 182, 185);
  }

  /** The client's requests are single lines of at most 1024 octets. */
  lemma RequestsFit(role: string, id: string, instance: string)
    requires role in ["tui", "jsonl", "doctor"] && ValidUuid(id) && ValidUuid(instance)
    ensures OneLine(HandshakeRequest(role, id, instance)) && |Utf8.Encode(HandshakeRequest(role, id, instance))| <= 1024
    ensures OneLine(HealthRequest(id)) && |Utf8.Encode(HealthRequest(id))| <= 1024
  {
    hide ValidUuid, Label, Plain, Braces, Short;
    WordsAreShort();
    UuidIsShort(id);
    UuidIsShort(instance);
    ClientIsShort(role, instance);
    EmptyBracesAreShort();
    Longer("health.request", 14, 17);
    var client := Braces([
      Label("client_role", Plain(role)), Label("client_version", Plain(VERSION)),
      Label("client_instance_id", Plain(instance))]);
    ShortLineFits("handshake.request", id, client);
    ShortLineFits("health.request", id, Braces([]));
    RequestsAreOneLine(role, id, instance);
  }

  lemma ShortLineFits(kind: string, id: string, payload: string)
    requires Short(kind, 17) && Short(id, 36) && Short(payload, 185)
    ensures |Utf8.Encode(Line(kind, id, [Label("payload", payload)]))| <= 1024
  {
    LineIsShort(kind, id, payload);
    AsciiLength(Line(kind, id, [Label("payload", payload)]));
  }

  lemma EmptyBracesAreShort()
    ensures Short(Braces([]), 185) && Clean(Braces([]))
  {
    assert Braces([]) == "{}";
  }

  lemma RequestsAreOneLine(role: string, id: string, instance: string)
    requires role in ["tui", "jsonl", "doctor"] && ValidUuid(id) && ValidUuid(instance)
    ensures OneLine(HandshakeRequest(role, id, instance)) && OneLine(HealthRequest(id))
  {
    hide Clean, Plain, Label, Braces, Short, ValidUuid;
    CleanWords();
    UuidIsShort(id);
    UuidIsShort(instance);
    EmptyBracesAreShort();
    PlainKeepsClean(role);
    PlainKeepsClean(VERSION);
    PlainKeepsClean(instance);
    LabelIsClean("client_role", Plain(role));
    LabelIsClean("client_version", Plain(VERSION));
    LabelIsClean("client_instance_id", Plain(instance));
    var parts := [
      Label("client_role", Plain(role)), Label("client_version", Plain(VERSION)),
      Label("client_instance_id", Plain(instance))];
    CommasAreClean(parts);
    LabelIsClean("payload", Braces(parts));
    LabelIsClean("payload", Braces([]));
    LineIsOneLine("handshake.request", id, [Label("payload", Braces(parts))]);
    LineIsOneLine("health.request", id, [Label("payload", Braces([]))]);
  }

  lemma CleanWords()
    ensures Clean("tui") && Clean("jsonl") && Clean("doctor") && Clean(VERSION) && Clean("client_role")
    ensures Clean("client_version") && Clean("client_instance_id") && Clean("payload") && Clean("handshake.request")
    ensures Clean("health.request") && Clean("correlation_id")
  {
  }

  lemma CleanResponseWords()
    ensures Clean("daemon_version") && Clean("daemon_instance_id") && Clean("protocol_version") && Clean("capabilities")
    ensures Clean("health") && Clean("status") && Clean("ok") && Clean("handshake.response") && Clean("health.response")
  {
  }

  lemma CleanErrorWords()
    ensures Clean("error") && Clean("code") && Clean("message") && Clean("retryable") && Clean("error.response")
  {
  }

  lemma NewIdIsClean(counter: nat)
    ensures Clean(NewId(counter)) && PlainText(NewId(counter))
  {
    hide IdPrefix, Hexadecimal.Padded;
    IdPrefixShape();
    var digits := Hexadecimal.Padded(counter % 0x1_0000_0000_0000_0000, 12);
    var s := NewId(counter);
    forall i | 0 <= i < |s| ensures PlainChar(s[i]) {
      if i < 24 { assert UuidChar(s[i], i); } else { assert s[i] == digits[i - 24]; }
    }
    PlainIsClean(s);
  }

  lemma ResponseLine(kind: string, id: string, correlation: string, key: string, body: string)
    requires Clean(kind) && Clean(id) && Clean(key) && Clean(body)
    ensures OneLine(Line(kind, id, [Label("correlation_id", Quote(correlation)), Label(key, body)]))
  {
    hide Clean, Label, Quote, Line, LineBody;
    CleanWords();
    QuoteIsClean(correlation);
    LabelIsClean("correlation_id", Quote(correlation));
    LabelIsClean(key, body);
    LineIsOneLine(kind, id, [Label("correlation_id", Quote(correlation)), Label(key, body)]);
  }

  lemma HandshakeIsOneLine(id: string, correlation: string, daemon: string)
    requires Clean(id)
    ensures OneLine(HandshakeResponse(id, correlation, daemon))
  {
    hide Clean, Label, Quote, Plain, Braces, Brackets, Line, OneLine;
    CleanWords();
    CleanResponseWords();
    CleanSigns();
    QuoteIsClean(daemon);
    PlainKeepsClean(VERSION);
    PlainKeepsClean("health");
    CommasAreClean([Plain("health")]);
    LabelIsClean("daemon_version", Plain(VERSION));
    LabelIsClean("daemon_instance_id", Quote(daemon));
    LabelIsClean("protocol_version", "1");
    LabelIsClean("capabilities", Brackets([Plain("health")]));
    var parts := [Label("daemon_version", Plain(VERSION)), Label("daemon_instance_id", Quote(daemon)),
                  Label("protocol_version", "1"), Label("capabilities", Brackets([Plain("health")]))];
    CommasAreClean(parts);
    ResponseLine("handshake.response", id, correlation, "payload", Braces(parts));
  }

  lemma HealthIsOneLine(id: string, correlation: string, daemon: string)
    requires Clean(id)
    ensures OneLine(HealthResponse(id, correlation, daemon))
  {
    hide Clean, Label, Quote, Plain, Braces, Brackets, Line, OneLine;
    CleanWords();
    CleanResponseWords();
    CleanSigns();
    QuoteIsClean(daemon);
    PlainKeepsClean(VERSION);
    PlainKeepsClean("ok");
    LabelIsClean("status", Plain("ok"));
    LabelIsClean("daemon_version", Plain(VERSION));
    LabelIsClean("daemon_instance_id", Quote(daemon));
    LabelIsClean("protocol_version", "1");
    var parts := [Label("status", Plain("ok")), Label("daemon_version", Plain(VERSION)),
                  Label("daemon_instance_id", Quote(daemon)), Label("protocol_version", "1")];
    CommasAreClean(parts);
    ResponseLine("health.response", id, correlation, "payload", Braces(parts));
  }

  lemma ErrorIsOneLine(id: string, correlation: string, code: string, message: string)
    requires Clean(id)
    ensures OneLine(ErrorResponse(id, correlation, code, message))
  {
    hide Clean, Label, Quote, Plain, Braces, Brackets, Line, OneLine;
    CleanErrorWords();
    CleanSigns();
    QuoteIsClean(code);
    QuoteIsClean(message);
    LabelIsClean("code", Quote(code));
    LabelIsClean("message", Quote(message));
    LabelIsClean("retryable", "false");
    CommasAreClean([Label("code", Quote(code)), Label("message", Quote(message)), Label("retryable", "false")]);
    ResponseLine("error.response", id, correlation, "error", ErrorText(code, message, false));
  }

  /** Whatever a request contains, and whatever the daemon calls itself, its answer
    is one line: nothing in it can break the framing of the answers. */
  lemma AnswerIsOneLine(line: seq<byte>, handshaken: bool, daemon: string, ids: Supply, drawn: nat)
    ensures OneLine(HandleRequest(line, handshaken, daemon, ids, drawn).response)
  {
    hide OneLine, NewId, HandshakeResponse, HealthResponse, ErrorResponse, ReadEnvelope, CompleteClient, ValidUuid;
    hide CorrelationPrefix;
    hide HandleRequest;
    var response := HandleRequest(line, handshaken, daemon, ids, drawn).response;
    var form := ResponseForm(line, handshaken, daemon, ids, drawn);
    NewIdIsClean(ids(form.id));
    HandshakeIsOneLine(NewId(ids(form.id)), form.correlation, daemon);
    HealthIsOneLine(NewId(ids(form.id)), form.correlation, daemon);
    ErrorIsOneLine(NewId(ids(form.id)), form.correlation, form.code, form.message);
  }

  /** What an answer is made of: which identifier it draws, what it answers, and
    the error that it may be. */
  datatype Form = Form(id: nat, correlation: string, code: string, message: string)

  /** The three forms of an answer. */
  predicate HasForm(served: Served, handshaken: bool, daemon: string, ids: Supply, form: Form) {
    var id := NewId(ids(form.id));
    || (served.completed && !handshaken && served.response == HandshakeResponse(id, form.correlation, daemon))
    || (!served.completed && handshaken && served.response == HealthResponse(id, form.correlation, daemon))
    || (!served.completed && served.response == ErrorResponse(id, form.correlation, form.code, form.message))
  }

  lemma ResponseForm(line: seq<byte>, handshaken: bool, daemon: string, ids: Supply, drawn: nat) returns (form: Form)
    ensures HasForm(HandleRequest(line, handshaken, daemon, ids, drawn), handshaken, daemon, ids, form)
  {
    hide NewId, HandshakeResponse, HealthResponse, ErrorResponse, ReadEnvelope, CompleteClient, ValidUuid;
    var text := Utf8.Decode(line);
    if text.None? {
      form := Form(drawn + 1, NewId(ids(drawn)), "protocol.malformed", "malformed request");
    } else {
      var e := ReadEnvelope(text.value);
      if e.None? {
        var (correlation, n) := CorrelationPrefix(line, ids, drawn);
        form := Form(n, correlation, "protocol.malformed", "malformed request");
      } else {
        form := AnswerForm(e.value, handshaken, daemon, ids, drawn);
      }
    }
  }

  lemma AnswerForm(e: Envelope, handshaken: bool, daemon: string, ids: Supply, drawn: nat) returns (form: Form)
    ensures HasForm(Answer(e, handshaken, daemon, ids, drawn), handshaken, daemon, ids, form)
  {
    hide NewId, HandshakeResponse, HealthResponse, ErrorResponse, CompleteClient, ValidUuid;
    var valid := e.id.Some? && ValidUuid(e.id.value);
    var id := if valid then drawn else drawn + 1;
    var correlation := if valid then e.id.value else NewId(ids(drawn));
    form := Form(id, correlation, "protocol.malformed", "malformed request");
    if !HasForm(Answer(e, handshaken, daemon, ids, drawn), handshaken, daemon, ids, form) {
      form := Form(id, correlation, "protocol.unsupported_version", "unsupported protocol");
    }
  }
}
