/** The two ends of the protocol understand each other. */
module ProtocolTheorems {
  import opened Options
  import opened JsonGrammar
  import opened JsonReading
  import opened JsonQuote
  import opened JsonPrinter
  import opened Semver
  import opened Protocol

  // Texts between quotes

  predicate PlainChar(c: char) { c != '"' && c != '\\' && !IsControl(c) }

  predicate PlainText(s: string) { forall i :: 0 <= i < |s| ==> PlainChar(s[i]) }

  lemma {:induction false} PlainIsEscaped(s: string)
    requires PlainText(s)
    ensures EscapedAll(s) == s
  {
    if s != "" {
      PlainIsEscaped(s[1..]);
      assert s == [s[0]] + s[1..];
      assert PlainChar(s[0]);
    }
  }

  /** A text without special characters may be put between quotes as it is. */
  lemma PlainIsQuote(s: string)
    requires PlainText(s)
    ensures Plain(s) == Quote(s)
  {
    PlainIsEscaped(s);
  }

  lemma UuidIsPlain(s: string)
    requires ValidUuid(s)
    ensures PlainText(s)
  {
    forall i | 0 <= i < |s| ensures PlainChar(s[i]) { assert UuidChar(s[i], i); }
  }

  lemma VersionIsValid()
    ensures ValidSemver(VERSION)
  {
    var v := Version.Version(["0", "1", "0"], [], []);
    assert v.core[1..] == ["1", "0"] && v.core[1..][1..] == ["0"];
    assert Dotted(["0"]) == "0" && Dotted(["1", "0"]) == "1.0" && Dotted(v.core) == "0.1.0";
    TextIsValid(v);
  }

  // Objects

  function Printed(fs: seq<(string, Value)>): (parts: seq<string>)
    ensures |parts| == |fs| && forall i :: 0 <= i < |fs| ==> parts[i] == Entry(fs[i].0, Print(fs[i].1))
  {
    seq(|fs|, i requires 0 <= i < |fs| => Entry(fs[i].0, Print(fs[i].1)))
  }

  lemma {:induction false} EntriesArePrinted(fs: seq<(string, Value)>, i: nat)
    requires i <= |fs|
    ensures Entries(Object(fs), i) == Printed(fs)[i..]
    decreases |fs| - i
  {
    hide Entry, Print;
    if i < |fs| {
      EntriesArePrinted(fs, i + 1);
      assert Printed(fs)[i..] == [Printed(fs)[i]] + Printed(fs)[i + 1..];
    }
  }

  lemma ObjectIsPrinted(fs: seq<(string, Value)>)
    ensures Print(Object(fs)) == Braces(Printed(fs))
  {
    EntriesArePrinted(fs, 0);
    assert Printed(fs)[0..] == Printed(fs);
  }

  lemma LabelIsEntry(key: string, v: Value)
    requires PlainText(key)
    ensures Label(key, Print(v)) == Entry(key, Print(v))
  {
    PlainIsQuote(key);
  }

  lemma OneIsPrinted()
    ensures Print(Number("1")) == "1" && Printable(Number("1"))
  {
    var n := Numeral(false, "1", None, None);
    assert n.Ok();
    assert n.Text() == "1";
  }

  // Lines

  lemma KeysArePlain()
    ensures PlainText("protocol") && PlainText("version") && PlainText("kind") && PlainText("id")
    ensures PlainText("correlation_id") && PlainText("payload") && PlainText("error") && PlainText(PROTOCOL)
  {
  }

  function Head(kind: string, id: string): seq<(string, Value)> {
    [("protocol", Str(PROTOCOL)), ("version", Number("1")), ("kind", Str(kind)), ("id", Str(id))]
  }

  function Fields(kind: string, id: string, rest: seq<(string, Value)>): seq<(string, Value)> { Head(kind, id) + rest }

  lemma PlainLabel(key: string, s: string)
    requires PlainText(key) && PlainText(s)
    ensures Label(key, Plain(s)) == Entry(key, Print(Str(s)))
  {
    hide Plain, Quote;
    PlainIsQuote(s);
    LabelIsEntry(key, Str(s));
  }

  lemma OneLabel(key: string)
    requires PlainText(key)
    ensures Label(key, "1") == Entry(key, Print(Number("1")))
  {
    hide Plain, Quote;
    OneIsPrinted();
    LabelIsEntry(key, Number("1"));
  }

  lemma HeadIsPrinted(kind: string, id: string)
    requires PlainText(kind) && PlainText(id)
    ensures Printed(Head(kind, id)) ==
      [Label("protocol", Plain(PROTOCOL)), Label("version", "1"), Label("kind", Plain(kind)), Label("id", Plain(id))]
  {
    hide PlainText, Print, Entry, Label, Plain;
    KeysArePlain();
    PlainLabel("protocol", PROTOCOL);
    OneLabel("version");
    PlainLabel("kind", kind);
    PlainLabel("id", id);
    var fs := Head(kind, id);
    assert Printed(fs)[0] == Entry(fs[0].0, Print(fs[0].1)) && Printed(fs)[1] == Entry(fs[1].0, Print(fs[1].1));
    assert Printed(fs)[2] == Entry(fs[2].0, Print(fs[2].1)) && Printed(fs)[3] == Entry(fs[3].0, Print(fs[3].1));
  }

  lemma PrintedJoin(fs: seq<(string, Value)>, more: seq<(string, Value)>)
    ensures Printed(fs + more) == Printed(fs) + Printed(more)
  {
    hide Print, Entry;
  }

  lemma LineIsPrinted(kind: string, id: string, parts: seq<string>, rest: seq<(string, Value)>)
    requires PlainText(kind) && PlainText(id) && parts == Printed(rest)
    ensures Line(kind, id, parts) == Print(Object(Fields(kind, id, rest))) + "\n"
  {
    hide PlainText, Print, Entry, Label, Plain, Braces, Printed, Head;
    HeadIsPrinted(kind, id);
    PrintedJoin(Head(kind, id), rest);
    ObjectIsPrinted(Fields(kind, id, rest));
  }

  predicate RestKey(key: string) { key in ["correlation_id", "payload", "error"] }

  ghost predicate RestKeys(rest: seq<(string, Value)>) { forall i :: 0 <= i < |rest| ==> RestKey(rest[i].0) }

  lemma HeadIsDistinct(kind: string, id: string)
    ensures Distinct(Head(kind, id))
    ensures forall i :: 0 <= i < 4 ==> !RestKey(Head(kind, id)[i].0) && EnvelopeKey(Head(kind, id)[i].0)
  {
  }

  lemma HeadIsPrintable(kind: string, id: string)
    ensures AllPrintable(Head(kind, id))
  {
    OneIsPrinted();
  }

  lemma FieldsAreDistinct(kind: string, id: string, rest: seq<(string, Value)>)
    requires Distinct(rest) && RestKeys(rest) && AllPrintable(rest)
    ensures Distinct(Fields(kind, id, rest)) && AllPrintable(Fields(kind, id, rest))
  {
    hide Head, RestKey, Printable;
    HeadIsDistinct(kind, id);
    HeadIsPrintable(kind, id);
    assert |Head(kind, id)| == 4 by { HeadHasFour(kind, id); }
  }

  lemma HeadHasFour(kind: string, id: string)
    ensures |Head(kind, id)| == 4
  {
  }

  /** A line is read as the envelope of its fields. */
  lemma LineIsParsed(kind: string, id: string, parts: seq<string>, rest: seq<(string, Value)>)
    requires PlainText(kind) && PlainText(id) && parts == Printed(rest)
    requires Distinct(rest) && RestKeys(rest) && AllPrintable(rest)
    ensures ReadEnvelope(Line(kind, id, parts)) == EnvelopeOf(Fields(kind, id, rest))
  {
    hide PlainText, Printed, RestKeys, Printable, Print, Line, Distinct, Fields, AllPrintable, EnvelopeOf, Parse;
    LineIsPrinted(kind, id, parts, rest);
    FieldsAreDistinct(kind, id, rest);
    var fs := Fields(kind, id, rest);
    ObjectIsPrintable(fs);
    var text := Print(Object(fs));
    assert "" + (text + "\n") == text + "\n";
    PrintedIsRead(Object(fs), "", "\n");
  }

  lemma {:induction false} FieldAt(fs: seq<(string, Value)>, i: nat, key: string)
    requires Distinct(fs) && i < |fs| && fs[i].0 == key
    ensures Field(fs, key) == Some(fs[i].1)
    decreases |fs|
  {
    if i > 0 { FieldAt(fs[1..], i - 1, key); }
  }

  lemma {:induction false} FieldAbsent(fs: seq<(string, Value)>, key: string)
    requires forall i :: 0 <= i < |fs| ==> fs[i].0 != key
    ensures Field(fs, key).None?
    decreases |fs|
  {
    if fs != [] { FieldAbsent(fs[1..], key); }
  }

  lemma {:induction false} FieldBeyond(fs: seq<(string, Value)>, rest: seq<(string, Value)>, key: string)
    requires forall i :: 0 <= i < |fs| ==> fs[i].0 != key
    ensures Field(fs + rest, key) == Field(rest, key)
    decreases |fs|
  {
    if fs == [] {
      assert fs + rest == rest;
    } else {
      assert (fs + rest)[1..] == fs[1..] + rest;
      FieldBeyond(fs[1..], rest, key);
    }
  }

  lemma HeadFields(kind: string, id: string, rest: seq<(string, Value)>)
    requires Distinct(rest) && RestKeys(rest) && AllPrintable(rest)
    ensures var fs := Fields(kind, id, rest);
      && Field(fs, "protocol") == Some(Str(PROTOCOL)) && Field(fs, "version") == Some(Number("1"))
      && Field(fs, "kind") == Some(Str(kind)) && Field(fs, "id") == Some(Str(id))
  {
    hide Distinct, RestKeys, AllPrintable, Field;
    FieldsAreDistinct(kind, id, rest);
    var fs := Fields(kind, id, rest);
    FieldAt(fs, 0, "protocol");
    FieldAt(fs, 1, "version");
    FieldAt(fs, 2, "kind");
    FieldAt(fs, 3, "id");
  }

  lemma RestField(kind: string, id: string, rest: seq<(string, Value)>, key: string)
    requires RestKey(key)
    ensures Field(Fields(kind, id, rest), key) == Field(rest, key)
  {
    hide Head, RestKey, Field;
    HeadIsDistinct(kind, id);
    HeadHasFour(kind, id);
    FieldBeyond(Head(kind, id), rest, key);
  }

  lemma KeysAllowed(kind: string, id: string, rest: seq<(string, Value)>)
    requires RestKeys(rest)
    ensures forall i :: 0 <= i < |Fields(kind, id, rest)| ==> EnvelopeKey(Fields(kind, id, rest)[i].0)
  {
    HeadIsDistinct(kind, id);
    HeadHasFour(kind, id);
    hide Head;
    forall i | 0 <= i < |rest| ensures EnvelopeKey(rest[i].0) { assert RestKey(rest[i].0); }
    hide EnvelopeKey;
  }

  /** The envelope of a well-formed line. */
  lemma LineIsRead(kind: string, id: string, parts: seq<string>, rest: seq<(string, Value)>)
    requires PlainText(kind) && PlainText(id) && parts == Printed(rest)
    requires Distinct(rest) && RestKeys(rest) && AllPrintable(rest)
    ensures ReadEnvelope(Line(kind, id, parts)) == Some(Envelope(
      Some(PROTOCOL), Some("1"), true, Some(kind), Some(id), StringField(rest, "correlation_id"),
      Field(rest, "correlation_id").Some?, Field(rest, "payload"), Field(rest, "error")))
  {
    hide Field, Fields, EnvelopeKey, Line, ReadEnvelope, PlainText, Printed, Distinct, RestKeys, AllPrintable;
    hide EnvelopeOf;
    LineIsParsed(kind, id, parts, rest);
    EnvelopeOfFields(kind, id, rest);
  }

  lemma EnvelopeOfFields(kind: string, id: string, rest: seq<(string, Value)>)
    requires Distinct(rest) && RestKeys(rest) && AllPrintable(rest)
    ensures EnvelopeOf(Fields(kind, id, rest)) == Some(Envelope(
      Some(PROTOCOL), Some("1"), true, Some(kind), Some(id), StringField(rest, "correlation_id"),
      Field(rest, "correlation_id").Some?, Field(rest, "payload"), Field(rest, "error")))
  {
    hide Field, Fields, EnvelopeKey, Distinct, RestKeys, AllPrintable;
    KeysAllowed(kind, id, rest);
    HeadFields(kind, id, rest);
    RestField(kind, id, rest, "correlation_id");
    RestField(kind, id, rest, "payload");
    RestField(kind, id, rest, "error");
  }

  // Requests and responses

  lemma BodyIsPrinted(key: string, body: Value)
    requires RestKey(key)
    ensures Printed([(key, body)]) == [Label(key, Print(body))]
  {
    hide PlainText, Print, Label, Entry;
    KeysArePlain();
    assert PlainText(key);
    LabelIsEntry(key, body);
  }

  lemma RequestIsRead(kind: string, id: string, payload: Value)
    requires PlainText(kind) && PlainText(id) && Printable(payload)
    ensures ReadEnvelope(Line(kind, id, [Label("payload", Print(payload))])) ==
      Some(Envelope(Some(PROTOCOL), Some("1"), true, Some(kind), Some(id), None, false, Some(payload), None))
  {
    hide PlainText, Print, Printable, Line, Label, ReadEnvelope;
    hide Field, Distinct, RestKeys, AllPrintable;
    var rest := [("payload", payload)];
    BodyIsPrinted("payload", payload);
    RequestRestFields(payload);
    LineIsRead(kind, id, Printed(rest), rest);
  }

  lemma RequestRestFields(payload: Value)
    requires Printable(payload)
    ensures var rest := [("payload", payload)];
      && Distinct(rest) && RestKeys(rest) && AllPrintable(rest) && Field(rest, "payload") == Some(payload)
      && Field(rest, "correlation_id").None? && Field(rest, "error").None?
  {
    hide Printable;
    var rest := [("payload", payload)];
    FieldAt(rest, 0, "payload");
    FieldAbsent(rest, "correlation_id");
    FieldAbsent(rest, "error");
  }

  function ResponseRest(correlation: string, key: string, body: Value): seq<(string, Value)> {
    [("correlation_id", Str(correlation))] + [(key, body)]
  }

  lemma ResponseRestFields(correlation: string, key: string, body: Value)
    requires key == "payload" || key == "error"
    ensures var rest := ResponseRest(correlation, key, body);
      && Distinct(rest) && RestKeys(rest) && Field(rest, "correlation_id") == Some(Str(correlation))
      && Field(rest, "payload") == (if key == "payload" then Some(body) else None)
      && Field(rest, "error") == (if key == "error" then Some(body) else None)
  {
    var rest := ResponseRest(correlation, key, body);
    assert rest[0].0 == "correlation_id" && rest[1].0 == key;
    FieldAt(rest, 0, "correlation_id");
    FieldAt(rest, 1, key);
    if key == "payload" { FieldAbsent(rest, "error"); } else { FieldAbsent(rest, "payload"); }
  }

  lemma ResponseRestPrinted(correlation: string, key: string, body: Value)
    requires key == "payload" || key == "error"
    ensures Printed(ResponseRest(correlation, key, body))
      == [Label("correlation_id", Quote(correlation)), Label(key, Print(body))]
  {
    assert Print(Str(correlation)) == Quote(correlation);
    hide Print, Label, Entry, Quote;
    BodyIsPrinted("correlation_id", Str(correlation));
    BodyIsPrinted(key, body);
    PrintedJoin([("correlation_id", Str(correlation))], [(key, body)]);
  }

  lemma ResponseRestPrintable(correlation: string, key: string, body: Value)
    requires Printable(body)
    ensures AllPrintable(ResponseRest(correlation, key, body))
  {
    assert Printable(Str(correlation));
  }

  /** A response carries the identifier of what it answers, and a payload or an error. */
  lemma ResponseIsRead(kind: string, id: string, correlation: string, key: string, body: Value)
    requires PlainText(kind) && PlainText(id) && Printable(body) && (key == "payload" || key == "error")
    ensures ReadEnvelope(Line(kind, id, [Label("correlation_id", Quote(correlation)), Label(key, Print(body))])) ==
      Some(Envelope(Some(PROTOCOL), Some("1"), true, Some(kind), Some(id), Some(correlation), true,
        Field(ResponseRest(correlation, key, body), "payload"), Field(ResponseRest(correlation, key, body), "error")))
  {
    hide PlainText, Print, Printable, Line, Label, ReadEnvelope, Quote, Printed, Distinct, RestKeys, Field;
    hide ResponseRest;
    hide AllPrintable;
    var rest := ResponseRest(correlation, key, body);
    ResponseRestFields(correlation, key, body);
    ResponseRestPrinted(correlation, key, body);
    ResponseRestPrintable(correlation, key, body);
    LineIsRead(kind, id, Printed(rest), rest);
  }

  lemma PayloadResponse(kind: string, id: string, correlation: string, payload: Value)
    requires PlainText(kind) && PlainText(id) && Printable(payload)
    ensures ReadEnvelope(Line(kind, id,
      [Label("correlation_id", Quote(correlation)), Label("payload", Print(payload))])) ==
      Some(Envelope(Some(PROTOCOL), Some("1"), true, Some(kind), Some(id), Some(correlation), true, Some(payload),
        None))
  {
    hide PlainText, Print, Printable, Line, Label, ReadEnvelope, Quote, Field, ResponseRest, Distinct, RestKeys;
    ResponseIsRead(kind, id, correlation, "payload", payload);
    ResponseRestFields(correlation, "payload", payload);
  }

  lemma ErrorResponseIsRead(id: string, correlation: string, error: Value)
    requires PlainText(id) && Printable(error)
    ensures ReadEnvelope(Line("error.response", id,
      [Label("correlation_id", Quote(correlation)), Label("error", Print(error))])) ==
      Some(Envelope(Some(PROTOCOL), Some("1"), true, Some("error.response"), Some(id), Some(correlation), true, None,
        Some(error)))
  {
    assert PlainText("error.response");
    hide PlainText, Print, Printable, Line, Label, ReadEnvelope, Quote, Field, ResponseRest, Distinct, RestKeys;
    ResponseIsRead("error.response", id, correlation, "error", error);
    ResponseRestFields(correlation, "error", error);
  }
}
