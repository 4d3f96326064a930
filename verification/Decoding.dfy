/** Readers for the octets that are digested: each gives back what was encoded, so
  that the order of the fields, their prefixes and the order of the octets in
  a number are fixed. */
module Decoding {
  import opened Options
  import opened Bytes
  import Utf8
  import opened Encoding

  // Numbers

  /** The number that octets spell, most significant first. */
  function Spelled(b: seq<byte>): nat {
    if b == [] then 0 else b[0] * Power256(|b| - 1) + Spelled(b[1..])
  }

  lemma {:induction false} SpelledMore(b: seq<byte>, x: byte)
    ensures Spelled(b + [x]) == 256 * Spelled(b) + x
    decreases |b|
  {
    if b == [] {
      assert b + [x] == [x] && [x][1..] == [] && Power256(0) == 1;
    } else {
      assert (b + [x])[1..] == b[1..] + [x];
      SpelledMore(b[1..], x);
      Times256(b[0], Power256(|b| - 1));
    }
  }

  lemma Times256(x: int, p: int)
    ensures x * (256 * p) == 256 * (x * p)
  {
  }

  /** The octets of a number spell it, most significant first, as far as they go. */
  lemma {:induction false} BigEndianSpells(n: nat, width: nat)
    requires n < Power256(width)
    ensures Spelled(BigEndian(n, width)) == n
    decreases width
  {
    if width > 0 {
      BigEndianSpells(n / 256, width - 1);
      SpelledMore(BigEndian(n / 256, width - 1), n % 256);
    }
  }

  function SpelledSigned(b: seq<byte>): int {
    if Spelled(b) < 0x8000_0000_0000_0000 then Spelled(b) else Spelled(b) - 0x1_0000_0000_0000_0000
  }

  /** The octets of a signed number spell it in two's complement. */
  lemma SignedSpells(n: int)
    requires Is64(n)
    ensures SpelledSigned(Signed64(n)) == n
  {
    hide BigEndian, Spelled, Power256;
    Powers();
    BigEndianSpells(n % 0x1_0000_0000_0000_0000, 8);
  }

  /** The number that decimal digits spell. */
  function FromDigits(s: string): int
    requires forall i :: 0 <= i < |s| ==> '0' <= s[i] <= '9'
  {
    if s == "" then 0 else 10 * FromDigits(s[..|s| - 1]) + (s[|s| - 1] as int - '0' as int)
  }

  predicate AreDigits(s: string) { s != "" && forall i :: 0 <= i < |s| ==> '0' <= s[i] <= '9' }

  function FromDecimal(s: string): Option<int> {
    if AreDigits(s) then Some(FromDigits(s))
    else if s != "" && s[0] == '-' && AreDigits(s[1..]) then Some(-FromDigits(s[1..]))
    else None
  }

  lemma {:induction false} DigitsSpell(n: nat)
    ensures AreDigits(Digits(n)) && FromDigits(Digits(n)) == n
  {
    var s := Digits(n);
    if n < 10 {
      assert s[..0] == "" && FromDigits("") == 0;
    } else {
      DigitsSpell(n / 10);
      assert s[..|s| - 1] == Digits(n / 10);
    }
  }

  lemma DecimalSpells(n: int)
    ensures FromDecimal(Decimal(n)) == Some(n)
  {
    hide Digits, FromDigits;
    if n < 0 {
      DigitsSpell(-n);
      assert Decimal(n)[1..] == Digits(-n) && Decimal(n)[0] == '-';
    } else {
      DigitsSpell(n);
    }
  }

  // Fields

  datatype Kind = NumberKind | TextKind | OptionalKind | LongKind | TaggedKind

  function KindOf(f: Field): Kind {
    match f
    case Number(_) => NumberKind
    case Text(_) => TextKind
    case Optional(_) => OptionalKind
    case Long(_) => LongKind
    case Tagged(_) => TaggedKind
  }

  /** A length, and a text of that length. */
  function ReadText(b: seq<byte>, width: nat): Option<(string, seq<byte>)> {
    if |b| < width || |b| < width + Spelled(b[..width]) then None
    else
      var end := width + Spelled(b[..width]);
      var text := Utf8.Decode(b[width..end]);
      if text.None? then None else Some((text.value, b[end..]))
  }

  function ReadField(k: Kind, b: seq<byte>): Option<(Field, seq<byte>)> {
    match k
    case NumberKind => if |b| < 8 then None else Some((Number(SpelledSigned(b[..8])), b[8..]))
    case TextKind =>
      var t := ReadText(b, 4);
      if t.None? then None else Some((Text(t.value.0), t.value.1))
    case OptionalKind =>
      if |b| >= 4 && Spelled(b[..4]) == 0xFFFF_FFFF then Some((Optional(None), b[4..]))
      else
        var t := ReadText(b, 4);
        if t.None? then None else Some((Optional(Some(t.value.0)), t.value.1))
    case LongKind =>
      var t := ReadText(b, 8);
      if t.None? then None else Some((Long(t.value.0), t.value.1))
    case TaggedKind =>
      if b == [] || b[0] > 1 then None
      else if b[0] == 0 then Some((Tagged(None), b[1..]))
      else
        var t := ReadText(b[1..], 8);
        if t.None? then None else Some((Tagged(Some(t.value.0)), t.value.1))
  }

  function ReadFields(ks: seq<Kind>, b: seq<byte>): (r: Option<(seq<Field>, seq<byte>)>)
    ensures r.Some? ==> |r.value.0| == |ks|
    decreases |ks|
  {
    if ks == [] then Some(([], b))
    else
      var first := ReadField(ks[0], b);
      if first.None? then None
      else
        var rest := ReadFields(ks[1..], first.value.1);
        if rest.None? then None else Some(([first.value.0] + rest.value.0, rest.value.1))
  }

  lemma TextIsRead(s: string, width: nat, rest: seq<byte>)
    requires |Utf8.Encode(s)| < Power256(width)
    ensures ReadText(Prefixed(s, width) + rest, width) == Some((s, rest))
  {
    hide BigEndian, Power256, Utf8.Encode, Utf8.Decode, Spelled;
    var a := Utf8.Encode(s);
    var m := BigEndian(|a|, width);
    var b := Prefixed(s, width) + rest;
    BigEndianSpells(|a|, width);
    assert b[..width] == m && b[width..width + |a|] == a && b[width + |a|..] == rest;
    Utf8.EncodedIsDecoded(s);
  }

  lemma FieldIsRead(f: Field, rest: seq<byte>)
    requires Sized(f)
    ensures ReadField(KindOf(f), FieldBytes(f) + rest) == Some((f, rest))
  {
    hide Prefixed, Signed64, ReadText, Utf8.Encode, BigEndian, Spelled, Power256;
    Powers();
    var b := FieldBytes(f) + rest;
    match f
    case Number(n) =>
      SignedLength(n);
      SignedSpells(n);
      assert b[..8] == Signed64(n) && b[8..] == rest;
    case Text(s) => TextIsRead(s, 4, rest);
    case Optional(o) => OptionalIsRead(o, rest);
    case Long(s) => TextIsRead(s, 8, rest);
    case Tagged(o) =>
      if o.Some? {
        TextIsRead(o.value, 8, rest);
        assert b[1..] == Prefixed(o.value, 8) + rest;
      } else {
        assert b[1..] == rest;
      }
  }

  lemma OptionalIsRead(o: Option<string>, rest: seq<byte>)
    requires Sized(Optional(o))
    ensures ReadField(OptionalKind, FieldBytes(Optional(o)) + rest) == Some((Optional(o), rest))
  {
    hide ReadText, Utf8.Encode, BigEndian, Spelled, Power256;
    Powers();
    MarkerIsAllOnes();
    BigEndianSpells(0xFFFF_FFFF, 4);
    var b := FieldBytes(Optional(o)) + rest;
    if o.Some? {
      TextIsRead(o.value, 4, rest);
      BigEndianSpells(|Utf8.Encode(o.value)|, 4);
      assert b[..4] == BigEndian(|Utf8.Encode(o.value)|, 4);
    } else {
      assert b[..4] == NOTHING && b[4..] == rest;
    }
  }

  function KindsOf(fs: seq<Field>): (ks: seq<Kind>)
    ensures |ks| == |fs| && forall i :: 0 <= i < |fs| ==> ks[i] == KindOf(fs[i])
  {
    if fs == [] then [] else [KindOf(fs[0])] + KindsOf(fs[1..])
  }

  lemma {:induction false} LayoutIsRead(fs: seq<Field>, rest: seq<byte>)
    requires AllSized(fs)
    ensures ReadFields(KindsOf(fs), Layout(fs) + rest) == Some((fs, rest))
    decreases |fs|
  {
    hide ReadField, FieldBytes, Sized, KindOf, KindsOf, ReadFields;
    if fs == [] {
      assert Layout(fs) + rest == rest;
      NoKinds(rest);
    } else {
      var more := Layout(fs[1..]) + rest;
      FieldIsRead(fs[0], more);
      LayoutIsRead(fs[1..], rest);
      assert Layout(fs) + rest == FieldBytes(fs[0]) + more;
      KindsMore(fs);
      OneMoreRead(KindOf(fs[0]), KindsOf(fs[1..]), FieldBytes(fs[0]) + more, fs[0], more);
      assert fs == [fs[0]] + fs[1..];
    }
  }

  lemma NoKinds(rest: seq<byte>)
    ensures KindsOf([]) == [] && ReadFields([], rest) == Some(([], rest))
  {
  }

  lemma KindsMore(fs: seq<Field>)
    requires fs != []
    ensures KindsOf(fs) == [KindOf(fs[0])] + KindsOf(fs[1..])
  {
  }

  lemma OneMoreRead(k: Kind, ks: seq<Kind>, b: seq<byte>, f: Field, more: seq<byte>)
    requires ReadField(k, b) == Some((f, more)) && ReadFields(ks, more).Some?
    ensures ReadFields([k] + ks, b) == Some(([f] + ReadFields(ks, more).value.0, ReadFields(ks, more).value.1))
  {
    hide ReadField;
    assert ([k] + ks)[1..] == ks;
  }

  // Requests, decisions and histories

  /** What follows the name of the format, if it is there. */
  function Behind(b: seq<byte>, format: string): Option<seq<byte>> {
    var magic := Utf8.Encode(format);
    if |magic| <= |b| && b[..|magic|] == magic then Some(b[|magic|..]) else None
  }

  lemma IsBehind(format: string, rest: seq<byte>)
    ensures Behind(Utf8.Encode(format) + rest, format) == Some(rest)
  {
    hide Utf8.Encode;
    var magic := Utf8.Encode(format);
    assert (magic + rest)[..|magic|] == magic && (magic + rest)[|magic|..] == rest;
  }

  const RECOVERY_KINDS := [
    TextKind, TextKind, TextKind, TextKind, NumberKind, NumberKind, OptionalKind, OptionalKind, OptionalKind,
    OptionalKind, OptionalKind, OptionalKind, OptionalKind]

  function DecodeRecovery(b: seq<byte>): Option<Recovery> {
    var body := Behind(b, "akashic/recovery/v1\0");
    if body.None? then None
    else
      var read := ReadFields(RECOVERY_KINDS, body.value);
      if read.None? || read.value.1 != [] then None else RecoveryFrom(read.value.0)
  }

  /** The request with these fields in the order of the format: format version one, and
    a target, an authorization and its scope in any case. */
  function RecoveryFrom(fs: seq<Field>): Option<Recovery>
    requires |fs| == 13
  {
    if !(fs[0].Text? && fs[1].Text? && fs[2].Text? && fs[3].Text? && fs[4].Number? && fs[5].Number?)
       || !(forall i :: 6 <= i < 13 ==> fs[i].Optional?) then None
    else if fs[5].number != 1 || fs[6].optional.None? || fs[11].optional.None? || fs[12].optional.None? then None
    else
      Some(Recovery(
        fs[0].text, fs[1].text, fs[2].text, fs[3].text, fs[4].number, fs[6].optional.value, fs[7].optional,
        fs[8].optional, fs[9].optional, fs[10].optional, fs[11].optional.value, fs[12].optional.value))
  }

  /** A recovery request can be read back from the octets that stand for it. */
  lemma RecoveryIsDecoded(r: Recovery)
    requires AllSized(RecoveryFields(r))
    ensures DecodeRecovery(RecoveryBytes(r)) == Some(r)
  {
    hide Layout, ReadFields, Utf8.Encode, AllSized, Behind;
    var fs := RecoveryFields(r);
    IsBehind("akashic/recovery/v1\0", Layout(fs));
    LayoutIsRead(fs, []);
    assert Layout(fs) + [] == Layout(fs);
    assert KindsOf(fs) == RECOVERY_KINDS;
  }

  const DECISION_KINDS := [
    NumberKind, NumberKind, TextKind, TextKind, TextKind, TextKind, TextKind, TextKind]

  function DecodeDecision(b: seq<byte>): Option<Decision> {
    var body := Behind(b, "akashic/decision/v1\0");
    if body.None? then None
    else
      var read := ReadFields(DECISION_KINDS, body.value);
      if read.None? || read.value.1 != [] then None else DecisionFrom(read.value.0)
  }

  function DecisionFrom(fs: seq<Field>): Option<Decision>
    requires |fs| == 8
  {
    if !(fs[0].Number? && fs[1].Number?) || !(forall i :: 2 <= i < 8 ==> fs[i].Text?) then None
    else
      Some(Decision(
        fs[0].number, fs[1].number, fs[2].text, fs[3].text, fs[4].text, fs[5].text, fs[6].text, fs[7].text))
  }

  /** So can a decision. */
  lemma DecisionIsDecoded(d: Decision)
    requires AllSized(DecisionFields(d))
    ensures DecodeDecision(DecisionBytes(d)) == Some(d)
  {
    hide Layout, ReadFields, Utf8.Encode, AllSized, Behind;
    var fs := DecisionFields(d);
    IsBehind("akashic/decision/v1\0", Layout(fs));
    LayoutIsRead(fs, []);
    assert Layout(fs) + [] == Layout(fs);
    assert KindsOf(fs) == DECISION_KINDS;
  }

  const ROW_KINDS := [LongKind, LongKind, LongKind, LongKind, TaggedKind]

  function DecodeHistory(b: seq<byte>): Option<seq<Event>>
    decreases |b|
  {
    if b == [] then Some([])
    else
      var read := ReadFields(ROW_KINDS, b);
      if read.None? || |read.value.1| >= |b| then None
      else
        var row, rest := EventFrom(read.value.0), DecodeHistory(read.value.1);
        if row.None? || rest.None? then None else Some([row.value] + rest.value)
  }

  function EventFrom(fs: seq<Field>): Option<Event>
    requires |fs| == 5
  {
    if !(forall i :: 0 <= i < 4 ==> fs[i].Long?) || !fs[4].Tagged? then None
    else
      var n := FromDecimal(fs[1].text);
      if n.None? then None else Some(Event(fs[0].text, n.value, fs[2].text, fs[3].text, fs[4].tagged))
  }

  lemma RowIsRead(e: Event, rest: seq<byte>)
    requires Representable(e)
    ensures ReadFields(ROW_KINDS, Layout(RowFields(e)) + rest) == Some((RowFields(e), rest))
    ensures EventFrom(RowFields(e)) == Some(e)
  {
    hide Layout, ReadFields, Decimal, FromDecimal, Sized;
    LayoutIsRead(RowFields(e), rest);
    assert KindsOf(RowFields(e)) == ROW_KINDS;
    DecimalSpells(e.sequence);
  }

  /** And a history, event by event. */
  lemma {:induction false} HistoryIsDecoded(rows: seq<Event>)
    requires AllRepresentable(rows)
    ensures DecodeHistory(History(rows)) == Some(rows)
    decreases |rows|
  {
    hide RowFields, Layout, Representable, ReadFields, EventFrom;
    if rows != [] {
      RowIsRead(rows[0], History(rows[1..]));
      RowIsNotEmpty(rows[0]);
      HistoryIsDecoded(rows[1..]);
      assert rows == [rows[0]] + rows[1..];
    }
  }
}
