/** What is fed to the digests: length-prefixed fields, one after another. */
module Encoding {
  import opened Options
  import opened Bytes
  import Utf8

  // Numbers

  function Power256(k: nat): (p: nat)
    ensures p > 0
  {
    if k == 0 then 1 else 256 * Power256(k - 1)
  }

  /** The low-order octets, most significant first: what does not fit is cut off. */
  function BigEndian(n: nat, width: nat): (b: seq<byte>)
    ensures |b| == width
  {
    if width == 0 then [] else BigEndian(n / 256, width - 1) + [n % 256]
  }

  lemma {:induction false} BigEndianInjective(m: nat, n: nat, width: nat)
    requires m < Power256(width) && n < Power256(width) && BigEndian(m, width) == BigEndian(n, width)
    ensures m == n
  {
    if width > 0 {
      var a, b := BigEndian(m / 256, width - 1), BigEndian(n / 256, width - 1);
      assert a == (a + [m % 256])[..width - 1] == (b + [n % 256])[..width - 1] == b;
      assert (a + [m % 256])[width - 1] == m % 256 && (b + [n % 256])[width - 1] == n % 256;
      BigEndianInjective(m / 256, n / 256, width - 1);
    }
  }

  lemma Powers()
    ensures Power256(4) == 0x1_0000_0000 && Power256(8) == 0x1_0000_0000_0000_0000
  {
    assert Power256(0) == 1 && Power256(1) == 256 && Power256(2) == 0x1_0000 && Power256(3) == 0x100_0000;
    assert Power256(5) == 0x100_0000_0000 && Power256(6) == 0x1_0000_0000_0000 && Power256(7) == 0x100_0000_0000_0000;
  }

  /** The octets of a signed 64-bit integer, in two's complement. */
  function Signed64(n: int): seq<byte> { BigEndian(n % 0x1_0000_0000_0000_0000, 8) }

  predicate Is64(n: int) { -0x8000_0000_0000_0000 <= n < 0x8000_0000_0000_0000 }

  lemma Signed64Injective(m: int, n: int)
    requires Is64(m) && Is64(n) && Signed64(m) == Signed64(n)
    ensures m == n
  {
    hide BigEndian, Power256;
    Powers();
    BigEndianInjective(m % 0x1_0000_0000_0000_0000, n % 0x1_0000_0000_0000_0000, 8);
  }

  function Digits(n: nat): (s: string)
    ensures s != "" && s[0] != '-'
  {
    if n < 10 then [('0' as int + n) as char] else Digits(n / 10) + [('0' as int + n % 10) as char]
  }

  function Decimal(n: int): string { if n < 0 then "-" + Digits(-n) else Digits(n) }

  lemma {:induction false} DigitsInjective(m: nat, n: nat)
    requires Digits(m) == Digits(n)
    ensures m == n
  {
    var s, t := Digits(m), Digits(n);
    assert s[|s| - 1] == ('0' as int + m % 10) as char && t[|t| - 1] == ('0' as int + n % 10) as char;
    if m >= 10 && n >= 10 {
      assert s[..|s| - 1] == Digits(m / 10) && t[..|t| - 1] == Digits(n / 10);
      DigitsInjective(m / 10, n / 10);
    }
  }

  lemma DecimalInjective(m: int, n: int)
    requires Decimal(m) == Decimal(n)
    ensures m == n
  {
    assert m < 0 ==> Decimal(m)[0] == '-' && Decimal(m)[1..] == Digits(-m);
    assert n < 0 ==> Decimal(n)[0] == '-' && Decimal(n)[1..] == Digits(-n);
    if m < 0 && n < 0 {
      DigitsInjective(-m, -n);
    } else if m >= 0 && n >= 0 {
      DigitsInjective(m, n);
    }
  }

  // Fields

  datatype Field =
    | Number(number: int)
    | Text(text: string)
    | Optional(optional: Option<string>)
    | Long(text: string)
    | Tagged(tagged: Option<string>)

  const NOTHING: seq<byte> := [0xFF, 0xFF, 0xFF, 0xFF]

  function Prefixed(s: string, width: nat): seq<byte> { BigEndian(|Utf8.Encode(s)|, width) + Utf8.Encode(s) }

  function FieldBytes(f: Field): seq<byte> {
    match f
    case Number(n) => Signed64(n)
    case Text(s) => Prefixed(s, 4)
    case Optional(o) => if o.Some? then Prefixed(o.value, 4) else NOTHING
    case Long(s) => Prefixed(s, 8)
    case Tagged(o) => if o.Some? then [1] + Prefixed(o.value, 8) else [0]
  }

  /** The field is in the range of its machine type, and its length in that of its prefix. */
  predicate Sized(f: Field) {
    match f
    case Number(n) => Is64(n)
    case Text(s) => |Utf8.Encode(s)| < 0x1_0000_0000
    case Optional(o) => o.Some? ==> |Utf8.Encode(o.value)| < 0xFFFF_FFFF
    case Long(s) => |Utf8.Encode(s)| < 0x1_0000_0000_0000_0000
    case Tagged(o) => o.Some? ==> |Utf8.Encode(o.value)| < 0x1_0000_0000_0000_0000
  }

  predicate Alike(f: Field, g: Field) {
    && (f.Number? <==> g.Number?) && (f.Text? <==> g.Text?) && (f.Optional? <==> g.Optional?)
    && (f.Long? <==> g.Long?) && (f.Tagged? <==> g.Tagged?)
  }

  function Layout(fs: seq<Field>): seq<byte> {
    if fs == [] then [] else FieldBytes(fs[0]) + Layout(fs[1..])
  }

  lemma Cut(a: seq<byte>, b: seq<byte>, x: seq<byte>, y: seq<byte>)
    requires a + x == b + y && |a| == |b|
    ensures a == b && x == y
  {
    assert a == (a + x)[..|a|] && b == (b + y)[..|b|];
    assert x == (a + x)[|a|..] && y == (b + y)[|b|..];
  }

  lemma PrefixedUnique(s: string, t: string, width: nat, x: seq<byte>, y: seq<byte>)
    requires |Utf8.Encode(s)| < Power256(width) && |Utf8.Encode(t)| < Power256(width)
    requires Prefixed(s, width) + x == Prefixed(t, width) + y
    ensures s == t && x == y
  {
    hide BigEndian, Power256, Utf8.Encode;
    var a, b := Utf8.Encode(s), Utf8.Encode(t);
    var m, n := BigEndian(|a|, width), BigEndian(|b|, width);
    assert m + (a + x) == Prefixed(s, width) + x && n + (b + y) == Prefixed(t, width) + y;
    Cut(m, n, a + x, b + y);
    BigEndianInjective(|a|, |b|, width);
    Cut(a, b, x, y);
    Utf8.Injective(s, t);
  }

  /** The marker is no length that a field may have. */
  lemma NothingIsNoLength(s: string, x: seq<byte>, y: seq<byte>)
    requires |Utf8.Encode(s)| < 0xFFFF_FFFF
    ensures Prefixed(s, 4) + x != NOTHING + y
  {
    hide BigEndian, Power256, Utf8.Encode;
    if Prefixed(s, 4) + x == NOTHING + y {
      var a := Utf8.Encode(s);
      assert BigEndian(|a|, 4) + (a + x) == Prefixed(s, 4) + x;
      Cut(BigEndian(|a|, 4), NOTHING, a + x, y);
      MarkerIsAllOnes();
      Powers();
      BigEndianInjective(|a|, 0xFFFF_FFFF, 4);
    }
  }

  lemma MarkerIsAllOnes()
    ensures BigEndian(0xFFFF_FFFF, 4) == NOTHING
  {
    assert BigEndian(0xFF, 1) == BigEndian(0, 0) + [0xFF];
    assert BigEndian(0xFFFF, 2) == BigEndian(0xFF, 1) + [0xFF];
    assert BigEndian(0xFF_FFFF, 3) == BigEndian(0xFFFF, 2) + [0xFF];
  }

  /** A field can be told from any other of its kind, whatever follows. */
  lemma FieldUnique(f: Field, g: Field, x: seq<byte>, y: seq<byte>)
    requires Sized(f) && Sized(g) && Alike(f, g) && FieldBytes(f) + x == FieldBytes(g) + y
    ensures f == g && x == y
  {
    hide Prefixed, Signed64;
    Powers();
    match f
    case Number(n) =>
      SignedLength(n);
      SignedLength(g.number);
      Cut(Signed64(n), Signed64(g.number), x, y);
      Signed64Injective(n, g.number);
    case Text(s) => PrefixedUnique(s, g.text, 4, x, y);
    case Optional(o) =>
      if o.Some? && g.optional.Some? {
        PrefixedUnique(o.value, g.optional.value, 4, x, y);
      } else if o.Some? {
        NothingIsNoLength(o.value, x, y);
      } else if g.optional.Some? {
        NothingIsNoLength(g.optional.value, y, x);
      } else {
        Cut(NOTHING, NOTHING, x, y);
      }
    case Long(s) => PrefixedUnique(s, g.text, 8, x, y);
    case Tagged(o) => TaggedUnique(o, g.tagged, x, y);
  }

  lemma SignedLength(n: int)
    ensures |Signed64(n)| == 8
  {
  }

  lemma TaggedUnique(o: Option<string>, p: Option<string>, x: seq<byte>, y: seq<byte>)
    requires Sized(Tagged(o)) && Sized(Tagged(p)) && FieldBytes(Tagged(o)) + x == FieldBytes(Tagged(p)) + y
    ensures o == p && x == y
  {
    hide Prefixed, BigEndian, Power256, Utf8.Encode;
    Powers();
    var b := FieldBytes(Tagged(o)) + x;
    assert b[0] == if o.Some? then 1 else 0;
    assert (FieldBytes(Tagged(p)) + y)[0] == if p.Some? then 1 else 0;
    if o.Some? {
      assert b[1..] == Prefixed(o.value, 8) + x;
      assert (FieldBytes(Tagged(p)) + y)[1..] == Prefixed(p.value, 8) + y;
      PrefixedUnique(o.value, p.value, 8, x, y);
    } else {
      Cut([0], [0], x, y);
    }
  }

  ghost predicate SameShape(fs: seq<Field>, gs: seq<Field>) {
    |fs| == |gs| && forall i :: 0 <= i < |fs| ==> Alike(fs[i], gs[i]) && Sized(fs[i]) && Sized(gs[i])
  }

  lemma {:induction false} LayoutUnique(fs: seq<Field>, gs: seq<Field>, x: seq<byte>, y: seq<byte>)
    requires SameShape(fs, gs) && Layout(fs) + x == Layout(gs) + y
    ensures fs == gs && x == y
    decreases |fs|
  {
    hide Sized, Alike, FieldBytes;
    if fs == [] {
      assert Layout(fs) + x == x && Layout(gs) + y == y;
    } else {
      assert Layout(fs) + x == FieldBytes(fs[0]) + (Layout(fs[1..]) + x);
      assert Layout(gs) + y == FieldBytes(gs[0]) + (Layout(gs[1..]) + y);
      FieldUnique(fs[0], gs[0], Layout(fs[1..]) + x, Layout(gs[1..]) + y);
      LayoutUnique(fs[1..], gs[1..], x, y);
      assert fs == [fs[0]] + fs[1..] && gs == [gs[0]] + gs[1..];
    }
  }

  lemma {:induction false} LayoutJoin(fs: seq<Field>, gs: seq<Field>)
    ensures Layout(fs + gs) == Layout(fs) + Layout(gs)
    decreases |fs|
  {
    hide FieldBytes;
    if fs == [] {
      assert fs + gs == gs;
    } else {
      assert (fs + gs)[1..] == fs[1..] + gs;
      LayoutJoin(fs[1..], gs);
    }
  }

  // Event histories

  datatype Event = Event(id: string, sequence: int, transition: string, input: string, outcome: Option<string>)

  function RowFields(e: Event): seq<Field> {
    [Long(e.id), Long(Decimal(e.sequence)), Long(e.transition), Long(e.input), Tagged(e.outcome)]
  }

  ghost predicate Representable(e: Event) { forall f :: f in RowFields(e) ==> Sized(f) }

  ghost predicate AllRepresentable(rows: seq<Event>) { forall e :: e in rows ==> Representable(e) }

  /** The octets of a history. */
  function History(rows: seq<Event>): seq<byte> {
    if rows == [] then [] else Layout(RowFields(rows[0])) + History(rows[1..])
  }

  lemma {:induction false} HistoryJoin(rows: seq<Event>, more: seq<Event>)
    ensures History(rows + more) == History(rows) + History(more)
    decreases |rows|
  {
    hide RowFields, Layout;
    if rows == [] {
      assert rows + more == more;
    } else {
      assert (rows + more)[1..] == rows[1..] + more;
      HistoryJoin(rows[1..], more);
    }
  }

  lemma RowIsNotEmpty(e: Event)
    ensures Layout(RowFields(e)) != []
  {
    assert |FieldBytes(Long(e.id))| >= 8;
  }

  lemma RowUnique(d: Event, e: Event, x: seq<byte>, y: seq<byte>)
    requires Representable(d) && Representable(e) && Layout(RowFields(d)) + x == Layout(RowFields(e)) + y
    ensures d == e && x == y
  {
    hide Layout, Decimal, Sized;
    var fs, gs := RowFields(d), RowFields(e);
    LayoutUnique(fs, gs, x, y);
    assert fs[0] == gs[0] && fs[1] == gs[1] && fs[2] == gs[2] && fs[3] == gs[3] && fs[4] == gs[4];
    DecimalInjective(d.sequence, e.sequence);
  }

  /** Two histories with the same octets are the same history: same length, same
    events, absent outcomes apart from empty ones. */
  lemma {:induction false} HistoryInjective(rows: seq<Event>, others: seq<Event>)
    requires AllRepresentable(rows) && AllRepresentable(others) && History(rows) == History(others)
    ensures rows == others
    decreases |rows|
  {
    hide RowFields, Layout, Representable;
    if rows == [] {
      if others != [] { RowIsNotEmpty(others[0]); }
    } else if others == [] {
      RowIsNotEmpty(rows[0]);
    } else {
      RowUnique(rows[0], others[0], History(rows[1..]), History(others[1..]));
      HistoryInjective(rows[1..], others[1..]);
      assert rows == [rows[0]] + rows[1..] && others == [others[0]] + others[1..];
    }
  }

  /** The hashing loop of `event_generation`. */
  method HistoryBytes(rows: seq<Event>) returns (bytes: seq<byte>)
    ensures bytes == History(rows)
  {
    bytes := [];
    for i := 0 to |rows|
      invariant bytes == History(rows[..i])
    {
      var e := rows[i];
      HistoryMore(rows, i, bytes);
      var body := HashField(e.id);
      bytes := bytes + body;
      body := HashField(Decimal(e.sequence));
      bytes := bytes + body;
      body := HashField(e.transition);
      bytes := bytes + body;
      body := HashField(e.input);
      bytes := bytes + body;
      if e.outcome.Some? {
        bytes := bytes + [1];
        body := HashField(e.outcome.value);
        bytes := bytes + body;
      } else {
        bytes := bytes + [0];
      }
    }
    assert rows[..|rows|] == rows;
  }

  method HashField(value: string) returns (bytes: seq<byte>)
    ensures bytes == FieldBytes(Long(value))
  {
    bytes := BigEndian(|Utf8.Encode(value)|, 8) + Utf8.Encode(value);
  }

  lemma HistoryStep(rows: seq<Event>, i: nat)
    requires i < |rows|
    ensures History(rows[..i + 1]) == History(rows[..i]) + Layout(RowFields(rows[i]))
  {
    hide Layout, RowFields;
    assert rows[..i + 1] == rows[..i] + [rows[i]];
    HistoryJoin(rows[..i], [rows[i]]);
    assert [rows[i]][1..] == [];
  }

  /** One row in the order in which the loop hashes it. */
  lemma HistoryMore(rows: seq<Event>, i: nat, bytes: seq<byte>)
    requires i < |rows| && bytes == History(rows[..i])
    ensures var e := rows[i];
      var four := bytes + FieldBytes(Long(e.id)) + FieldBytes(Long(Decimal(e.sequence)))
        + FieldBytes(Long(e.transition))
        + FieldBytes(Long(e.input));
      History(rows[..i + 1]) ==
        if e.outcome.Some? then four + [1] + FieldBytes(Long(e.outcome.value)) else four + [0]
  {
    hide Layout, RowFields, Decimal, History;
    var e := rows[i];
    HistoryStep(rows, i);
    RowBytes(e);
    var a, b, c, d := FieldBytes(Long(e.id)), FieldBytes(Long(Decimal(e.sequence))), FieldBytes(Long(e.transition)),
      FieldBytes(Long(e.input));
    var last := if e.outcome.Some? then FieldBytes(Long(e.outcome.value)) else [];
    Regroup(bytes, a, b, c, d, if e.outcome.Some? then [1] else [0], last);
  }

  lemma Regroup(h: seq<byte>, a: seq<byte>, b: seq<byte>, c: seq<byte>, d: seq<byte>, tag: seq<byte>, o: seq<byte>)
    ensures h + (a + (b + (c + (d + (tag + o))))) == h + a + b + c + d + tag + o
    ensures o == [] ==> tag + o == tag && h + a + b + c + d + tag + o == h + a + b + c + d + tag
  {
  }

  lemma LayoutMore(f: Field, fs: seq<Field>)
    ensures Layout([f] + fs) == FieldBytes(f) + Layout(fs)
  {
    assert ([f] + fs)[1..] == fs;
  }

  lemma RowBytes(e: Event)
    ensures Layout(RowFields(e)) == FieldBytes(Long(e.id)) + (FieldBytes(Long(Decimal(e.sequence)))
      + (FieldBytes(Long(e.transition)) + (FieldBytes(Long(e.input)) + FieldBytes(Tagged(e.outcome)))))
  {
    var a, b, c, d, o := Long(e.id), Long(Decimal(e.sequence)), Long(e.transition), Long(e.input), Tagged(e.outcome);
    assert Layout([]) == [];
    hide FieldBytes, Decimal, Layout;
    LayoutMore(a, [b, c, d, o]);
    LayoutMore(b, [c, d, o]);
    LayoutMore(c, [d, o]);
    LayoutMore(d, [o]);
    LayoutMore(o, []);
    assert [o] + [] == [o] && [d] + [o] == [d, o] && [c] + [d, o] == [c, d, o] && [b] + [c, d, o] == [b, c, d, o];
    assert [a] + [b, c, d, o] == RowFields(e);
    assert FieldBytes(o) + [] == FieldBytes(o);
  }

  // Recovery requests and decisions

  datatype Recovery = Recovery(
    scope: string, lineage: string, kind: string, provenance: string, observation: int, target: string,
    preHash: Option<string>, preIdentity: Option<string>, postHash: Option<string>, postIdentity: Option<string>,
    authorization: string, authorizationScope: string)

  function RecoveryFields(r: Recovery): (fs: seq<Field>)
    ensures |fs| == 13
  {
    [Text(r.scope), Text(r.lineage), Text(r.kind), Text(r.provenance), Number(r.observation), Number(1),
     Optional(Some(r.target)), Optional(r.preHash), Optional(r.preIdentity), Optional(r.postHash),
     Optional(r.postIdentity), Optional(Some(r.authorization)), Optional(Some(r.authorizationScope))]
  }

  datatype Decision = Decision(
    source: int, target: int, operation: string, actor: string, origin: string, outcome: string, result: string,
    scope: string)

  function DecisionFields(d: Decision): (fs: seq<Field>)
    ensures |fs| == 8
  {
    [Number(d.source), Number(d.target), Text(d.operation), Text(d.actor), Text(d.origin), Text(d.outcome),
     Text(d.result), Text(d.scope)]
  }

  ghost predicate AllSized(fs: seq<Field>) { forall f :: f in fs ==> Sized(f) }

  function RecoveryBytes(r: Recovery): seq<byte> {
    Utf8.Encode("akashic/recovery/v1\0") + Layout(RecoveryFields(r))
  }

  function DecisionBytes(d: Decision): seq<byte> {
    Utf8.Encode("akashic/decision/v1\0") + Layout(DecisionFields(d))
  }

  lemma LayoutStep(magic: seq<byte>, fs: seq<Field>, i: nat)
    requires i < |fs|
    ensures magic + Layout(fs[..i + 1]) == magic + Layout(fs[..i]) + FieldBytes(fs[i])
  {
    hide FieldBytes;
    assert fs[..i + 1] == fs[..i] + [fs[i]] && [fs[i]][1..] == [];
    LayoutJoin(fs[..i], [fs[i]]);
  }

  /** The closure `text`. */
  method AppendText(bytes: seq<byte>, value: Option<string>) returns (r: seq<byte>)
    ensures r == bytes + FieldBytes(Optional(value))
  {
    if value.Some? {
      var b := Utf8.Encode(value.value);
      r := bytes + BigEndian(|b|, 4) + b;
      assert bytes + Prefixed(value.value, 4) == r;
    } else {
      r := bytes + [0xFF, 0xFF, 0xFF, 0xFF];
    }
  }

  /** The buffer that `recovery_fingerprint` digests. */
  method RecoveryBuffer(r: Recovery) returns (bytes: seq<byte>)
    ensures bytes == RecoveryBytes(r)
  {
    hide FieldBytes, Layout, Prefixed, Signed64, Utf8.Encode;
    var magic := Utf8.Encode("akashic/recovery/v1\0");
    ghost var fs := RecoveryFields(r);
    EmptyLayout(magic, fs);
    bytes := magic;
    var texts := [r.scope, r.lineage, r.kind, r.provenance];
    for i := 0 to 4
      invariant bytes == magic + Layout(fs[..i])
    {
      LayoutStep(magic, fs, i);
      TextBytes(bytes, texts[i]);
      bytes := bytes + BigEndian(|Utf8.Encode(texts[i])|, 4) + Utf8.Encode(texts[i]);
    }
    LayoutStep(magic, fs, 4);
    NumberBytes(r.observation);
    bytes := bytes + Signed64(r.observation);
    LayoutStep(magic, fs, 5);
    NumberBytes(1);
    bytes := bytes + Signed64(1);
    var options := [Some(r.target), r.preHash, r.preIdentity, r.postHash, r.postIdentity, Some(r.authorization),
                    Some(r.authorizationScope)];
    for i := 0 to 7
      invariant bytes == magic + Layout(fs[..6 + i])
    {
      LayoutStep(magic, fs, 6 + i);
      bytes := AppendText(bytes, options[i]);
    }
    assert fs[..13] == fs;
  }

  lemma EmptyLayout(magic: seq<byte>, fs: seq<Field>)
    ensures magic + Layout(fs[..0]) == magic
  {
  }

  lemma TextBytes(bytes: seq<byte>, s: string)
    ensures bytes + BigEndian(|Utf8.Encode(s)|, 4) + Utf8.Encode(s) == bytes + FieldBytes(Text(s))
  {
  }

  lemma NumberBytes(n: int)
    ensures FieldBytes(Number(n)) == Signed64(n)
  {
  }

  /** The buffer that `decision_fingerprint` digests. */
  method DecisionBuffer(d: Decision) returns (bytes: seq<byte>)
    ensures bytes == DecisionBytes(d)
  {
    hide FieldBytes, Layout, Prefixed, Signed64, Utf8.Encode;
    var magic := Utf8.Encode("akashic/decision/v1\0");
    ghost var fs := DecisionFields(d);
    EmptyLayout(magic, fs);
    bytes := magic;
    var numbers := [d.source, d.target];
    for i := 0 to 2
      invariant bytes == magic + Layout(fs[..i])
    {
      LayoutStep(magic, fs, i);
      NumberBytes(numbers[i]);
      bytes := bytes + Signed64(numbers[i]);
    }
    var texts := [d.operation, d.actor, d.origin, d.outcome, d.result, d.scope];
    for i := 0 to 6
      invariant bytes == magic + Layout(fs[..2 + i])
    {
      LayoutStep(magic, fs, 2 + i);
      TextBytes(bytes, texts[i]);
      bytes := bytes + BigEndian(|Utf8.Encode(texts[i])|, 4) + Utf8.Encode(texts[i]);
    }
    assert fs[..8] == fs;
  }

  lemma SizedAt(fs: seq<Field>)
    requires AllSized(fs)
    ensures forall i :: 0 <= i < |fs| ==> Sized(fs[i])
  {
  }

  lemma RecoveryShape(r: Recovery, q: Recovery)
    requires AllSized(RecoveryFields(r)) && AllSized(RecoveryFields(q))
    ensures SameShape(RecoveryFields(r), RecoveryFields(q))
  {
    hide Sized, AllSized;
    var fs, gs := RecoveryFields(r), RecoveryFields(q);
    SizedAt(fs);
    SizedAt(gs);
  }

  lemma RecoveryFieldsTell(r: Recovery, q: Recovery)
    requires RecoveryFields(r) == RecoveryFields(q)
    ensures r == q
  {
    var fs, gs := RecoveryFields(r), RecoveryFields(q);
    assert fs[0] == gs[0] && fs[1] == gs[1] && fs[2] == gs[2] && fs[3] == gs[3] && fs[4] == gs[4] && fs[5] == gs[5];
    assert fs[6] == gs[6] && fs[7] == gs[7] && fs[8] == gs[8] && fs[9] == gs[9];
    assert fs[10] == gs[10] && fs[11] == gs[11] && fs[12] == gs[12];
  }

  /** Different recovery requests are never digested as the same octets, while no
    text reaches the length that marks absence. */
  lemma RecoveryInjective(r: Recovery, q: Recovery)
    requires AllSized(RecoveryFields(r)) && AllSized(RecoveryFields(q)) && RecoveryBytes(r) == RecoveryBytes(q)
    ensures r == q
  {
    hide Layout, Sized, RecoveryFields, AllSized, SameShape, Utf8.Encode;
    var fs, gs, magic := RecoveryFields(r), RecoveryFields(q), Utf8.Encode("akashic/recovery/v1\0");
    RecoveryShape(r, q);
    Cut(magic, magic, Layout(fs), Layout(gs));
    LayoutUnique(fs, gs, [], []);
    RecoveryFieldsTell(r, q);
  }

  lemma DecisionShape(d: Decision, e: Decision)
    requires AllSized(DecisionFields(d)) && AllSized(DecisionFields(e))
    ensures SameShape(DecisionFields(d), DecisionFields(e))
  {
    hide Sized, AllSized;
    var fs, gs := DecisionFields(d), DecisionFields(e);
    SizedAt(fs);
    SizedAt(gs);
  }

  lemma DecisionFieldsTell(d: Decision, e: Decision)
    requires DecisionFields(d) == DecisionFields(e)
    ensures d == e
  {
    var fs, gs := DecisionFields(d), DecisionFields(e);
    assert fs[0] == gs[0] && fs[1] == gs[1] && fs[2] == gs[2] && fs[3] == gs[3] && fs[4] == gs[4] && fs[5] == gs[5];
    assert fs[6] == gs[6] && fs[7] == gs[7];
  }

  lemma DecisionInjective(d: Decision, e: Decision)
    requires AllSized(DecisionFields(d)) && AllSized(DecisionFields(e)) && DecisionBytes(d) == DecisionBytes(e)
    ensures d == e
  {
    hide Layout, Sized, DecisionFields, AllSized, SameShape, Utf8.Encode;
    var fs, gs, magic := DecisionFields(d), DecisionFields(e), Utf8.Encode("akashic/decision/v1\0");
    DecisionShape(d, e);
    Cut(magic, magic, Layout(fs), Layout(gs));
    LayoutUnique(fs, gs, [], []);
    DecisionFieldsTell(d, e);
  }

  function Zeros(n: nat): (b: seq<byte>)
    ensures |b| == n
  {
    seq(n, _ => 0)
  }

  function Nuls(n: nat): (s: string)
    ensures |s| == n
  {
    seq(n, _ => '\0')
  }

  lemma {:induction false} NulsEncoded(n: nat)
    ensures Utf8.Encode(Nuls(n)) == Zeros(n)
  {
    if n > 0 {
      assert Nuls(n)[1..] == Nuls(n - 1);
      NulsEncoded(n - 1);
      assert [0] + Zeros(n - 1) == Zeros(n);
    }
  }

  /** Lengths are cut: what does not fit makes no difference. */
  lemma {:induction false} BigEndianWraps(n: nat, width: nat)
    ensures BigEndian(n + Power256(width), width) == BigEndian(n, width)
    decreases width
  {
    if width > 0 {
      var p := Power256(width - 1);
      assert Power256(width) == 256 * p;
      assert (n + 256 * p) % 256 == n % 256 && (n + 256 * p) / 256 == n / 256 + p;
      BigEndianWraps(n / 256, width - 1);
    }
  }

  lemma WordWraps(n: nat)
    ensures BigEndian(n + 0x1_0000_0000, 4) == BigEndian(n, 4)
  {
    BigEndianWraps(n, 4);
    Powers();
  }

  lemma ZeroWord()
    ensures BigEndian(0, 4) == Zeros(4)
  {
    assert BigEndian(0, 1) == BigEndian(0, 0) + [0] && BigEndian(0, 2) == BigEndian(0, 1) + [0];
    assert BigEndian(0, 3) == BigEndian(0, 2) + [0];
  }

  function NulField(n: nat): Field { Optional(Some(Nuls(n))) }

  lemma NulFieldBytes(n: nat)
    ensures FieldBytes(NulField(n)) == BigEndian(n, 4) + Zeros(n)
  {
    hide BigEndian, Utf8.Encode, Nuls;
    NulsEncoded(n);
  }

  /** A short text before a long one, and a long one before a shorter one. */
  lemma NulsMoveOver()
    ensures FieldBytes(NulField(1)) + FieldBytes(NulField(0x2_0000_0000))
      == FieldBytes(NulField(0x1_0000_0001)) + FieldBytes(NulField(0x1_0000_0000))
  {
    hide BigEndian, Power256, FieldBytes, NulField;
    ZeroWord();
    WordWraps(0);
    WordWraps(1);
    WordWraps(0x1_0000_0000);
    NulFieldBytes(1);
    NulFieldBytes(0x2_0000_0000);
    NulFieldBytes(0x1_0000_0001);
    NulFieldBytes(0x1_0000_0000);
    ZerosJoin(BigEndian(1, 4), 1, 4, 0x2_0000_0000);
    ZerosJoin(BigEndian(1, 4), 0x1_0000_0001, 4, 0x1_0000_0000);
  }

  lemma ZerosJoin(word: seq<byte>, a: nat, b: nat, c: nat)
    ensures (word + Zeros(a)) + (Zeros(b) + Zeros(c)) == word + Zeros(a + b + c)
  {
  }

  /** The bound is needed: lengths are cut to 32 bits, so for every request there
    are two authorizations and scopes, neither of them empty, that are digested
    as the same octets. */
  lemma LongTextsCollide(r: Recovery)
    ensures var q := r.(authorization := Nuls(1), authorizationScope := Nuls(0x2_0000_0000));
      var q' := r.(authorization := Nuls(0x1_0000_0001), authorizationScope := Nuls(0x1_0000_0000));
      q != q' && RecoveryBytes(q) == RecoveryBytes(q')
  {
    hide Nuls, Layout, FieldBytes, RecoveryFields, Utf8.Encode;
    var a, b := [NulField(1)], [NulField(0x2_0000_0000)];
    var a', b' := [NulField(0x1_0000_0001)], [NulField(0x1_0000_0000)];
    var head := RecoveryFields(r)[..11];
    LastTwo(r, 1, 0x2_0000_0000);
    LastTwo(r, 0x1_0000_0001, 0x1_0000_0000);
    LayoutOfTwo(a[0], b[0]);
    LayoutOfTwo(a'[0], b'[0]);
    LayoutJoin(head, a + b);
    LayoutJoin(head, a' + b');
    NulsMoveOver();
    assert |Nuls(1)| != |Nuls(0x1_0000_0001)|;
  }

  lemma LastTwo(r: Recovery, m: nat, n: nat)
    ensures RecoveryFields(r.(authorization := Nuls(m), authorizationScope := Nuls(n)))
      == RecoveryFields(r)[..11] + ([NulField(m)] + [NulField(n)])
  {
    hide Nuls;
  }

  lemma LayoutOfTwo(f: Field, g: Field)
    ensures Layout([f] + [g]) == FieldBytes(f) + FieldBytes(g)
  {
    hide FieldBytes;
    LayoutMore(f, [g]);
    LayoutOne(g);
  }

  lemma LayoutOne(f: Field)
    ensures Layout([f]) == FieldBytes(f)
  {
    hide FieldBytes;
    assert [f][1..] == [];
    assert FieldBytes(f) + [] == FieldBytes(f);
  }
}
