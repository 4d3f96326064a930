/** The JSON dialect the program accepts, as a set of texts.

  A `Tree` is a piece of JSON with every spelling choice written down: the
  white space, the escapes, the number's parts. `Text` spells it and `Meaning`
  is the value it stands for. Nothing here looks at a parser. The dialect is
  RFC 8259 with the deviations of the code: an exponent may carry `+-`, the
  digits of `\u` may start with `+`, raw DEL and C1 controls are not string
  characters, and the keys of an object are distinct. */
module JsonGrammar {
  import opened Options

  datatype Value =
    | Null
    | Bool(b: bool)
    | Number(text: string)
    | Str(s: string)
    | Object(fields: seq<(string, Value)>)
    | Array(values: seq<Value>)

  // Characters

  predicate IsSpace(c: char) { c == ' ' || c == '\t' || c == '\n' || c == '\r' }

  predicate IsDigit(c: char) { '0' <= c <= '9' }

  predicate IsControl(c: char) { c as int < 0x20 || 0x7f <= c as int <= 0x9f }

  predicate Spaces(s: string) { forall i :: 0 <= i < |s| ==> IsSpace(s[i]) }

  predicate Digits(s: string) { forall i :: 0 <= i < |s| ==> IsDigit(s[i]) }

  predicate IsHexDigit(c: char) { IsDigit(c) || 'a' <= c <= 'f' || 'A' <= c <= 'F' }

  function HexDigit(c: char): (n: nat)
    requires IsHexDigit(c)
    ensures n < 16
  {
    if IsDigit(c) then c as int - '0' as int
    else if 'a' <= c <= 'f' then c as int - 'a' as int + 10
    else c as int - 'A' as int + 10
  }

  // String pieces

  /** Four characters after `\u`: four hexadecimal digits, or `+` and three. */
  predicate HexWord(d: string) {
    && |d| == 4
    && (IsHexDigit(d[0]) || d[0] == '+')
    && IsHexDigit(d[1]) && IsHexDigit(d[2]) && IsHexDigit(d[3])
  }

  function HexWordValue(d: string): (n: nat)
    requires HexWord(d)
    ensures n < 0x1_0000
  {
    (if d[0] == '+' then 0 else HexDigit(d[0])) * 0x1000
    + HexDigit(d[1]) * 0x100 + HexDigit(d[2]) * 0x10 + HexDigit(d[3])
  }

  predicate IsHigh(n: int) { 0xd800 <= n <= 0xdbff }

  predicate IsLow(n: int) { 0xdc00 <= n <= 0xdfff }

  datatype Piece =
    | Raw(c: char)
    | Short(letter: char)
    | Unit(digits: string)
    | Pair(high: string, low: string)
  {
    predicate Ok() {
      match this
      case Raw(c) => c != '"' && c != '\\' && !IsControl(c)
      case Short(e) => e in "\"\\/bfnrt"
      case Unit(d) => HexWord(d) && !IsHigh(HexWordValue(d)) && !IsLow(HexWordValue(d))
      case Pair(h, l) => HexWord(h) && HexWord(l) && IsHigh(HexWordValue(h)) && IsLow(HexWordValue(l))
    }

    function Text(): string {
      match this
      case Raw(c) => [c]
      case Short(e) => ['\\', e]
      case Unit(d) => ['\\', 'u'] + d
      case Pair(h, l) => ['\\', 'u'] + h + ['\\', 'u'] + l
    }

    /** The Unicode scalar value the piece stands for. */
    function Char(): char
      requires Ok()
    {
      match this
      case Raw(c) => c
      case Short(e) => ShortChar(e)
      case Unit(d) => HexWordValue(d) as char
      case Pair(h, l) => Combine(HexWordValue(h), HexWordValue(l))
    }
  }

  function ShortChar(e: char): char
    requires e in "\"\\/bfnrt"
  {
    match e
    case 'b' => 8 as char
    case 'f' => 12 as char
    case 'n' => '\n'
    case 'r' => '\r'
    case 't' => '\t'
    case _ => e
  }

  /** A surrogate pair always names a scalar value of a supplementary plane,
    and no two pairs name the same one. */
  function Combine(high: int, low: int): (c: char)
    requires IsHigh(high) && IsLow(low)
    ensures 0x1_0000 <= c as int <= 0x10_ffff
    ensures high == 0xd800 + (c as int - 0x1_0000) / 0x400 && low == 0xdc00 + (c as int - 0x1_0000) % 0x400
  {
    (0x1_0000 + (high - 0xd800) * 0x400 + (low - 0xdc00)) as char
  }

  predicate PiecesOk(ps: seq<Piece>) { forall i :: 0 <= i < |ps| ==> ps[i].Ok() }

  /** The pieces and the closing quote. */
  function PiecesText(ps: seq<Piece>): string {
    if ps == [] then ['"'] else ps[0].Text() + PiecesText(ps[1..])
  }

  function PiecesChars(ps: seq<Piece>): string
    requires PiecesOk(ps)
  {
    if ps == [] then "" else [ps[0].Char()] + PiecesChars(ps[1..])
  }

  function Quoted(ps: seq<Piece>): string { ['"'] + PiecesText(ps) }

  // Numbers

  datatype Exponent = Exponent(e: char, plus: bool, minus: bool, digits: string) {
    predicate Ok() { (e == 'e' || e == 'E') && digits != "" && Digits(digits) }

    function Text(): string { [e] + ((if plus then "+" else "") + ((if minus then "-" else "") + digits)) }
  }

  datatype Numeral = Numeral(minus: bool, whole: string, fraction: Option<string>, exponent: Option<Exponent>) {
    predicate Ok() {
      && (whole == "0" || (whole != "" && Digits(whole) && whole[0] != '0'))
      && (fraction.Some? ==> fraction.value != "" && Digits(fraction.value))
      && (exponent.Some? ==> exponent.value.Ok())
    }

    function FractionText(): string { if fraction.None? then "" else ['.'] + fraction.value }

    function ExponentText(): string { if exponent.None? then "" else exponent.value.Text() }

    function Text(): string {
      (if minus then "-" else "") + (whole + (FractionText() + ExponentText()))
    }
  }

  // Values. The lists of an array and of an object are non-empty; the empty
  // array and object have white space only.

  datatype Tree =
    | NullTree
    | BoolTree(b: bool)
    | NumberTree(n: Numeral)
    | StringTree(ps: seq<Piece>)
    | EmptyArray(ws: string)
    | ArrayTree(items: Items)
    | EmptyObject(ws: string)
    | ObjectTree(members: Members)
  datatype Items =
    | LastItem(before: string, item: Tree, after: string)
    | MoreItems(before: string, item: Tree, after: string, rest: Items)
  datatype Members =
    | LastMember(m: Member, item: Tree, after: string)
    | MoreMembers(m: Member, item: Tree, after: string, rest: Members)

  /** What stands before a member's value: the key, the colon and the spaces around them. */
  datatype Member = Member(before: string, key: seq<Piece>, mid: string, gap: string) {
    predicate Ok() { Spaces(before) && PiecesOk(key) && Spaces(mid) && Spaces(gap) }
  }

  predicate Ok(t: Tree)
    decreases t, 0
  {
    match t
    case NullTree => true
    case BoolTree(_) => true
    case NumberTree(n) => n.Ok()
    case StringTree(ps) => PiecesOk(ps)
    case EmptyArray(ws) => Spaces(ws)
    case ArrayTree(items) => ItemsOk(items)
    case EmptyObject(ws) => Spaces(ws)
    case ObjectTree(ms) => MembersOk(ms)
  }

  predicate ItemsOk(t: Items)
    decreases t, 0
  {
    Spaces(t.before) && Ok(t.item) && Spaces(t.after) && (t.MoreItems? ==> ItemsOk(t.rest))
  }

  /** Distinct keys: the first key is not a key of the rest. */
  predicate MembersOk(ms: Members)
    decreases ms, 0
  {
    && ms.m.Ok() && Ok(ms.item) && Spaces(ms.after)
    && (ms.MoreMembers? ==> MembersOk(ms.rest) && PiecesChars(ms.m.key) !in Keys(ms.rest))
  }

  function Keys(ms: Members): set<string>
    requires MembersOk(ms)
    decreases ms, 1
  {
    {PiecesChars(ms.m.key)} + if ms.MoreMembers? then Keys(ms.rest) else {}
  }

  function Text(t: Tree): string {
    match t
    case NullTree => "null"
    case BoolTree(b) => if b then "true" else "false"
    case NumberTree(n) => n.Text()
    case StringTree(ps) => Quoted(ps)
    case EmptyArray(ws) => ['['] + (ws + [']'])
    case ArrayTree(items) => ['['] + ItemsText(items)
    case EmptyObject(ws) => ['{'] + (ws + ['}'])
    case ObjectTree(ms) => ['{'] + MembersText(ms)
  }

  /** The items and the closing bracket. */
  function ItemsText(t: Items): string {
    t.before + (Text(t.item) + (t.after + if t.MoreItems? then [','] + ItemsText(t.rest) else [']']))
  }

  /** The members and the closing brace. */
  function MembersText(t: Members): string {
    t.m.before + (Quoted(t.m.key) + (t.m.mid + ([':'] + (t.m.gap + (Text(t.item)
    + (t.after + if t.MoreMembers? then [','] + MembersText(t.rest) else ['}']))))))
  }

  function Meaning(t: Tree): Value
    requires Ok(t)
  {
    match t
    case NullTree => Null
    case BoolTree(b) => Bool(b)
    case NumberTree(n) => Number(n.Text())
    case StringTree(ps) => Str(PiecesChars(ps))
    case EmptyArray(_) => Array([])
    case ArrayTree(items) => Array(ItemsMeaning(items))
    case EmptyObject(_) => Object([])
    case ObjectTree(ms) => Object(MembersMeaning(ms))
  }

  function ItemsMeaning(t: Items): seq<Value>
    requires ItemsOk(t)
  {
    [Meaning(t.item)] + if t.MoreItems? then ItemsMeaning(t.rest) else []
  }

  function MembersMeaning(ms: Members): seq<(string, Value)>
    requires MembersOk(ms)
  {
    [(PiecesChars(ms.m.key), Meaning(ms.item))]
    + if ms.MoreMembers? then MembersMeaning(ms.rest) else []
  }

  /** `s` is a JSON text for `v`: some tree spelled with space around it. */
  ghost predicate Spells(s: string, v: Value) {
    exists before: string, t: Tree, after: string ::
      SpellsAs(s, v, before, t, after)
  }

  ghost predicate SpellsAs(s: string, v: Value, before: string, t: Tree, after: string) {
    Spaces(before) && Ok(t) && Spaces(after) && s == before + (Text(t) + after) && Meaning(t) == v
  }
}
