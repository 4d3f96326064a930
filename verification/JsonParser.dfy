/** The recursive-descent parser: an object that owns a position in the text
  and moves it forward. Each method either fails (`None`) or returns the value
  that JsonReading gives for the position it started from, and stops where
  JsonReading says. `position` counts characters; the program counts the bytes
  of their UTF-8 encoding, and always stands between two characters. */
module JsonParser {
  import opened Options
  import opened JsonGrammar
  import opened JsonReading
  import Theorems = JsonTheorems

  class Parser {
    const input: string
    var position: nat

    ghost predicate Valid()
      reads this
    {
      position <= |input|
    }

    /** The outcome `r` and the position reached from `start` are those of `reading`. */
    ghost predicate Follows<T>(start: nat, reading: Option<(T, nat)>, r: Option<T>)
      reads this
    {
      && Valid() && start <= position
      && match reading
         case None => r.None?
         case Some((v, j)) => r == Some(v) && position == j
    }

    constructor (input: string)
      ensures Valid() && this.input == input && position == 0
    {
      this.input := input;
      position := 0;
    }

    function Peek(): (c: Option<char>)
      requires Valid()
      reads this
      ensures c == if position < |input| then Some(input[position]) else None
    {
      if position == |input| then None else Some(input[position])
    }

    method Next() returns (c: Option<char>)
      requires Valid()
      modifies this`position
      ensures Valid() && c == old(Peek())
      ensures position == old(position) + if c.Some? then 1 else 0
    {
      c := Peek();
      if c.Some? { position := position + 1; }
    }

    method Consume(expected: char) returns (found: bool)
      requires Valid()
      modifies this`position
      ensures Valid() && found == At(input, old(position), expected)
      ensures position == Past(input, old(position), expected)
    {
      var c := Peek();
      found := c == Some(expected);
      if found { var _ := Next(); }
    }

    method Whitespace()
      requires Valid()
      modifies this`position
      ensures Valid() && position == SkipSpaces(input, old(position))
    {
      while Peek().Some? && IsSpace(Peek().value)
        invariant Valid() && SkipSpaces(input, position) == SkipSpaces(input, old(position))
        decreases |input| - position
      {
        var _ := Next();
      }
    }

    /** Passes a run of digits and counts them. */
    method CountDigits() returns (digits: nat)
      requires Valid()
      modifies this`position
      ensures Valid() && position == SkipDigits(input, old(position)) == old(position) + digits
    {
      digits := 0;
      while Peek().Some? && IsDigit(Peek().value)
        invariant Valid() && position == old(position) + digits
        invariant SkipDigits(input, position) == SkipDigits(input, old(position))
        decreases |input| - position
      {
        var _ := Next();
        digits := digits + 1;
      }
    }

    method Literal(literal: string, value: Value) returns (r: Option<Value>)
      requires Valid()
      modifies this`position
      ensures Valid()
      ensures if Fits(input, old(position), literal)
        then r == Some(value) && position == old(position) + |literal|
        else r.None? && position == old(position)
    {
      if literal <= input[position..] {
        position := position + |literal|;
        r := Some(value);
      } else {
        r := None;
      }
    }

    method Whole() returns (ok: bool)
      requires Valid()
      modifies this`position
      ensures Valid() && old(position) <= position
      ensures ReadWhole(input, old(position)) == if ok then Some(position) else None
    {
      var zero := Consume('0');
      ok := true;
      if !zero {
        var digits := CountDigits();
        ok := digits > 0;
      }
    }

    method Fraction() returns (ok: bool)
      requires Valid()
      modifies this`position
      ensures Valid() && old(position) <= position
      ensures ReadFraction(input, old(position)) == if ok then Some(position) else None
    {
      var point := Consume('.');
      ok := true;
      if point {
        var digits := CountDigits();
        ok := digits > 0;
      }
    }

    method Exponent() returns (ok: bool)
      requires Valid()
      modifies this`position
      ensures Valid() && old(position) <= position
      ensures ReadExponent(input, old(position)) == if ok then Some(position) else None
    {
      ok := true;
      if Peek() == Some('e') || Peek() == Some('E') {
        var _ := Next();
        var _ := Consume('+');
        var _ := Consume('-');
        var digits := CountDigits();
        ok := digits > 0;
      }
    }

    method Number() returns (r: Option<string>)
      requires Valid()
      modifies this`position
      ensures Valid() && old(position) <= position
      ensures match ReadNumber(input, old(position))
        case None => r.None?
        case Some(j) => position == j && r == Some(input[old(position)..j])
    {
      hide ReadWhole, ReadFraction, ReadExponent;
      var start := position;
      var _ := Consume('-');
      var ok := Whole();
      if !ok { return None; }
      ok := Fraction();
      if !ok { return None; }
      ok := Exponent();
      if !ok { return None; }
      r := Some(input[start..position]);
    }

    method HexDigits() returns (code: Option<nat>)
      requires Valid()
      modifies this`position
      ensures Valid() && old(position) <= position && code == ReadHexWord(input, old(position))
      ensures code.Some? ==> position == old(position) + 4
    {
      hide HexWord, HexWordValue;
      var digits := "";
      for i := 0 to 4
        invariant Valid() && position == old(position) + i && digits == input[old(position)..position]
      {
        var c := Next();
        if c.None? { return None; }
        digits := digits + [c.value];
      }
      code := if HexWord(digits) then Some(HexWordValue(digits)) else None;
    }

    method UnicodeEscape() returns (r: Option<char>)
      requires Valid()
      modifies this`position
      ensures Follows(old(position), ReadUnicode(input, old(position)), r)
    {
      var code := HexDigits();
      if code.None? { return None; }
      if IsHigh(code.value) {
        var slash := Next();
        if slash != Some('\\') { return None; }
        var u := Next();
        if u != Some('u') { return None; }
        var low := HexDigits();
        if low.None? || !IsLow(low.value) { return None; }
        return Some(Combine(code.value, low.value));
      }
      if IsLow(code.value) { return None; }
      r := Some(code.value as char);
    }

    method String() returns (r: Option<string>)
      requires Valid()
      modifies this`position
      ensures Follows(old(position), ReadString(input, old(position)), r)
    {
      var open := Consume('"');
      if !open { return None; }
      var value := "";
      var escaped := false;
      PrependNothing(ReadBody(input, position));
      while position < |input|
        invariant Valid() && old(position) < position
        invariant !escaped ==> ReadBody(input, old(position) + 1) == Prepend(value, ReadBody(input, position))
        invariant escaped ==> input[position - 1] == '\\'
        invariant escaped ==> ReadBody(input, old(position) + 1) == Prepend(value, ReadBody(input, position - 1))
        decreases |input| - position
      {
        var next := Next();
        var c := next.value;
        ghost var start := position - 1;
        if escaped {
          var decoded: char;
          if c == 'u' {
            var unit := UnicodeEscape();
            if unit.None? { return None; }
            decoded := unit.value;
          } else if c in "\"\\/bfnrt" {
            decoded := ShortChar(c);
          } else {
            return None;
          }
          assert ReadEscape(input, start) == Some((decoded, position));
          PrependTwice(value, [decoded], ReadBody(input, position));
          value := value + [decoded];
          escaped := false;
        } else if c == '\\' {
          escaped := true;
        } else if c == '"' {
          assert value + "" == value;
          return Some(value);
        } else if IsControl(c) {
          return None;
        } else {
          PrependTwice(value, [c], ReadBody(input, position));
          value := value + [c];
        }
      }
      r := None;
    }

    /** A string and the colon behind it. */
    method Key() returns (r: Option<string>)
      requires Valid()
      modifies this`position
      ensures Follows(old(position), ReadKey(input, old(position)), r)
    {
      hide ReadString;
      r := String();
      if r.None? { return; }
      Whitespace();
      var colon := Consume(':');
      if !colon { r := None; }
    }

    method Value() returns (r: Option<JsonGrammar.Value>)
      requires Valid()
      modifies this`position
      ensures Follows(old(position), ReadValue(input, old(position)), r)
      decreases |input| - position, 1
    {
      Whitespace();
      var c := Peek();
      if c.None? { return None; }
      match c.value {
        case 'n' => r := Literal("null", Null);
        case 't' => r := Literal("true", Bool(true));
        case 'f' => r := Literal("false", Bool(false));
        case '"' =>
          var s := String();
          r := if s.Some? then Some(Str(s.value)) else None;
        case '{' => r := Object();
        case '[' => r := Array();
        case _ =>
          if c.value == '-' || IsDigit(c.value) {
            var n := Number();
            r := if n.Some? then Some(JsonGrammar.Number(n.value)) else None;
          } else {
            r := None;
          }
      }
    }

    /** What follows an element: the closing character, or a comma that no closing
      character follows. Yields whether the list is closed. */
    method Separator(close: char) returns (closed: Option<bool>)
      requires Valid()
      modifies this`position
      ensures Valid() && old(position) <= position
      ensures var i := SkipSpaces(input, old(position));
        if At(input, i, close) then closed == Some(true) && position == i + 1
        else if !At(input, i, ',') || At(input, SkipSpaces(input, i + 1), close) then closed == None
        else closed == Some(false) && position == SkipSpaces(input, i + 1)
    {
      hide SkipSpaces;
      Whitespace();
      var found := Consume(close);
      if found { return Some(true); }
      var comma := Consume(',');
      if !comma { return None; }
      Whitespace();
      closed := if Peek() == Some(close) then None else Some(false);
    }

    method Array() returns (r: Option<JsonGrammar.Value>)
      requires Valid() && At(input, position, '[')
      modifies this`position
      ensures Valid() && old(position) <= position
      ensures match ReadItems(input, old(position) + 1)
        case None => r.None?
        case Some((vs, j)) => r == Some(JsonGrammar.Array(vs)) && position == j
      decreases |input| - position, 0
    {
      hide ReadValue, SkipSpaces, Append;
      var _ := Consume('[');
      var values: seq<JsonGrammar.Value> := [];
      AppendNothing(ReadItems(input, position));
      while true
        invariant Valid() && old(position) < position
        invariant ReadItems(input, old(position) + 1) == Append(values, ReadItems(input, position))
        decreases |input| - position
      {
        ghost var top := position;
        Whitespace();
        var closed := Consume(']');
        AppendLast(values, [], position);
        if closed {
          assert values + [] == values;
          return Some(JsonGrammar.Array(values));
        }
        var v := Value();
        if v.None? { return None; }
        ghost var k := position;
        var last := Separator(']');
        if last.None? { return None; }
        AppendLast(values, [v.value], position);
        if last.value { return Some(JsonGrammar.Array(values + [v.value])); }
        ItemsTurn(input, top, v.value, k);
        AppendTwice(values, v.value, ReadItems(input, position));
        values := values + [v.value];
      }
    }

    method Object() returns (r: Option<JsonGrammar.Value>)
      requires Valid() && At(input, position, '{')
      modifies this`position
      ensures Valid() && old(position) <= position
      ensures match ReadMembers(input, old(position) + 1, {})
        case None => r.None?
        case Some((fs, j)) => r == Some(JsonGrammar.Object(fs)) && position == j
      decreases |input| - position, 0
    {
      hide ReadValue, ReadKey, SkipSpaces, Append, ReadMembers;
      var _ := Consume('{');
      var fields: seq<(string, JsonGrammar.Value)> := [];
      var names: set<string> := {};
      AppendNothing(ReadMembers(input, position, names));
      while true
        invariant Valid() && old(position) < position
        invariant ReadMembers(input, old(position) + 1, {}) == Append(fields, ReadMembers(input, position, names))
        decreases |input| - position
      {
        ghost var top := position;
        MembersEnd(input, top, names);
        Whitespace();
        var closed := Consume('}');
        AppendLast(fields, [], position);
        if closed {
          assert fields + [] == fields;
          return Some(JsonGrammar.Object(fields));
        }
        var name := Key();
        if name.None? || name.value in names { return None; }
        ghost var h := position;
        var v := Value();
        if v.None? { return None; }
        ghost var k := position;
        var last := Separator('}');
        if last.None? { return None; }
        AppendLast(fields, [(name.value, v.value)], position);
        if last.value { return Some(JsonGrammar.Object(fields + [(name.value, v.value)])); }
        MembersTurn(input, top, names, name.value, h, v.value, k);
        AppendTwice(fields, (name.value, v.value), ReadMembers(input, position, names + {name.value}));
        fields := fields + [(name.value, v.value)];
        names := names + {name.value};
      }
    }
  }

  lemma PrependNothing(r: Option<(string, nat)>)
    ensures Prepend("", r) == r
  {
    if r.Some? { assert "" + r.value.0 == r.value.0; }
  }

  lemma PrependTwice(a: string, b: string, r: Option<(string, nat)>)
    ensures Prepend(a, Prepend(b, r)) == Prepend(a + b, r)
  {
    if r.Some? { assert a + (b + r.value.0) == (a + b) + r.value.0; }
  }

  ghost function Append<T>(xs: seq<T>, r: Option<(seq<T>, nat)>): Option<(seq<T>, nat)> {
    match r
    case None => None
    case Some((ys, j)) => Some((xs + ys, j))
  }

  /** The turns of the object loop that are the last. */
  lemma MembersEnd(s: string, i: nat, names: set<string>)
    requires i <= |s|
    ensures var j, r := SkipSpaces(s, i), ReadMembers(s, i, names);
      if At(s, j, '}') then r == Some(([], j + 1))
      else if ReadKey(s, j).None? || ReadKey(s, j).value.0 in names then r == None
      else
        var (name, k) := ReadKey(s, j).value;
        if ReadValue(s, k).None? then r == None
        else
          var (v, l) := ReadValue(s, k).value;
          var m := SkipSpaces(s, l);
          if At(s, m, '}') then r == Some(([(name, v)], m + 1))
          else !At(s, m, ',') || At(s, SkipSpaces(s, m + 1), '}') ==> r == None
  {
    hide ReadValue, ReadKey, SkipSpaces;
  }

  /** A turn of the object loop that does not close the object. */
  lemma MembersTurn(s: string, i: nat, names: set<string>, name: string, h: nat, v: Value, k: nat)
    requires i <= |s| && !At(s, SkipSpaces(s, i), '}') && ReadKey(s, SkipSpaces(s, i)) == Some((name, h))
    requires name !in names && ReadValue(s, h) == Some((v, k))
    requires var l := SkipSpaces(s, k); At(s, l, ',') && !At(s, SkipSpaces(s, l + 1), '}')
    ensures ReadMembers(s, i, names)
      == Append([(name, v)], ReadMembers(s, SkipSpaces(s, SkipSpaces(s, k) + 1), names + {name}))
  {
    hide ReadValue, ReadKey, SkipSpaces;
  }

  lemma ItemsTurn(s: string, i: nat, v: Value, k: nat)
    requires i <= |s| && !At(s, SkipSpaces(s, i), ']') && ReadValue(s, SkipSpaces(s, i)) == Some((v, k))
    requires var l := SkipSpaces(s, k); At(s, l, ',') && !At(s, SkipSpaces(s, l + 1), ']')
    ensures ReadItems(s, i) == Append([v], ReadItems(s, SkipSpaces(s, SkipSpaces(s, k) + 1)))
  {
    hide ReadValue, SkipSpaces;
  }

  lemma AppendNothing<T>(r: Option<(seq<T>, nat)>)
    ensures Append([], r) == r
  {
    if r.Some? { assert [] + r.value.0 == r.value.0; }
  }

  lemma AppendLast<T>(xs: seq<T>, ys: seq<T>, j: nat)
    ensures Append(xs, Some((ys, j))) == Some((xs + ys, j))
    ensures Append(xs, None) == None
  {
  }

  lemma AppendTwice<T>(xs: seq<T>, x: T, r: Option<(seq<T>, nat)>)
    ensures Append(xs, Append([x], r)) == Append(xs + [x], r)
  {
    if r.Some? { assert xs + ([x] + r.value.0) == (xs + [x]) + r.value.0; }
  }

  /** `json::parse`: the value of the whole text, for exactly the texts of the dialect. */
  method Parse(input: string) returns (r: Option<Value>)
    ensures r == JsonReading.Parse(input)
    ensures forall v :: r == Some(v) <==> Spells(input, v)
  {
    var parser := new Parser(input);
    r := parser.Value();
    if r.Some? {
      parser.Whitespace();
      if parser.position != |input| { r := None; }
    }
    forall v ensures r == Some(v) <==> Spells(input, v) { Theorems.ParseIsTheDialect(input, v); }
  }

  /** `json::top_level_string_prefix`. */
  method TopLevelStringPrefix(input: string, wanted: string) returns (r: Option<string>)
    ensures r == ScanPrefix(input, wanted)
  {
    hide ReadValue, ReadKey, SkipSpaces;
    var parser := new Parser(input);
    parser.Whitespace();
    var open := parser.Consume('{');
    if !open { return None; }
    while true
      invariant parser.Valid() && fresh(parser) && parser.input == input
      invariant ScanPrefix(input, wanted) == Scan(input, parser.position, wanted)
      decreases |input| - parser.position
    {
      parser.Whitespace();
      var closed := parser.Consume('}');
      if closed { return None; }
      var key := parser.Key();
      if key.None? { return None; }
      parser.Whitespace();
      var value := parser.Value();
      if value.None? { return None; }
      if key.value == wanted {
        return if value.value.Str? then Some(value.value.s) else None;
      }
      parser.Whitespace();
      closed := parser.Consume('}');
      if closed { return None; }
      var comma := parser.Consume(',');
      if !comma { return None; }
    }
  }
}
