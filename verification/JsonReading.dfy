/** What each method of the parser computes, as a function of the text and a
  position: `None` when the method fails, otherwise the value read and the
  position after it. The methods are in JsonParser, the theorems about these
  functions in JsonTheorems and JsonPrefix. */
module JsonReading {
  import opened Options
  import opened JsonGrammar

  predicate At(s: string, i: nat, c: char) { i < |s| && s[i] == c }

  predicate Fits(s: string, i: nat, t: string) { i + |t| <= |s| && s[i..i + |t|] == t }

  function SkipSpaces(s: string, i: nat): (j: nat)
    requires i <= |s|
    ensures i <= j <= |s|
    ensures j < |s| ==> !IsSpace(s[j])
    decreases |s| - i
  {
    if i < |s| && IsSpace(s[i]) then SkipSpaces(s, i + 1) else i
  }

  function SkipDigits(s: string, i: nat): (j: nat)
    requires i <= |s|
    ensures i <= j <= |s|
    ensures j < |s| ==> !IsDigit(s[j])
    decreases |s| - i
  {
    if i < |s| && IsDigit(s[i]) then SkipDigits(s, i + 1) else i
  }

  // Numbers: each part yields the position after it

  function ReadDigits(s: string, i: nat): (r: Option<nat>)
    requires i <= |s|
    ensures r.Some? ==> i < r.value <= |s|
  {
    var j := SkipDigits(s, i);
    if j == i then None else Some(j)
  }

  function ReadWhole(s: string, i: nat): (r: Option<nat>)
    requires i <= |s|
    ensures r.Some? ==> i < r.value <= |s|
  {
    if At(s, i, '0') then Some(i + 1) else ReadDigits(s, i)
  }

  function ReadFraction(s: string, i: nat): (r: Option<nat>)
    requires i <= |s|
    ensures r.Some? ==> i <= r.value <= |s|
  {
    if At(s, i, '.') then ReadDigits(s, i + 1) else Some(i)
  }

  function Past(s: string, i: nat, c: char): (j: nat)
    requires i <= |s|
    ensures i <= j <= |s|
  {
    if At(s, i, c) then i + 1 else i
  }

  function ReadExponent(s: string, i: nat): (r: Option<nat>)
    requires i <= |s|
    ensures r.Some? ==> i <= r.value <= |s|
  {
    if At(s, i, 'e') || At(s, i, 'E') then ReadDigits(s, Past(s, Past(s, i + 1, '+'), '-')) else Some(i)
  }

  function ReadNumber(s: string, i: nat): (r: Option<nat>)
    requires i <= |s|
    ensures r.Some? ==> i < r.value <= |s|
  {
    match ReadWhole(s, Past(s, i, '-'))
    case None => None
    case Some(j) =>
      match ReadFraction(s, j)
      case None => None
      case Some(k) => ReadExponent(s, k)
  }

  // Strings

  /** What `from_str_radix` makes of four characters in base 16. */
  function ReadHexWord(s: string, i: nat): (r: Option<nat>)
    ensures r.Some? ==> r.value < 0x1_0000 && i + 4 <= |s|
  {
    if i + 4 <= |s| && HexWord(s[i..i + 4]) then Some(HexWordValue(s[i..i + 4])) else None
  }

  /** After `\u`. */
  function ReadUnicode(s: string, i: nat): (r: Option<(char, nat)>)
    ensures r.Some? ==> i < r.value.1 <= |s|
  {
    match ReadHexWord(s, i)
    case None => None
    case Some(code) =>
      if IsHigh(code) then
        if At(s, i + 4, '\\') && At(s, i + 5, 'u') then
          match ReadHexWord(s, i + 6)
          case None => None
          case Some(low) => if IsLow(low) then Some((Combine(code, low), i + 10)) else None
        else None
      else if IsLow(code) then None
      else Some((code as char, i + 4))
  }

  /** After a backslash. */
  function ReadEscape(s: string, i: nat): (r: Option<(char, nat)>)
    ensures r.Some? ==> i < r.value.1 <= |s|
  {
    if i >= |s| then None
    else if s[i] == 'u' then ReadUnicode(s, i + 1)
    else if s[i] in "\"\\/bfnrt" then Some((ShortChar(s[i]), i + 1))
    else None
  }

  function Prepend(t: string, r: Option<(string, nat)>): Option<(string, nat)> {
    match r
    case None => None
    case Some((rest, j)) => Some((t + rest, j))
  }

  /** After the opening quote. */
  function ReadBody(s: string, i: nat): (r: Option<(string, nat)>)
    ensures r.Some? ==> i < r.value.1 <= |s|
    decreases |s| - i
  {
    if i >= |s| then None
    else if s[i] == '\\' then
      match ReadEscape(s, i + 1)
      case None => None
      case Some((c, j)) => Prepend([c], ReadBody(s, j))
    else if s[i] == '"' then Some(("", i + 1))
    else if IsControl(s[i]) then None
    else Prepend([s[i]], ReadBody(s, i + 1))
  }

  function ReadString(s: string, i: nat): (r: Option<(string, nat)>)
    ensures r.Some? ==> i < r.value.1 <= |s|
  {
    if At(s, i, '"') then ReadBody(s, i + 1) else None
  }

  // Values

  function ReadValue(s: string, i: nat): (r: Option<(Value, nat)>)
    requires i <= |s|
    ensures r.Some? ==> i < r.value.1 <= |s|
    decreases |s| - i, 1
  {
    var j := SkipSpaces(s, i);
    if j == |s| then None
    else match s[j]
      case 'n' => if Fits(s, j, "null") then Some((Null, j + 4)) else None
      case 't' => if Fits(s, j, "true") then Some((Bool(true), j + 4)) else None
      case 'f' => if Fits(s, j, "false") then Some((Bool(false), j + 5)) else None
      case '"' => (
        match ReadString(s, j)
        case None => None
        case Some((t, k)) => Some((Str(t), k)))
      case '{' => (
        match ReadMembers(s, j + 1, {})
        case None => None
        case Some((fs, k)) => Some((Object(fs), k)))
      case '[' => (
        match ReadItems(s, j + 1)
        case None => None
        case Some((vs, k)) => Some((Array(vs), k)))
      case c =>
        if c == '-' || IsDigit(c) then
          match ReadNumber(s, j)
          case None => None
          case Some(k) => Some((Number(s[j..k]), k))
        else None
  }

  /** The top of the array loop. */
  function ReadItems(s: string, i: nat): (r: Option<(seq<Value>, nat)>)
    requires i <= |s|
    ensures r.Some? ==> i < r.value.1 <= |s|
    decreases |s| - i, 2
  {
    var j := SkipSpaces(s, i);
    if At(s, j, ']') then Some(([], j + 1))
    else
      match ReadValue(s, j)
      case None => None
      case Some((v, k)) =>
        var l := SkipSpaces(s, k);
        if At(s, l, ']') then Some(([v], l + 1))
        else if !At(s, l, ',') then None
        else
          var m := SkipSpaces(s, l + 1);
          if At(s, m, ']') then None
          else
            match ReadItems(s, m)
            case None => None
            case Some((vs, n)) => Some(([v] + vs, n))
  }

  /** A key, the colon and the value that follows them. */
  function ReadKey(s: string, i: nat): (r: Option<(string, nat)>)
    requires i <= |s|
    ensures r.Some? ==> i < r.value.1 <= |s|
  {
    match ReadString(s, i)
    case None => None
    case Some((name, j)) =>
      var k := SkipSpaces(s, j);
      if At(s, k, ':') then Some((name, k + 1)) else None
  }

  /** The top of the object loop, with the names read so far. */
  function ReadMembers(s: string, i: nat, names: set<string>): (r: Option<(seq<(string, Value)>, nat)>)
    requires i <= |s|
    ensures r.Some? ==> i < r.value.1 <= |s|
    decreases |s| - i, 2
  {
    var j := SkipSpaces(s, i);
    if At(s, j, '}') then Some(([], j + 1))
    else
      match ReadKey(s, j)
      case None => None
      case Some((name, k)) =>
        if name in names then None
        else
          match ReadValue(s, k)
          case None => None
          case Some((v, l)) =>
            var m := SkipSpaces(s, l);
            if At(s, m, '}') then Some(([(name, v)], m + 1))
            else if !At(s, m, ',') then None
            else
              var n := SkipSpaces(s, m + 1);
              if At(s, n, '}') then None
              else
                match ReadMembers(s, n, names + {name})
                case None => None
                case Some((fs, o)) => Some(([(name, v)] + fs, o))
  }

  /** `json::parse`. */
  function Parse(s: string): Option<Value> {
    match ReadValue(s, 0)
    case None => None
    case Some((v, i)) => if SkipSpaces(s, i) == |s| then Some(v) else None
  }

  /** The value of the first field called `key`. */
  function Field(fields: seq<(string, Value)>, key: string): Option<Value> {
    if fields == [] then None
    else if fields[0].0 == key then Some(fields[0].1)
    else Field(fields[1..], key)
  }

  function StringField(fields: seq<(string, Value)>, key: string): Option<string> {
    var v := Field(fields, key);
    if v.Some? && v.value.Str? then Some(v.value.s) else None
  }

  function NumberField(fields: seq<(string, Value)>, key: string): Option<string> {
    var v := Field(fields, key);
    if v.Some? && v.value.Number? then Some(v.value.text) else None
  }

  /** The loop of `top_level_string_prefix`. */
  function Scan(s: string, i: nat, wanted: string): Option<string>
    requires i <= |s|
    decreases |s| - i
  {
    var j := SkipSpaces(s, i);
    if At(s, j, '}') then None
    else
      match ReadKey(s, j)
      case None => None
      case Some((name, k)) =>
        match ReadValue(s, SkipSpaces(s, k))
        case None => None
        case Some((v, l)) =>
          if name == wanted then (if v.Str? then Some(v.s) else None)
          else
            var m := SkipSpaces(s, l);
            if At(s, m, ',') then Scan(s, m + 1, wanted) else None
  }

  function ScanPrefix(s: string, wanted: string): Option<string> {
    var i := SkipSpaces(s, 0);
    if At(s, i, '{') then Scan(s, i + 1, wanted) else None
  }
}
