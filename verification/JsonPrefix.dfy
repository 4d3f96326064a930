/** Reading one field out of a truncated text: the scanner is stable under
  extension of the text and agrees with the full parser. */
module JsonPrefix {
  import opened Options
  import opened JsonGrammar
  import opened JsonReading
  import Theorems = JsonTheorems

  // Whatever was read before the last character is read the same in a longer text

  lemma {:induction false} StableSpaces(s: string, t: string, i: nat)
    requires i <= |s|
    ensures SkipSpaces(s, i) < |s| ==> SkipSpaces(s + t, i) == SkipSpaces(s, i)
    ensures SkipSpaces(s + t, i) >= SkipSpaces(s, i)
    decreases |s| - i
  {
    if i < |s| && IsSpace(s[i]) { StableSpaces(s, t, i + 1); }
  }

  lemma {:induction false} StableDigits(s: string, t: string, i: nat)
    requires i <= |s|
    ensures SkipDigits(s, i) < |s| ==> SkipDigits(s + t, i) == SkipDigits(s, i)
    decreases |s| - i
  {
    if i < |s| && IsDigit(s[i]) { StableDigits(s, t, i + 1); }
  }

  lemma StableNumber(s: string, t: string, i: nat)
    requires i <= |s| && ReadNumber(s, i).Some? && ReadNumber(s, i).value < |s|
    ensures ReadNumber(s + t, i) == ReadNumber(s, i)
  {
    hide ReadWhole, ReadFraction, ReadExponent;
    var j := Past(s, i, '-');
    var k := ReadWhole(s, j).value;
    var l := ReadFraction(s, k).value;
    StablePart(s, t, j);
    StablePart(s, t, k);
    StablePart(s, t, l);
  }

  lemma StablePart(s: string, t: string, i: nat)
    requires i < |s|
    ensures ReadWhole(s, i).Some? && ReadWhole(s, i).value < |s| ==> ReadWhole(s + t, i) == ReadWhole(s, i)
    ensures ReadFraction(s, i).Some? && ReadFraction(s, i).value < |s| ==> ReadFraction(s + t, i) == ReadFraction(s, i)
    ensures ReadExponent(s, i).Some? && ReadExponent(s, i).value < |s| ==> ReadExponent(s + t, i) == ReadExponent(s, i)
  {
    hide ReadExponent;
    StableDigits(s, t, i);
    StableDigits(s, t, i + 1);
    StableExponent(s, t, i);
  }

  lemma StableExponent(s: string, t: string, i: nat)
    requires i < |s|
    ensures ReadExponent(s, i).Some? && ReadExponent(s, i).value < |s| ==> ReadExponent(s + t, i) == ReadExponent(s, i)
  {
    StableDigits(s, t, Past(s, Past(s, i + 1, '+'), '-'));
  }

  lemma StableEscape(s: string, t: string, i: nat)
    requires ReadEscape(s, i).Some?
    ensures ReadEscape(s + t, i) == ReadEscape(s, i)
  {
    if s[i] == 'u' {
      assert (s + t)[i + 1..i + 5] == s[i + 1..i + 5];
      if IsHigh(HexWordValue(s[i + 1..i + 5])) { assert (s + t)[i + 7..i + 11] == s[i + 7..i + 11]; }
    }
  }

  lemma {:induction false} StableBody(s: string, t: string, i: nat)
    requires ReadBody(s, i).Some?
    ensures ReadBody(s + t, i) == ReadBody(s, i)
    decreases |s| - i
  {
    hide ReadEscape;
    if s[i] == '\\' {
      StableEscape(s, t, i + 1);
      StableBody(s, t, ReadEscape(s, i + 1).value.1);
    } else if s[i] != '"' {
      StableBody(s, t, i + 1);
    }
  }

  lemma StableKey(s: string, t: string, i: nat)
    requires i <= |s| && ReadKey(s, i).Some?
    ensures ReadKey(s + t, i) == ReadKey(s, i)
  {
    StableBody(s, t, i + 1);
    StableSpaces(s, t, ReadString(s, i).value.1);
  }

  lemma StableFits(s: string, t: string, i: nat, x: string)
    requires Fits(s, i, x)
    ensures Fits(s + t, i, x)
  {
    assert (s + t)[i..i + |x|] == s[i..i + |x|];
  }

  /** A value that ends before the end of the text, or is a string. */
  lemma {:induction false} StableValue(s: string, t: string, i: nat)
    requires i <= |s| && ReadValue(s, i).Some?
    requires ReadValue(s, i).value.1 < |s| || ReadValue(s, i).value.0.Str?
    ensures ReadValue(s + t, i) == ReadValue(s, i)
    decreases |s| - i, 1
  {
    hide ReadNumber, ReadBody, ReadItems, ReadMembers, Fits;
    StableSpaces(s, t, i);
    var j := SkipSpaces(s, i);
    match s[j] {
      case 'n' => StableFits(s, t, j, "null");
      case 't' => StableFits(s, t, j, "true");
      case 'f' => StableFits(s, t, j, "false");
      case '"' => StableBody(s, t, j + 1);
      case '{' => StableMembers(s, t, j + 1, {});
      case '[' => StableItems(s, t, j + 1);
      case _ =>
        StableNumber(s, t, j);
        var k := ReadNumber(s, j).value;
        assert (s + t)[j..k] == s[j..k];
    }
  }

  lemma {:induction false} StableItems(s: string, t: string, i: nat)
    requires i <= |s| && ReadItems(s, i).Some?
    ensures ReadItems(s + t, i) == ReadItems(s, i)
    decreases |s| - i, 2
  {
    hide ReadValue;
    StableSpaces(s, t, i);
    var j := SkipSpaces(s, i);
    if !At(s, j, ']') {
      var k := ReadValue(s, j).value.1;
      StableSpaces(s, t, k);
      StableValue(s, t, j);
      var l := SkipSpaces(s, k);
      if At(s, l, ',') {
        StableSpaces(s, t, l + 1);
        StableItems(s, t, SkipSpaces(s, l + 1));
      }
    }
  }

  lemma {:induction false} StableMembers(s: string, t: string, i: nat, names: set<string>)
    requires i <= |s| && ReadMembers(s, i, names).Some?
    ensures ReadMembers(s + t, i, names) == ReadMembers(s, i, names)
    decreases |s| - i, 2
  {
    hide ReadValue, ReadKey, SkipSpaces;
    StableSpaces(s, t, i);
    var j := SkipSpaces(s, i);
    if !At(s, j, '}') {
      StableKey(s, t, j);
      var (name, h) := ReadKey(s, j).value;
      var k := ReadValue(s, h).value.1;
      StableSpaces(s, t, k);
      StableValue(s, t, h);
      var l := SkipSpaces(s, k);
      if At(s, l, ',') {
        StableSpaces(s, t, l + 1);
        StableMembers(s, t, SkipSpaces(s, l + 1), names + {name});
      }
    }
  }

  lemma {:induction false} StableScan(s: string, t: string, i: nat, wanted: string)
    requires i <= |s| && Scan(s, i, wanted).Some?
    ensures Scan(s + t, i, wanted) == Scan(s, i, wanted)
    decreases |s| - i
  {
    hide ReadValue, ReadKey;
    StableSpaces(s, t, i);
    var j := SkipSpaces(s, i);
    StableKey(s, t, j);
    var (name, h) := ReadKey(s, j).value;
    StableSpaces(s, t, h);
    var g := SkipSpaces(s, h);
    var (v, k) := ReadValue(s, g).value;
    StableSpaces(s, t, k);
    assert SkipSpaces(s + t, g) == SkipSpaces(s, g) by { StableSpaces(s, t, g); ReadNeedsText(s, g); }
    StableValue(s, t, g);
    if name != wanted { StableScan(s, t, SkipSpaces(s, k) + 1, wanted); }
  }

  lemma ReadNeedsText(s: string, i: nat)
    requires i <= |s| && ReadValue(s, i).Some?
    ensures SkipSpaces(s, i) < |s|
  {
  }

  /** A field found in a prefix is found, with the same value, in every extension. */
  lemma ScanIsStable(p: string, t: string, wanted: string)
    requires ScanPrefix(p, wanted).Some?
    ensures ScanPrefix(p + t, wanted) == ScanPrefix(p, wanted)
  {
    StableSpaces(p, t, 0);
    StableScan(p, t, SkipSpaces(p, 0) + 1, wanted);
  }

  // The scanner and the parser agree

  lemma {:induction false} ScanReadsMembers(s: string, i: nat, names: set<string>, wanted: string)
    requires i <= |s| && ReadMembers(s, i, names).Some?
    ensures Scan(s, i, wanted) == StringField(ReadMembers(s, i, names).value.0, wanted)
    decreases |s| - i
  {
    hide ReadValue, ReadKey, SkipSpaces;
    var j := SkipSpaces(s, i);
    if !At(s, j, '}') {
      var (name, h) := ReadKey(s, j).value;
      Theorems.ReadValuePastSpaces(s, h);
      var (v, k) := ReadValue(s, h).value;
      var l := SkipSpaces(s, k);
      var fs := ReadMembers(s, i, names).value.0;
      if At(s, l, '}') {
        assert fs[1..] == [] && Field(fs[1..], wanted) == None;
      } else {
        var m := SkipSpaces(s, l + 1);
        ScanReadsMembers(s, m, names + {name}, wanted);
        ScanPastSpaces(s, l + 1, wanted);
        assert fs[1..] == ReadMembers(s, m, names + {name}).value.0;
      }
    }
  }

  lemma ScanPastSpaces(s: string, i: nat, wanted: string)
    requires i <= |s|
    ensures Scan(s, SkipSpaces(s, i), wanted) == Scan(s, i, wanted)
  {
    hide ReadValue, ReadKey;
    assert SkipSpaces(s, SkipSpaces(s, i)) == SkipSpaces(s, i);
  }

  /** Scanning a text that parses to an object yields that object's string field. */
  lemma ScanAgrees(s: string, fields: seq<(string, Value)>, wanted: string)
    requires Parse(s) == Some(Object(fields))
    ensures ScanPrefix(s, wanted) == StringField(fields, wanted)
  {
    hide ReadNumber, ReadString, ReadItems, ReadMembers;
    var j := SkipSpaces(s, 0);
    assert s[j] == '{' && ReadMembers(s, j + 1, {}).Some? && ReadMembers(s, j + 1, {}).value.0 == fields;
    ScanReadsMembers(s, j + 1, {}, wanted);
  }

  /** A field read from a truncated text is the field of every complete text
    that starts with it. */
  lemma PrefixFieldIsTheField(p: string, line: string, fields: seq<(string, Value)>, wanted: string)
    requires p <= line && Parse(line) == Some(Object(fields)) && ScanPrefix(p, wanted).Some?
    ensures StringField(fields, wanted) == ScanPrefix(p, wanted)
  {
    assert line == p + line[|p|..];
    ScanIsStable(p, line[|p|..], wanted);
    ScanAgrees(line, fields, wanted);
  }
}
