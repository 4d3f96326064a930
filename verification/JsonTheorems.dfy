/** The parser reads exactly the dialect of JsonGrammar: `Parse(s) == Some(v)`
  if and only if `s` spells `v`. */
module JsonTheorems {
  import opened Options
  import opened JsonGrammar
  import opened JsonReading

  // Every text of the dialect is read

  lemma FitsSplit(s: string, i: nat, a: string, b: string)
    requires Fits(s, i, a + b)
    ensures Fits(s, i, a) && Fits(s, i + |a|, b) && i + |a| + |b| <= |s|
  {
    var t := s[i..i + |a + b|];
    assert t == a + b;
    assert t[..|a|] == a && t[|a|..] == b;
    assert s[i..i + |a|] == t[..|a|] && s[i + |a|..i + |a| + |b|] == t[|a|..];
  }

  /** Where a value may end: at the end, or before a space or a closing character. */
  predicate Delimited(s: string, i: nat) {
    i >= |s| || IsSpace(s[i]) || s[i] in ",]}"
  }

  predicate SolidAt(s: string, i: nat) { i >= |s| || !IsSpace(s[i]) }

  lemma {:induction false} SpacesAreSkipped(s: string, i: nat, ws: string)
    requires Fits(s, i, ws) && Spaces(ws) && SolidAt(s, i + |ws|)
    ensures SkipSpaces(s, i) == i + |ws|
    decreases |ws|
  {
    if ws != "" {
      assert s[i] == s[i..i + |ws|][0];
      FitsSplit(s, i, [ws[0]], ws[1..]) by { assert [ws[0]] + ws[1..] == ws; }
      SpacesAreSkipped(s, i + 1, ws[1..]);
    }
  }

  lemma {:induction false} DigitsAreSkipped(s: string, i: nat, ds: string)
    requires Fits(s, i, ds) && Digits(ds) && (i + |ds| < |s| ==> !IsDigit(s[i + |ds|]))
    ensures SkipDigits(s, i) == i + |ds|
    decreases |ds|
  {
    if ds != "" {
      assert s[i] == s[i..i + |ds|][0];
      FitsSplit(s, i, [ds[0]], ds[1..]) by { assert [ds[0]] + ds[1..] == ds; }
      DigitsAreSkipped(s, i + 1, ds[1..]);
    }
  }

  lemma FirstChar(s: string, i: nat, t: string)
    requires Fits(s, i, t) && t != ""
    ensures i < |s| && s[i] == t[0]
  {
    assert s[i..i + |t|][0] == s[i];
  }

  lemma SignsArePassed(s: string, i: nat, x: Exponent)
    requires x.Ok() && Fits(s, i, (if x.plus then "+" else "") + ((if x.minus then "-" else "") + x.digits))
    ensures var j := i + (if x.plus then 1 else 0) + (if x.minus then 1 else 0);
      && i <= |s| && Past(s, Past(s, i, '+'), '-') == j && Fits(s, j, x.digits)
  {
    hide Fits;
    var p, m := if x.plus then "+" else "", if x.minus then "-" else "";
    FitsSplit(s, i, p, m + x.digits);
    if x.plus { FirstChar(s, i, p); }
    FitsSplit(s, i + |p|, m, x.digits);
    if x.minus { FirstChar(s, i + |p|, m); }
    FirstChar(s, i + |p| + |m|, x.digits);
  }

  lemma DigitsAreRead(s: string, i: nat, ds: string)
    requires ds != "" && Digits(ds) && Fits(s, i, ds) && (i + |ds| < |s| ==> !IsDigit(s[i + |ds|]))
    ensures i <= |s| && ReadDigits(s, i) == Some(i + |ds|)
  {
    FirstChar(s, i, ds);
    DigitsAreSkipped(s, i, ds);
  }

  lemma ExponentLayout(s: string, i: nat, x: Exponent)
    requires x.Ok() && Fits(s, i, x.Text())
    ensures var j := i + 1 + (if x.plus then 1 else 0) + (if x.minus then 1 else 0);
      && At(s, i, x.e) && Past(s, Past(s, i + 1, '+'), '-') == j && Fits(s, j, x.digits)
      && j + |x.digits| == i + |x.Text()|
  {
    hide Fits, Past, Digits;
    FitsSplit(s, i, [x.e], (if x.plus then "+" else "") + ((if x.minus then "-" else "") + x.digits));
    FirstChar(s, i, [x.e]);
    SignsArePassed(s, i + 1, x);
  }

  lemma {:induction false} DigitsRunOn(s: string, i: nat, ds: string)
    requires Fits(s, i, ds) && Digits(ds) && i + |ds| < |s| && IsDigit(s[i + |ds|])
    ensures SkipDigits(s, i) > i + |ds|
    decreases |ds|
  {
    if ds != "" {
      assert s[i] == s[i..i + |ds|][0];
      FitsSplit(s, i, [ds[0]], ds[1..]) by { assert [ds[0]] + ds[1..] == ds; }
      DigitsRunOn(s, i + 1, ds[1..]);
    }
  }

  /** Digits are read to their end exactly when no other digit follows. */
  lemma DigitsAreReadExactly(s: string, i: nat, ds: string)
    requires ds != "" && Digits(ds) && Fits(s, i, ds)
    ensures i <= |s| && (ReadDigits(s, i) == Some(i + |ds|) <==> (i + |ds| < |s| ==> !IsDigit(s[i + |ds|])))
    ensures ReadDigits(s, i).Some? ==> ReadDigits(s, i).value >= i + |ds|
  {
    if i + |ds| < |s| && IsDigit(s[i + |ds|]) { DigitsRunOn(s, i, ds); } else { DigitsAreRead(s, i, ds); }
  }

  /** What may follow a part of a number so that the part ends there. */
  predicate ExponentEnds(s: string, j: nat, n: Numeral) {
    j < |s| ==> if n.exponent.Some? then !IsDigit(s[j]) else s[j] != 'e' && s[j] != 'E'
  }

  predicate FractionEnds(s: string, j: nat, n: Numeral) {
    j < |s| ==> if n.fraction.Some? then !IsDigit(s[j]) else s[j] != '.'
  }

  predicate WholeEnds(s: string, j: nat, n: Numeral) { j < |s| ==> n.whole == "0" || !IsDigit(s[j]) }

  /** What may follow a number so that it ends there: each of its last parts ends. */
  predicate Ends(s: string, j: nat, n: Numeral) {
    && ExponentEnds(s, j, n)
    && (n.exponent.None? ==> FractionEnds(s, j, n))
    && (n.exponent.None? && n.fraction.None? ==> WholeEnds(s, j, n))
  }

  lemma ExponentIsRead(s: string, i: nat, n: Numeral)
    requires n.Ok() && Fits(s, i, n.ExponentText())
    ensures i <= |s|
    ensures ReadExponent(s, i) == Some(i + |n.ExponentText()|) <==> ExponentEnds(s, i + |n.ExponentText()|, n)
  {
    hide Fits, Past, ReadDigits, Digits, Exponent.Text;
    FitsText(s, i, n.ExponentText());
    if n.exponent.Some? {
      var x := n.exponent.value;
      ExponentLayout(s, i, x);
      DigitsAreReadExactly(s, i + 1 + (if x.plus then 1 else 0) + (if x.minus then 1 else 0), x.digits);
    }
  }

  lemma FractionIsRead(s: string, i: nat, n: Numeral)
    requires n.Ok() && Fits(s, i, n.FractionText())
    ensures i <= |s|
    ensures ReadFraction(s, i) == Some(i + |n.FractionText()|) <==> FractionEnds(s, i + |n.FractionText()|, n)
    ensures ReadFraction(s, i).Some? ==> ReadFraction(s, i).value >= i + |n.FractionText()|
  {
    if n.fraction.Some? {
      FitsSplit(s, i, ['.'], n.fraction.value);
      FirstChar(s, i, ['.']);
      DigitsAreReadExactly(s, i + 1, n.fraction.value);
    }
  }

  lemma WholeIsRead(s: string, i: nat, n: Numeral)
    requires n.Ok() && Fits(s, i, n.whole)
    ensures i < |s| && IsDigit(s[i])
    ensures ReadWhole(s, i) == Some(i + |n.whole|) <==> WholeEnds(s, i + |n.whole|, n)
    ensures ReadWhole(s, i).Some? ==> ReadWhole(s, i).value >= i + |n.whole|
  {
    FirstChar(s, i, n.whole);
    if n.whole != "0" { DigitsAreReadExactly(s, i, n.whole); }
  }

  lemma PartsStart(s: string, i: nat, n: Numeral)
    ensures Fits(s, i, n.FractionText()) && n.fraction.Some? ==> At(s, i, '.')
    ensures Fits(s, i, n.ExponentText()) && n.exponent.Some? ==> At(s, i, n.exponent.value.e)
    ensures n.exponent.None? ==> n.ExponentText() == ""
    ensures n.fraction.None? ==> n.FractionText() == ""
  {
    if Fits(s, i, n.FractionText()) && n.fraction.Some? { FirstChar(s, i, n.FractionText()); }
    if Fits(s, i, n.ExponentText()) && n.exponent.Some? { FirstChar(s, i, n.ExponentText()); }
  }

  /** Where the parts of a number lie. */
  lemma NumberLayout(s: string, i: nat, n: Numeral)
    requires Fits(s, i, n.Text())
    ensures var j := i + (if n.minus then 1 else 0); var k := j + |n.whole|; var l := k + |n.FractionText()|;
      && (n.minus ==> At(s, i, '-')) && Fits(s, j, n.whole)
      && Fits(s, k, n.FractionText()) && Fits(s, l, n.ExponentText()) && l + |n.ExponentText()| == i + |n.Text()|
  {
    hide Fits, Numeral.FractionText, Numeral.ExponentText;
    var m := if n.minus then "-" else "";
    FitsSplit(s, i, m, n.whole + (n.FractionText() + n.ExponentText()));
    var j := i + |m|;
    FitsSplit(s, j, n.whole, n.FractionText() + n.ExponentText());
    FitsSplit(s, j + |n.whole|, n.FractionText(), n.ExponentText());
    if n.minus { FirstChar(s, i, m); }
  }

  /** A number is read to its end exactly when what follows could not continue it. */
  lemma NumberIsRead(s: string, i: nat, n: Numeral)
    requires n.Ok() && Fits(s, i, n.Text())
    ensures i <= |s| && (ReadNumber(s, i) == Some(i + |n.Text()|) <==> Ends(s, i + |n.Text()|, n))
    ensures At(s, i, '-') || (i < |s| && IsDigit(s[i]))
  {
    hide Fits, ReadFraction, ReadExponent, ReadWhole, Digits, Numeral.Text, Numeral.FractionText, Numeral.ExponentText;
    NumberLayout(s, i, n);
    var j := i + (if n.minus then 1 else 0);
    var k := j + |n.whole|;
    var l := k + |n.FractionText()|;
    PartsStart(s, k, n);
    PartsStart(s, l, n);
    ExponentIsRead(s, l, n);
    FractionIsRead(s, k, n);
    WholeIsRead(s, j, n);
    assert n.exponent.Some? ==> n.exponent.value.e in "eE";
    hide Numeral.Ok;
  }

  lemma DelimitedNumber(s: string, i: nat, n: Numeral)
    requires n.Ok() && Fits(s, i, n.Text()) && Delimited(s, i + |n.Text()|)
    ensures i < |s| && (s[i] == '-' || IsDigit(s[i])) && ReadNumber(s, i) == Some(i + |n.Text()|)
    ensures s[i..i + |n.Text()|] == n.Text()
  {
    hide ReadNumber, Numeral.Ok, Numeral.Text, Fits;
    NumberIsRead(s, i, n);
    DelimiterEnds(s, i + |n.Text()|, n);
    FitsText(s, i, n.Text());
  }

  lemma DelimiterEnds(s: string, j: nat, n: Numeral)
    requires Delimited(s, j)
    ensures Ends(s, j, n)
  {
  }

  lemma PieceIsRead(s: string, i: nat, p: Piece)
    requires p.Ok() && Fits(s, i, p.Text())
    ensures i < |s| && s[i] != '"'
    ensures p.Raw? ==> |p.Text()| == 1 && s[i] == p.Char() && s[i] != '\\' && !IsControl(s[i])
    ensures !p.Raw? ==> s[i] == '\\' && ReadEscape(s, i + 1) == Some((p.Char(), i + |p.Text()|))
  {
    FirstChar(s, i, p.Text());
    match p
    case Raw(_) =>
    case Short(_) => assert s[i + 1] == s[i..i + 2][1];
    case Unit(d) =>
      assert s[i + 1] == s[i..i + 6][1];
      FitsSplit(s, i, ['\\', 'u'], d);
    case Pair(h, l) => PairIsRead(s, i, h, l);
  }

  lemma PairIsRead(s: string, i: nat, h: string, l: string)
    requires Pair(h, l).Ok() && Fits(s, i, Pair(h, l).Text())
    ensures At(s, i + 1, 'u') && ReadUnicode(s, i + 2) == Some((Pair(h, l).Char(), i + 12))
  {
    assert s[i + 1] == s[i..i + 12][1] && s[i + 6] == s[i..i + 12][6] && s[i + 7] == s[i..i + 12][7];
    assert Pair(h, l).Text() == ['\\', 'u'] + (h + (['\\', 'u'] + l));
    FitsSplit(s, i, ['\\', 'u'], h + (['\\', 'u'] + l));
    FitsSplit(s, i + 2, h, ['\\', 'u'] + l);
    FitsSplit(s, i + 6, ['\\', 'u'], l);
  }

  /** Section 7 of RFC 8259: every spelling of a string, in any mix of raw
    characters, short escapes, `\u` escapes and surrogate pairs, is read back
    as the string. */
  lemma {:induction false} BodyIsRead(s: string, i: nat, ps: seq<Piece>)
    requires PiecesOk(ps) && Fits(s, i, PiecesText(ps))
    ensures ReadBody(s, i) == Some((PiecesChars(ps), i + |PiecesText(ps)|))
    decreases |ps|
  {
    hide Fits, ReadEscape, Piece.Text, Piece.Char, Piece.Ok;
    if ps == [] {
      FirstChar(s, i, ['"']);
    } else {
      FitsSplit(s, i, ps[0].Text(), PiecesText(ps[1..]));
      PieceIsRead(s, i, ps[0]);
      BodyIsRead(s, i + |ps[0].Text()|, ps[1..]);
    }
  }

  lemma StringIsRead(s: string, i: nat, ps: seq<Piece>)
    requires PiecesOk(ps) && Fits(s, i, Quoted(ps))
    ensures ReadString(s, i) == Some((PiecesChars(ps), i + |Quoted(ps)|)) && At(s, i, '"')
  {
    hide Fits, ReadBody, PiecesText, PiecesChars, PiecesOk;
    FitsSplit(s, i, ['"'], PiecesText(ps));
    FirstChar(s, i, ['"']);
    BodyIsRead(s, i + 1, ps);
  }

  /** Spaces that stand before something solid. */
  lemma SkippedTo(s: string, i: nat, ws: string, c: char)
    requires Fits(s, i, ws) && Spaces(ws) && At(s, i + |ws|, c) && !IsSpace(c)
    ensures SkipSpaces(s, i) == i + |ws|
  {
    SpacesAreSkipped(s, i, ws);
  }

  /** The text of a value starts with something solid that closes nothing. */
  predicate Starts(t: Tree) { Text(t) != "" && !IsSpace(Text(t)[0]) && Text(t)[0] !in ",]}" }

  lemma OkStarts(t: Tree)
    requires Ok(t)
    ensures Starts(t)
  {
  }

  lemma TextStarts(s: string, i: nat, t: Tree)
    requires Starts(t) && Fits(s, i, Text(t))
    ensures i < |s| && !IsSpace(s[i]) && s[i] !in ",]}"
  {
    FirstChar(s, i, Text(t));
  }

  lemma ReadValuePastSpaces(s: string, i: nat)
    requires i <= |s|
    ensures ReadValue(s, SkipSpaces(s, i)) == ReadValue(s, i)
    ensures SkipSpaces(s, SkipSpaces(s, i)) == SkipSpaces(s, i)
  {
    hide ReadNumber, ReadString, ReadItems, ReadMembers;
  }

  lemma {:induction false} ValueIsRead(s: string, i: nat, ws: string, t: Tree)
    requires Ok(t) && Spaces(ws) && Fits(s, i, ws) && Fits(s, i + |ws|, Text(t))
    requires Delimited(s, i + |ws| + |Text(t)|)
    ensures ReadValue(s, i) == Some((Meaning(t), i + |ws| + |Text(t)|))
    decreases t, 1
  {
    hide Fits, Text, Ok, Meaning, Delimited, ReadValue, SkipSpaces, Spaces, Starts;
    OkStarts(t);
    var j := i + |ws|;
    TextStarts(s, j, t);
    SkippedTo(s, i, ws, s[j]);
    ReadValuePastSpaces(s, i);
    SolidIsRead(s, j, t);
  }

  lemma {:induction false} SolidIsRead(s: string, j: nat, t: Tree)
    requires Ok(t) && Fits(s, j, Text(t)) && Delimited(s, j + |Text(t)|)
    ensures ReadValue(s, j) == Some((Meaning(t), j + |Text(t)|))
    decreases t, 0
  {
    hide ReadValue, ReadNumber, ReadString, ReadItems, ReadMembers, Fits, Delimited, Quoted, Numeral.Text, PiecesOk;
    hide Numeral.Ok;
    hide ItemsText, MembersText, ItemsMeaning, MembersMeaning, ItemsOk, MembersOk, PiecesChars, Spaces, Starts;
    OkStarts(t);
    TextStarts(s, j, t);
    ReadByFirst(s, j);
    match t
    case NullTree => LiteralIsRead(s, j, "null");
    case BoolTree(b) => LiteralIsRead(s, j, if b then "true" else "false");
    case NumberTree(n) => DelimitedNumber(s, j, n);
    case StringTree(ps) => StringIsRead(s, j, ps);
    case EmptyArray(w) => EmptyIsRead(s, j, '[', w, ']');
    case ArrayTree(items) =>
      FitsSplit(s, j, ['['], ItemsText(items));
      FirstChar(s, j, ['[']);
      ItemsAreRead(s, j + 1, items);
    case EmptyObject(w) => EmptyIsRead(s, j, '{', w, '}');
    case ObjectTree(ms) =>
      FitsSplit(s, j, ['{'], MembersText(ms));
      FirstChar(s, j, ['{']);
      MembersAreRead(s, j + 1, ms, {});
  }

  /** What is read follows from the first character. */
  lemma ReadByFirst(s: string, j: nat)
    requires j < |s| && !IsSpace(s[j])
    ensures s[j] == '"' && ReadString(s, j).Some? ==>
      ReadValue(s, j) == Some((Str(ReadString(s, j).value.0), ReadString(s, j).value.1))
    ensures s[j] == '[' && ReadItems(s, j + 1).Some? ==>
      ReadValue(s, j) == Some((Array(ReadItems(s, j + 1).value.0), ReadItems(s, j + 1).value.1))
    ensures s[j] == '{' && ReadMembers(s, j + 1, {}).Some? ==>
      ReadValue(s, j) == Some((Object(ReadMembers(s, j + 1, {}).value.0), ReadMembers(s, j + 1, {}).value.1))
    ensures (s[j] == '-' || IsDigit(s[j])) && ReadNumber(s, j).Some? ==>
      ReadValue(s, j) == Some((Number(s[j..ReadNumber(s, j).value]), ReadNumber(s, j).value))
    ensures s[j] == '"' && ReadValue(s, j).Some? ==> ReadString(s, j).Some?
    ensures s[j] == '[' && ReadValue(s, j).Some? ==> ReadItems(s, j + 1).Some?
    ensures s[j] == '{' && ReadValue(s, j).Some? ==> ReadMembers(s, j + 1, {}).Some?
  {
    hide ReadNumber, ReadString, ReadItems, ReadMembers;
  }

  lemma LiteralIsRead(s: string, j: nat, t: string)
    requires t in ["null", "true", "false"] && Fits(s, j, t)
    ensures j < |s| && ReadValue(s, j)
      == Some((if t == "null" then Null else if t == "true" then Bool(true) else Bool(false), j + |t|))
  {
    hide ReadNumber, ReadString, ReadItems, ReadMembers;
    assert s[j] == s[j..j + |t|][0];
  }

  lemma FitsText(s: string, i: nat, t: string)
    requires Fits(s, i, t)
    ensures i + |t| <= |s| && s[i..i + |t|] == t && JsonReading.Fits(s, i, t)
  {
  }

  lemma EmptyIsRead(s: string, j: nat, open: char, w: string, close: char)
    requires Spaces(w) && !IsSpace(close) && Fits(s, j, [open] + (w + [close]))
    ensures At(s, j, open)
    ensures close == ']' ==> ReadItems(s, j + 1) == Some(([], j + 1 + |w| + 1))
    ensures close == '}' ==> ReadMembers(s, j + 1, {}) == Some(([], j + 1 + |w| + 1))
  {
    FitsSplit(s, j, [open], w + [close]);
    FirstChar(s, j, [open]);
    FitsSplit(s, j + 1, w, [close]);
    FirstChar(s, j + 1 + |w|, [close]);
    SkippedTo(s, j + 1, w, close);
  }

  /** A value with spaces around it, and what must follow it. */
  lemma ElementLayout(s: string, i: nat, ws: string, t: Tree, after: string, c: char, rest: string)
    requires Spaces(ws) && Starts(t) && Spaces(after) && c in ",]}"
    requires Fits(s, i, ws + (Text(t) + (after + ([c] + rest))))
    ensures var j := i + |ws|; var k := j + |Text(t)|; var l := k + |after|;
      && Fits(s, i, ws) && Fits(s, j, Text(t)) && Fits(s, l + 1, rest)
      && l < |s| && SkipSpaces(s, i) == j && !At(s, j, ']') && SkipSpaces(s, k) == l && Delimited(s, k) && At(s, l, c)
  {
    hide Fits, Text, Starts;
    FitsSplit(s, i, ws, Text(t) + (after + ([c] + rest)));
    var j := i + |ws|;
    FitsSplit(s, j, Text(t), after + ([c] + rest));
    TextStarts(s, j, t);
    SkippedTo(s, i, ws, s[j]);
    var k := j + |Text(t)|;
    FitsSplit(s, k, after, [c] + rest);
    var l := k + |after|;
    FitsSplit(s, l, [c], rest);
    FirstChar(s, l, [c]);
    SkippedTo(s, k, after, c);
    if after != "" { FirstChar(s, k, after); }
  }

  lemma ItemsTextParts(items: Items, c: char, rest: string)
    requires if items.MoreItems? then c == ',' && rest == ItemsText(items.rest) else c == ']' && rest == ""
    ensures ItemsText(items) == items.before + (Text(items.item) + (items.after + ([c] + rest)))
    ensures |ItemsText(items)| == |items.before| + |Text(items.item)| + |items.after| + 1 + |rest|
  {
    assert items.LastItem? ==> [c] + rest == [']'];
  }

  lemma {:induction false} ItemsAreRead(s: string, i: nat, items: Items)
    requires ItemsOk(items) && Fits(s, i, ItemsText(items))
    ensures ReadItems(s, i) == Some((ItemsMeaning(items), i + |ItemsText(items)|))
    ensures !At(s, SkipSpaces(s, i), ']')
    decreases items, 2
  {
    hide Fits, ReadValue, ReadItems, Text, SkipSpaces, ItemsText, Delimited, Ok, Starts, Meaning;
    var c, rest := if items.MoreItems? then ',' else ']', if items.MoreItems? then ItemsText(items.rest) else "";
    ItemsTextParts(items, c, rest);
    OkStarts(items.item);
    ElementLayout(s, i, items.before, items.item, items.after, c, rest);
    var j := i + |items.before|;
    var l := j + |Text(items.item)| + |items.after|;
    FitsNothing(s, j);
    ValueIsRead(s, j, "", items.item);
    if items.MoreItems? {
      ItemsAreRead(s, l + 1, items.rest);
      ReadItemsStep(s, i, Meaning(items.item), j + |Text(items.item)|, ItemsMeaning(items.rest),
        i + |ItemsText(items)|);
    } else {
      ReadItemsStep(s, i, Meaning(items.item), j + |Text(items.item)|, [], l + 1);
    }
  }

  lemma FitsNothing(s: string, i: nat)
    requires i <= |s|
    ensures Fits(s, i, "")
  {
  }

  lemma ReadItemsPastSpaces(s: string, i: nat)
    requires i <= |s|
    ensures ReadItems(s, SkipSpaces(s, i)) == ReadItems(s, i)
  {
    hide ReadValue;
    assert SkipSpaces(s, SkipSpaces(s, i)) == SkipSpaces(s, i);
  }

  lemma ReadMembersPastSpaces(s: string, i: nat, names: set<string>)
    requires i <= |s|
    ensures ReadMembers(s, SkipSpaces(s, i), names) == ReadMembers(s, i, names)
  {
    hide ReadValue, ReadKey;
    assert SkipSpaces(s, SkipSpaces(s, i)) == SkipSpaces(s, i);
  }

  /** One turn of the array loop. */
  lemma ReadItemsStep(s: string, i: nat, v: Value, k: nat, vs: seq<Value>, n: nat)
    requires i <= |s| && !At(s, SkipSpaces(s, i), ']') && ReadValue(s, SkipSpaces(s, i)) == Some((v, k))
    requires var l := SkipSpaces(s, k);
      || (At(s, l, ']') && vs == [] && n == l + 1)
      || (At(s, l, ',') && !At(s, SkipSpaces(s, l + 1), ']') && ReadItems(s, l + 1) == Some((vs, n)))
    ensures ReadItems(s, i) == Some(([v] + vs, n))
  {
    hide ReadValue;
    var l := SkipSpaces(s, k);
    if At(s, l, ',') {
      ReadItemsPastSpaces(s, l + 1);
    } else {
      assert [v] + vs == [v];
    }
  }

  /** One turn of the object loop. */
  lemma ReadMembersStep(s: string, i: nat, names: set<string>, name: string, h: nat, v: Value, k: nat,
                        fs: seq<(string, Value)>, n: nat)
    requires i <= |s| && !At(s, SkipSpaces(s, i), '}') && ReadKey(s, SkipSpaces(s, i)) == Some((name, h))
    requires name !in names && ReadValue(s, h) == Some((v, k))
    requires var l := SkipSpaces(s, k);
      || (At(s, l, '}') && fs == [] && n == l + 1)
      || (At(s, l, ',') && !At(s, SkipSpaces(s, l + 1), '}') && ReadMembers(s, l + 1, names + {name}) == Some((fs, n)))
    ensures ReadMembers(s, i, names) == Some(([(name, v)] + fs, n))
  {
    hide ReadValue, ReadKey;
    var l := SkipSpaces(s, k);
    if At(s, l, ',') {
      ReadMembersPastSpaces(s, l + 1, names + {name});
    } else {
      assert [(name, v)] + fs == [(name, v)];
    }
  }

  /** A key is where the object loop finds it, and the colon behind it. */
  lemma KeyIsRead(s: string, i: nat, m: Member, tail: string)
    requires m.Ok() && Fits(s, i, m.before + (Quoted(m.key) + (m.mid + ([':'] + tail))))
    ensures SkipSpaces(s, i) == i + |m.before| && At(s, i + |m.before|, '"')
    ensures var k := i + |m.before| + |Quoted(m.key)| + |m.mid| + 1;
      ReadKey(s, i + |m.before|) == Some((PiecesChars(m.key), k)) && Fits(s, k, tail)
  {
    hide Fits, Quoted, ReadString, PiecesChars, PiecesOk, Spaces, SkipSpaces;
    FitsSplit(s, i, m.before, Quoted(m.key) + (m.mid + ([':'] + tail)));
    var j := i + |m.before|;
    FitsSplit(s, j, Quoted(m.key), m.mid + ([':'] + tail));
    StringIsRead(s, j, m.key);
    SkippedTo(s, i, m.before, '"');
    var k := j + |Quoted(m.key)|;
    FitsSplit(s, k, m.mid, [':'] + tail);
    FitsSplit(s, k + |m.mid|, [':'], tail);
    FirstChar(s, k + |m.mid|, [':']);
    SkippedTo(s, k, m.mid, ':');
  }

  lemma MembersTextParts(ms: Members, c: char, rest: string)
    requires if ms.MoreMembers? then c == ',' && rest == MembersText(ms.rest) else c == '}' && rest == ""
    ensures MembersText(ms) == ms.m.before + (Quoted(ms.m.key) + (ms.m.mid + ([':'] + (ms.m.gap + (Text(ms.item)
      + (ms.after + ([c] + rest)))))))
    ensures |MembersText(ms)|
      == |ms.m.before| + |Quoted(ms.m.key)| + |ms.m.mid| + 1 + |ms.m.gap| + |Text(ms.item)| + |ms.after| + 1 + |rest|
  {
    assert ms.LastMember? ==> [c] + rest == ['}'];
  }

  lemma {:induction false} MembersAreRead(s: string, i: nat, ms: Members, names: set<string>)
    requires MembersOk(ms) && Keys(ms) !! names && Fits(s, i, MembersText(ms))
    ensures ReadMembers(s, i, names) == Some((MembersMeaning(ms), i + |MembersText(ms)|))
    ensures !At(s, SkipSpaces(s, i), '}')
    decreases ms, 2
  {
    hide Fits, ReadValue, ReadKey, ReadMembers, PiecesChars, Quoted, Text, SkipSpaces, MembersText, Delimited, Ok;
    hide PiecesOk, Spaces, Starts;
    var c, rest := if ms.MoreMembers? then ',' else '}', if ms.MoreMembers? then MembersText(ms.rest) else "";
    MembersTextParts(ms, c, rest);
    KeyIsRead(s, i, ms.m, ms.m.gap + (Text(ms.item) + (ms.after + ([c] + rest))));
    OkStarts(ms.item);
    ElementLayout(s, i + |ms.m.before| + |Quoted(ms.m.key)| + |ms.m.mid| + 1, ms.m.gap, ms.item, ms.after, c, rest);
    var k := i + |ms.m.before| + |Quoted(ms.m.key)| + |ms.m.mid| + 1;
    ValueIsRead(s, k, ms.m.gap, ms.item);
    var m := k + |ms.m.gap| + |Text(ms.item)| + |ms.after|;
    if ms.MoreMembers? {
      var names' := names + {PiecesChars(ms.m.key)};
      MembersAreRead(s, m + 1, ms.rest, names');
      ReadMembersStep(s, i, names, PiecesChars(ms.m.key), k, Meaning(ms.item), m - |ms.after|,
        MembersMeaning(ms.rest), i + |MembersText(ms)|);
    } else {
      ReadMembersStep(s, i, names, PiecesChars(ms.m.key), k, Meaning(ms.item), m - |ms.after|, [], m + 1);
    }
  }

  lemma FitsItself(s: string)
    ensures Fits(s, 0, s)
  {
    assert s[0..|s|] == s;
  }

  lemma Complete(s: string, v: Value)
    requires Spells(s, v)
    ensures Parse(s) == Some(v)
  {
    hide Fits, Text, Ok, Meaning;
    var before, t, after :| SpellsAs(s, v, before, t, after);
    assert Fits(s, 0, before + (Text(t) + after)) by { FitsItself(s); }
    FitsSplit(s, 0, before, Text(t) + after);
    FitsSplit(s, |before|, Text(t), after);
    if after != "" { FirstChar(s, |before| + |Text(t)|, after); }
    ValueIsRead(s, 0, before, t);
    SpacesAreSkipped(s, |before| + |Text(t)|, after);
  }

  // Every text that is read belongs to the dialect

  lemma FitsJoin(s: string, i: nat, a: string, b: string)
    requires Fits(s, i, a) && Fits(s, i + |a|, b)
    ensures Fits(s, i, a + b)
  {
    assert s[i..i + |a + b|] == s[i..i + |a|] + s[i + |a|..i + |a| + |b|];
  }

  lemma FitsChar(s: string, i: nat)
    requires i < |s|
    ensures Fits(s, i, [s[i]])
  {
  }

  lemma {:induction false} SkippedAreSpaces(s: string, i: nat)
    requires i <= |s|
    ensures var ws := s[i..SkipSpaces(s, i)]; Spaces(ws) && Fits(s, i, ws)
    decreases |s| - i
  {
    if i < |s| && IsSpace(s[i]) { SkippedAreSpaces(s, i + 1); }
  }

  lemma {:induction false} SkippedAreDigits(s: string, i: nat)
    requires i <= |s|
    ensures var ds := s[i..SkipDigits(s, i)]; Digits(ds) && Fits(s, i, ds)
    decreases |s| - i
  {
    if i < |s| && IsDigit(s[i]) { SkippedAreDigits(s, i + 1); }
  }

  lemma PassedFits(s: string, i: nat, c: char)
    requires i <= |s|
    ensures Fits(s, i, if Past(s, i, c) == i + 1 then [c] else "")
  {
  }

  lemma SoundExponent(s: string, i: nat) returns (n: Option<Exponent>)
    requires i <= |s| && ReadExponent(s, i).Some?
    ensures n.Some? ==> n.value.Ok()
    ensures var t := if n.None? then "" else n.value.Text(); Fits(s, i, t) && ReadExponent(s, i).value == i + |t|
  {
    hide Fits, Digits;
    FitsNothing(s, i);
    if At(s, i, 'e') || At(s, i, 'E') {
      var j := Past(s, i + 1, '+');
      var k := Past(s, j, '-');
      var p, m, ds := if j == i + 2 then "+" else "", if k == j + 1 then "-" else "", s[k..SkipDigits(s, k)];
      FitsChar(s, i);
      PassedFits(s, i + 1, '+');
      PassedFits(s, j, '-');
      SkippedAreDigits(s, k);
      FitsJoin(s, j, m, ds);
      FitsJoin(s, i + 1, p, m + ds);
      FitsJoin(s, i, [s[i]], p + (m + ds));
      n := Some(Exponent(s[i], j == i + 2, k == j + 1, ds));
    } else {
      n := None;
    }
  }

  lemma SoundFraction(s: string, i: nat) returns (f: Option<string>)
    requires i <= |s| && ReadFraction(s, i).Some?
    ensures f.Some? ==> f.value != "" && Digits(f.value)
    ensures var t := if f.None? then "" else ['.'] + f.value; Fits(s, i, t) && ReadFraction(s, i).value == i + |t|
  {
    hide Digits;
    if At(s, i, '.') {
      SkippedAreDigits(s, i + 1);
      f := Some(s[i + 1..SkipDigits(s, i + 1)]);
      FitsChar(s, i);
      FitsJoin(s, i, ['.'], f.value);
    } else {
      f := None;
    }
  }

  lemma SoundWhole(s: string, i: nat)
    requires i <= |s| && ReadWhole(s, i).Some?
    ensures var t := s[i..ReadWhole(s, i).value];
      Fits(s, i, t) && (t == "0" || (t != "" && Digits(t) && t[0] != '0'))
  {
    SkippedAreDigits(s, i);
  }

  lemma SoundNumber(s: string, i: nat) returns (n: Numeral)
    requires i <= |s| && ReadNumber(s, i).Some?
    ensures n.Ok() && Fits(s, i, n.Text()) && ReadNumber(s, i).value == i + |n.Text()|
  {
    hide Fits, ReadExponent, ReadFraction, ReadWhole, Digits, Exponent.Text, Exponent.Ok;
    var j := Past(s, i, '-');
    SoundWhole(s, j);
    var k := ReadWhole(s, j).value;
    var f := SoundFraction(s, k);
    var x := SoundExponent(s, ReadFraction(s, k).value);
    n := Numeral(j == i + 1, s[j..k], f, x);
    PassedFits(s, i, '-');
    NumberJoin(s, i, n);
  }

  lemma NumberJoin(s: string, i: nat, n: Numeral)
    requires var m := if n.minus then "-" else ""; var j := i + |m|; var k := j + |n.whole|;
      && Fits(s, i, m) && Fits(s, j, n.whole)
      && Fits(s, k, n.FractionText()) && Fits(s, k + |n.FractionText()|, n.ExponentText())
    ensures Fits(s, i, n.Text())
    ensures |n.Text()| == (if n.minus then 1 else 0) + |n.whole| + |n.FractionText()| + |n.ExponentText()|
  {
    hide Fits, Numeral.FractionText, Numeral.ExponentText;
    var m := if n.minus then "-" else "";
    var j := i + |m|;
    FitsJoin(s, j + |n.whole|, n.FractionText(), n.ExponentText());
    FitsJoin(s, j, n.whole, n.FractionText() + n.ExponentText());
    FitsJoin(s, i, m, n.whole + (n.FractionText() + n.ExponentText()));
  }

  lemma SoundEscape(s: string, i: nat) returns (p: Piece)
    requires At(s, i, '\\') && ReadEscape(s, i + 1).Some?
    ensures !p.Raw? && p.Ok() && ReadEscape(s, i + 1).value == (p.Char(), i + |p.Text()|) && Fits(s, i, p.Text())
  {
    if s[i + 1] == 'u' {
      var h := s[i + 2..i + 6];
      if IsHigh(HexWordValue(h)) {
        p := Pair(h, s[i + 8..i + 12]);
      } else {
        p := Unit(h);
      }
    } else {
      p := Short(s[i + 1]);
    }
  }

  /** One piece at the front of a string body. */
  lemma SoundPiece(s: string, i: nat) returns (p: Piece)
    requires ReadBody(s, i).Some? && s[i] != '"'
    ensures p.Ok() && Fits(s, i, p.Text()) && p.Text() != ""
    ensures ReadBody(s, i) == Prepend([p.Char()], ReadBody(s, i + |p.Text()|))
  {
    hide ReadEscape, Fits;
    FitsChar(s, i);
    if s[i] == '\\' {
      p := SoundEscape(s, i);
    } else {
      p := Raw(s[i]);
    }
  }

  lemma {:induction false} SoundBody(s: string, i: nat) returns (ps: seq<Piece>)
    requires ReadBody(s, i).Some?
    ensures PiecesOk(ps) && ReadBody(s, i).value == (PiecesChars(ps), i + |PiecesText(ps)|)
    ensures Fits(s, i, PiecesText(ps))
    decreases |s| - i
  {
    hide ReadEscape, Fits, Piece.Text, Piece.Ok, Piece.Char;
    if s[i] == '"' {
      FitsChar(s, i);
      ps := [];
    } else {
      var p := SoundPiece(s, i);
      hide ReadBody;
      var qs := SoundBody(s, i + |p.Text()|);
      ps := [p] + qs;
      assert ps[1..] == qs;
      FitsJoin(s, i, p.Text(), PiecesText(qs));
    }
  }

  lemma SoundString(s: string, i: nat) returns (ps: seq<Piece>)
    requires ReadString(s, i).Some?
    ensures PiecesOk(ps) && ReadString(s, i).value == (PiecesChars(ps), i + |Quoted(ps)|) && Fits(s, i, Quoted(ps))
  {
    hide Fits, ReadBody, PiecesText, PiecesChars, PiecesOk;
    ps := SoundBody(s, i + 1);
    FitsChar(s, i);
    FitsJoin(s, i, ['"'], PiecesText(ps));
  }

  lemma {:induction false} SoundValue(s: string, i: nat) returns (ws: string, t: Tree)
    requires i <= |s| && ReadValue(s, i).Some?
    ensures Spaces(ws) && Ok(t) && ReadValue(s, i).value == (Meaning(t), i + |ws| + |Text(t)|)
    ensures Fits(s, i, ws) && Fits(s, i + |ws|, Text(t))
    decreases |s| - i, 4
  {
    hide Fits, Text, Ok, Meaning, Spaces, ReadValue;
    var j := SkipSpaces(s, i);
    ws := s[i..j];
    SkippedAreSpaces(s, i);
    ReadValuePastSpaces(s, i);
    t := SoundSolid(s, j);
  }

  lemma SoundSolid(s: string, j: nat) returns (t: Tree)
    requires j <= |s| && SkipSpaces(s, j) == j && ReadValue(s, j).Some?
    ensures Ok(t) && ReadValue(s, j).value == (Meaning(t), j + |Text(t)|) && Fits(s, j, Text(t))
    decreases |s| - j, 3
  {
    hide ReadNumber, ReadString, ReadItems, ReadMembers, PiecesOk, PiecesChars, Numeral.Ok, Numeral.Text, Quoted;
    match s[j] {
      case 'n' => t := NullTree;
      case 't' => t := BoolTree(true);
      case 'f' => t := BoolTree(false);
      case '"' =>
        var ps := SoundString(s, j);
        t := StringTree(ps);
      case '{' => t := SoundObject(s, j);
      case '[' => t := SoundArray(s, j);
      case _ =>
        var n := SoundNumber(s, j);
        t := NumberTree(n);
        assert s[j..j + |n.Text()|] == n.Text();
    }
  }

  lemma SoundArray(s: string, i: nat) returns (t: Tree)
    requires At(s, i, '[') && ReadItems(s, i + 1).Some?
    ensures Ok(t) && Meaning(t) == Array(ReadItems(s, i + 1).value.0)
    ensures Fits(s, i, Text(t)) && ReadItems(s, i + 1).value.1 == i + |Text(t)|
    decreases |s| - i, 2
  {
    hide Fits, ReadValue, ReadKey, Spaces, ItemsText, MembersText;
    FitsChar(s, i);
    var j := SkipSpaces(s, i + 1);
    if At(s, j, ']') {
      SkippedAreSpaces(s, i + 1);
      FitsChar(s, j);
      t := EmptyArray(s[i + 1..j]);
      FitsJoin(s, i + 1, s[i + 1..j], [']']);
      FitsJoin(s, i, ['['], s[i + 1..j] + [']']);
    } else {
      t := SoundFilledArray(s, i);
    }
  }

  lemma SoundFilledArray(s: string, i: nat) returns (t: Tree)
    requires At(s, i, '[') && ReadItems(s, i + 1).Some? && !At(s, SkipSpaces(s, i + 1), ']')
    ensures Ok(t) && Meaning(t) == Array(ReadItems(s, i + 1).value.0)
    ensures Fits(s, i, Text(t)) && ReadItems(s, i + 1).value.1 == i + |Text(t)|
    decreases |s| - i, 1
  {
    hide Fits, ReadValue, ReadItems, Spaces, ItemsText, MembersText, SkipSpaces;
    FitsChar(s, i);
    var items := SoundItems(s, i + 1);
    t := ArrayTree(items);
    FitsJoin(s, i, ['['], ItemsText(items));
  }

  /** The converse of ElementLayout. */
  lemma ElementJoin(s: string, i: nat, ws: string, t: Tree, c: char, rest: string)
    requires Ok(t) && Fits(s, i, ws) && Fits(s, i + |ws|, Text(t))
    requires var k := i + |ws| + |Text(t)|; At(s, SkipSpaces(s, k), c) && Fits(s, SkipSpaces(s, k) + 1, rest)
    ensures var k := i + |ws| + |Text(t)|; var after := s[k..SkipSpaces(s, k)];
      Spaces(after) && Fits(s, i, ws + (Text(t) + (after + ([c] + rest))))
  {
    hide Fits, Text, Ok;
    var k := i + |ws| + |Text(t)|;
    var l := SkipSpaces(s, k);
    var after := s[k..l];
    SkippedAreSpaces(s, k);
    FitsChar(s, l);
    FitsJoin(s, l, [c], rest);
    FitsJoin(s, k, after, [c] + rest);
    FitsJoin(s, i + |ws|, Text(t), after + ([c] + rest));
    FitsJoin(s, i, ws, Text(t) + (after + ([c] + rest)));
  }

  /** What a successful turn of the array loop has seen. */
  lemma ItemsInverse(s: string, i: nat) returns (k: nat, vs: seq<Value>)
    requires i <= |s| && ReadItems(s, i).Some? && !At(s, SkipSpaces(s, i), ']')
    ensures ReadValue(s, SkipSpaces(s, i)).Some? && k == ReadValue(s, SkipSpaces(s, i)).value.1
    ensures ReadItems(s, i).value.0 == [ReadValue(s, SkipSpaces(s, i)).value.0] + vs
    ensures var l := SkipSpaces(s, k);
      if At(s, l, ']') then vs == [] && ReadItems(s, i).value.1 == l + 1
      else
        && At(s, l, ',') && !At(s, SkipSpaces(s, l + 1), ']')
        && ReadItems(s, l + 1) == Some((vs, ReadItems(s, i).value.1))
  {
    hide ReadValue;
    k := ReadValue(s, SkipSpaces(s, i)).value.1;
    var l := SkipSpaces(s, k);
    if At(s, l, ']') {
      vs := [];
    } else {
      ReadItemsPastSpaces(s, l + 1);
      vs := ReadItems(s, l + 1).value.0;
    }
  }

  lemma {:induction false} SoundItems(s: string, i: nat) returns (items: Items)
    requires i <= |s| && ReadItems(s, i).Some? && !At(s, SkipSpaces(s, i), ']')
    ensures ItemsOk(items) && ReadItems(s, i).value == (ItemsMeaning(items), i + |ItemsText(items)|)
    ensures Fits(s, i, ItemsText(items))
    decreases |s| - i, 5
  {
    hide ReadValue, ReadItems, SkipSpaces, Fits, Text, Ok, Meaning, ItemsText;
    var j := SkipSpaces(s, i);
    var k, vs := ItemsInverse(s, i);
    var l := SkipSpaces(s, k);
    var t := SoundSpaced(s, i);
    if At(s, l, ']') {
      FitsNothing(s, l + 1);
      ElementJoin(s, i, s[i..j], t, ']', "");
      items := LastItem(s[i..j], t, s[k..l]);
      ItemsTextParts(items, ']', "");
      assert ItemsMeaning(items) == [Meaning(t)];
    } else {
      var rest := SoundItems(s, l + 1);
      ElementJoin(s, i, s[i..j], t, ',', ItemsText(rest));
      items := MoreItems(s[i..j], t, s[k..l], rest);
      ItemsTextParts(items, ',', ItemsText(rest));
    }
  }

  lemma SoundSpaced(s: string, i: nat) returns (t: Tree)
    requires i <= |s| && ReadValue(s, SkipSpaces(s, i)).Some?
    ensures var j := SkipSpaces(s, i); var ws := s[i..j];
      && Spaces(ws) && Fits(s, i, ws)
      && Ok(t) && ReadValue(s, j).value == (Meaning(t), j + |Text(t)|) && Fits(s, j, Text(t))
    decreases |s| - i, 4
  {
    hide Fits, Text, Ok, Meaning, Spaces, ReadValue;
    SkippedAreSpaces(s, i);
    assert SkipSpaces(s, SkipSpaces(s, i)) == SkipSpaces(s, i);
    t := SoundSolid(s, SkipSpaces(s, i));
  }

  lemma SoundObject(s: string, i: nat) returns (t: Tree)
    requires At(s, i, '{') && ReadMembers(s, i + 1, {}).Some?
    ensures Ok(t) && Meaning(t) == Object(ReadMembers(s, i + 1, {}).value.0)
    ensures Fits(s, i, Text(t)) && ReadMembers(s, i + 1, {}).value.1 == i + |Text(t)|
    decreases |s| - i, 2
  {
    hide Fits, ReadValue, ReadKey, Spaces, ItemsText, MembersText;
    FitsChar(s, i);
    var j := SkipSpaces(s, i + 1);
    if At(s, j, '}') {
      SkippedAreSpaces(s, i + 1);
      FitsChar(s, j);
      t := EmptyObject(s[i + 1..j]);
      FitsJoin(s, i + 1, s[i + 1..j], ['}']);
      FitsJoin(s, i, ['{'], s[i + 1..j] + ['}']);
    } else {
      var ms := SoundMembers(s, i + 1, {});
      t := ObjectTree(ms);
      FitsJoin(s, i, ['{'], MembersText(ms));
    }
  }

  /** A turn of the object loop: the name, where its value starts and ends, and the other members. */
  datatype Turn = Turn(name: string, start: nat, end: nat, rest: seq<(string, Value)>)

  /** What a successful turn of the object loop has seen. */
  lemma MembersInverse(s: string, i: nat, names: set<string>) returns (t: Turn)
    requires i <= |s| && ReadMembers(s, i, names).Some? && !At(s, SkipSpaces(s, i), '}')
    ensures ReadKey(s, SkipSpaces(s, i)) == Some((t.name, t.start)) && t.name !in names
    ensures ReadValue(s, t.start).Some? && t.end == ReadValue(s, t.start).value.1
    ensures ReadMembers(s, i, names).value.0 == [(t.name, ReadValue(s, t.start).value.0)] + t.rest
    ensures var l := SkipSpaces(s, t.end); var n := ReadMembers(s, i, names).value.1;
      if At(s, l, '}') then t.rest == [] && n == l + 1
      else
        && At(s, l, ',') && !At(s, SkipSpaces(s, l + 1), '}')
        && ReadMembers(s, l + 1, names + {t.name}) == Some((t.rest, n))
  {
    hide ReadValue, ReadKey;
    var (name, h) := ReadKey(s, SkipSpaces(s, i)).value;
    var k := ReadValue(s, h).value.1;
    var l := SkipSpaces(s, k);
    if At(s, l, '}') {
      t := Turn(name, h, k, []);
    } else {
      ReadMembersPastSpaces(s, l + 1, names + {name});
      t := Turn(name, h, k, ReadMembers(s, l + 1, names + {name}).value.0);
    }
  }

  lemma SoundKey(s: string, i: nat) returns (m: Member)
    requires i <= |s| && ReadKey(s, SkipSpaces(s, i)).Some?
    ensures m.Ok() && m.gap == "" && ReadKey(s, SkipSpaces(s, i)).value.0 == PiecesChars(m.key)
    ensures ReadKey(s, SkipSpaces(s, i)).value.1 == i + |m.before| + |Quoted(m.key)| + |m.mid| + 1
    ensures forall tail {:trigger Fits(s, ReadKey(s, SkipSpaces(s, i)).value.1, tail)} ::
      Fits(s, ReadKey(s, SkipSpaces(s, i)).value.1, tail)
      ==> Fits(s, i, m.before + (Quoted(m.key) + (m.mid + ([':'] + tail))))
  {
    hide Fits, Quoted, ReadString, PiecesChars, PiecesOk, SkipSpaces;
    var j := SkipSpaces(s, i);
    SkippedAreSpaces(s, i);
    var key := SoundString(s, j);
    var k := j + |Quoted(key)|;
    var l := SkipSpaces(s, k);
    SkippedAreSpaces(s, k);
    FitsChar(s, l);
    m := Member(s[i..j], key, s[k..l], "");
    forall tail | Fits(s, l + 1, tail)
      ensures Fits(s, i, m.before + (Quoted(m.key) + (m.mid + ([':'] + tail))))
    {
      FitsJoin(s, l, [':'], tail);
      FitsJoin(s, k, m.mid, [':'] + tail);
      FitsJoin(s, j, Quoted(key), m.mid + ([':'] + tail));
      FitsJoin(s, i, m.before, Quoted(key) + (m.mid + ([':'] + tail)));
    }
  }

  lemma {:induction false} SoundMembers(s: string, i: nat, names: set<string>) returns (ms: Members)
    requires i <= |s| && ReadMembers(s, i, names).Some? && !At(s, SkipSpaces(s, i), '}')
    ensures MembersOk(ms) && Keys(ms) !! names
    ensures ReadMembers(s, i, names).value == (MembersMeaning(ms), i + |MembersText(ms)|)
    ensures Fits(s, i, MembersText(ms))
    decreases |s| - i, 5
  {
    hide ReadValue, ReadMembers, ReadKey, SkipSpaces, Fits, Text, Ok, Meaning, MembersText, Quoted, PiecesChars;
    hide PiecesOk;
    var turn := MembersInverse(s, i, names);
    var name, h, k := turn.name, turn.start, turn.end;
    var l := SkipSpaces(s, k);
    var m := SoundKey(s, i);
    var gap, t := SoundValue(s, h);
    m := m.(gap := gap);
    if At(s, l, '}') {
      FitsNothing(s, l + 1);
      ElementJoin(s, h, gap, t, '}', "");
      ms := LastMember(m, t, s[k..l]);
      MembersTextParts(ms, '}', "");
      assert MembersMeaning(ms) == [(name, Meaning(t))];
    } else {
      var rest := SoundMembers(s, l + 1, names + {name});
      ElementJoin(s, h, gap, t, ',', MembersText(rest));
      ms := MoreMembers(m, t, s[k..l], rest);
      MembersTextParts(ms, ',', MembersText(rest));
    }
  }

  lemma Sound(s: string, v: Value)
    requires Parse(s) == Some(v)
    ensures Spells(s, v)
  {
    hide Text, Ok, Meaning;
    hide Fits;
    var i := ReadValue(s, 0).value.1;
    var ws, t := SoundValue(s, 0);
    SkippedAreSpaces(s, i);
    var after := s[i..|s|];
    FitsJoin(s, |ws|, Text(t), after);
    FitsJoin(s, 0, ws, Text(t) + after);
    FitsText(s, 0, ws + (Text(t) + after));
    assert s[0..|s|] == s;
    assert SpellsAs(s, v, ws, t, after);
  }

  /** The parser accepts exactly the texts of the dialect, with their meaning. */
  lemma ParseIsTheDialect(s: string, v: Value)
    ensures Parse(s) == Some(v) <==> Spells(s, v)
  {
    if Parse(s) == Some(v) { Sound(s, v); }
    if Spells(s, v) { Complete(s, v); }
  }
}
