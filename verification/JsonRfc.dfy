/** The dialect beside RFC 8259: where the two agree, and an input for every way
  in which they do not. */
module JsonRfc {
  import opened Options
  import opened JsonGrammar
  import opened JsonReading
  import opened JsonTheorems

  // RFC 8259 on the same trees, without looking at what the code accepts

  /** Section 7: a raw character is anything from U+0020 on, but no quote and no
    backslash; after `\u` come four hexadecimal digits, which may name half of a
    surrogate pair. */
  predicate RfcPiece(p: Piece) {
    match p
    case Raw(c) => c != '"' && c != '\\' && c as int >= 0x20
    case Short(e) => e in "\"\\/bfnrt"
    case Unit(d) => FourDigits(d)
    case Pair(h, l) => FourDigits(h) && FourDigits(l) && IsHigh(HexWordValue(h)) && IsLow(HexWordValue(l))
  }

  predicate FourDigits(d: string) { HexWord(d) && d[0] != '+' }

  predicate Half(p: Piece) { HighHalf(p) || LowHalf(p) }

  predicate HighHalf(p: Piece) { p.Unit? && HexWord(p.digits) && IsHigh(HexWordValue(p.digits)) }

  predicate LowHalf(p: Piece) { p.Unit? && HexWord(p.digits) && IsLow(HexWordValue(p.digits)) }

  /** Every text has such pieces in one way: two halves that follow each other are
    one pair. */
  predicate RfcPieces(ps: seq<Piece>) {
    ps != [] ==> RfcPiece(ps[0]) && RfcPieces(ps[1..]) && !(HighHalf(ps[0]) && |ps| > 1 && LowHalf(ps[1]))
  }

  /** Section 6: an exponent has at most one sign. */
  predicate RfcNumeral(n: Numeral) {
    n.Ok() && (n.exponent.Some? ==> !(n.exponent.value.plus && n.exponent.value.minus))
  }

  predicate RfcTree(t: Tree) {
    match t
    case NumberTree(n) => RfcNumeral(n)
    case StringTree(ps) => RfcPieces(ps)
    case EmptyArray(ws) => Spaces(ws)
    case ArrayTree(items) => RfcItems(items)
    case EmptyObject(ws) => Spaces(ws)
    case ObjectTree(ms) => RfcMembers(ms)
    case _ => true
  }

  predicate RfcItems(t: Items) {
    Spaces(t.before) && RfcTree(t.item) && Spaces(t.after) && (t.MoreItems? ==> RfcItems(t.rest))
  }

  /** Section 4 lets keys repeat. */
  predicate RfcMembers(ms: Members) {
    && Spaces(ms.m.before) && RfcPieces(ms.m.key) && Spaces(ms.m.mid) && Spaces(ms.m.gap)
    && RfcTree(ms.item) && Spaces(ms.after) && (ms.MoreMembers? ==> RfcMembers(ms.rest))
  }

  predicate Spelled(s: string, before: string, t: Tree, after: string) {
    Spaces(before) && Spaces(after) && s == before + (Text(t) + after)
  }

  ghost predicate IsRfc(s: string) { exists before, t, after :: Spelled(s, before, t, after) && RfcTree(t) }

  // An RFC text is read exactly when its tree is one of the dialect

  lemma RfcStarts(t: Tree)
    requires RfcTree(t)
    ensures Starts(t)
  {
  }

  /** A half of a surrogate pair is never read. */
  lemma HalfIsNotRead(s: string, i: nat, ps: seq<Piece>)
    requires RfcPieces(ps) && ps != [] && Half(ps[0]) && Fits(s, i, PiecesText(ps))
    ensures ReadBody(s, i).None?
  {
    var d := ps[0].digits;
    FitsSplit(s, i, ps[0].Text(), PiecesText(ps[1..]));
    FirstChar(s, i, ps[0].Text());
    assert s[i + 1] == s[i..i + 6][1];
    FitsSplit(s, i, ['\\', 'u'], d);
    assert ReadHexWord(s, i + 2) == Some(HexWordValue(d));
    if IsHigh(HexWordValue(d)) { NoLowHalfFollows(s, i + 6, ps[1..]); }
    hide PiecesText;
    assert ReadUnicode(s, i + 2).None?;
  }

  lemma NoLowHalfFollows(s: string, i: nat, ps: seq<Piece>)
    requires RfcPieces(ps) && Fits(s, i, PiecesText(ps)) && !(ps != [] && LowHalf(ps[0]))
    ensures !ReadsLow(s, i)
  {
    hide Fits, ReadsLow;
    if ps == [] {
      FirstChar(s, i, ['"']);
      NoBackslash(s, i);
    } else {
      FitsSplit(s, i, ps[0].Text(), PiecesText(ps[1..]));
      PieceIsNotLow(s, i, ps[0]);
    }
  }

  /** A `\u` escape for the low half of a pair stands there. */
  predicate ReadsLow(s: string, i: nat) {
    && At(s, i, '\\') && At(s, i + 1, 'u')
    && ReadHexWord(s, i + 2).Some? && IsLow(ReadHexWord(s, i + 2).value)
  }

  lemma NoBackslash(s: string, i: nat)
    requires !At(s, i, '\\')
    ensures !ReadsLow(s, i)
  {
  }

  lemma PieceIsNotLow(s: string, i: nat, p: Piece)
    requires RfcPiece(p) && Fits(s, i, p.Text()) && !LowHalf(p)
    ensures !ReadsLow(s, i)
  {
    hide Fits, HexWordValue, ReadHexWord;
    FirstChar(s, i, p.Text());
    match p
    case Raw(_) =>
    case Short(e) =>
      assert p.Text() == ['\\'] + [e];
      FitsSplit(s, i, ['\\'], [e]);
      FirstChar(s, i + 1, [e]);
    case Unit(d) =>
      FitsSplit(s, i, ['\\', 'u'], d);
      WordIsRead(s, i + 2, d);
    case Pair(h, l) =>
      assert p.Text() == ['\\', 'u'] + (h + (['\\', 'u'] + l));
      FitsSplit(s, i, ['\\', 'u'], h + (['\\', 'u'] + l));
      FitsSplit(s, i + 2, h, ['\\', 'u'] + l);
      WordIsRead(s, i + 2, h);
  }

  lemma WordIsRead(s: string, i: nat, d: string)
    requires HexWord(d) && Fits(s, i, d)
    ensures ReadHexWord(s, i) == Some(HexWordValue(d))
  {
  }

  lemma {:induction false} RfcBody(s: string, i: nat, ps: seq<Piece>)
    requires RfcPieces(ps) && Fits(s, i, PiecesText(ps)) && ReadBody(s, i).Some?
    ensures PiecesOk(ps)
    decreases |ps|
  {
    hide Fits, ReadEscape, Piece.Text, Piece.Char;
    if ps != [] {
      if Half(ps[0]) { HalfIsNotRead(s, i, ps); }
      FitsSplit(s, i, ps[0].Text(), PiecesText(ps[1..]));
      RawIsRead(s, i, ps[0]);
      PieceIsRead(s, i, ps[0]);
      RfcBody(s, i + |ps[0].Text()|, ps[1..]);
      assert forall k :: 1 <= k < |ps| ==> ps[k] == ps[1..][k - 1];
    }
  }

  lemma RawIsRead(s: string, i: nat, p: Piece)
    requires RfcPiece(p) && Fits(s, i, p.Text()) && ReadBody(s, i).Some?
    ensures p.Raw? ==> !IsControl(p.c)
  {
    FirstChar(s, i, p.Text());
  }

  lemma RfcString(s: string, i: nat, ps: seq<Piece>)
    requires RfcPieces(ps) && Fits(s, i, Quoted(ps)) && ReadString(s, i).Some?
    ensures PiecesOk(ps)
  {
    hide Fits, ReadBody, PiecesText, PiecesOk, RfcPieces;
    FitsSplit(s, i, ['"'], PiecesText(ps));
    RfcBody(s, i + 1, ps);
  }

  lemma {:induction false} RfcValue(s: string, j: nat, t: Tree)
    requires RfcTree(t) && Fits(s, j, Text(t)) && j <= |s| && ReadValue(s, j).Some?
    ensures Ok(t)
    decreases t, 0
  {
    hide ReadValue, ReadString, ReadItems, ReadMembers, Fits, Quoted, PiecesOk, RfcPieces, ItemsText, MembersText;
    hide Starts, Spaces, ItemsOk, MembersOk, RfcItems, RfcMembers;
    RfcStarts(t);
    TextStarts(s, j, t);
    ReadByFirst(s, j);
    FirstChar(s, j, Text(t)) by { StartsWithSomething(t); }
    match t
    case StringTree(ps) =>
      QuotedStarts(ps);
      RfcString(s, j, ps);
    case ArrayTree(items) =>
      FitsSplit(s, j, ['['], ItemsText(items));
      RfcItemsAreOk(s, j + 1, items);
    case ObjectTree(ms) =>
      FitsSplit(s, j, ['{'], MembersText(ms));
      RfcMembersAreOk(s, j + 1, ms, {});
    case _ =>
  }

  lemma StartsWithSomething(t: Tree)
    requires Starts(t)
    ensures Text(t) != ""
  {
  }

  lemma QuotedStarts(ps: seq<Piece>)
    ensures Quoted(ps)[0] == '"'
  {
  }

  lemma {:induction false} RfcItemsAreOk(s: string, i: nat, items: Items)
    requires RfcItems(items) && Fits(s, i, ItemsText(items)) && i <= |s| && ReadItems(s, i).Some?
    ensures ItemsOk(items)
    decreases items, 1
  {
    hide Fits, ReadValue, ReadItems, Text, SkipSpaces, ItemsText, Delimited, Ok, Starts, Spaces, RfcTree;
    var c, rest := if items.MoreItems? then ',' else ']', if items.MoreItems? then ItemsText(items.rest) else "";
    ItemsTextParts(items, c, rest);
    RfcStarts(items.item);
    ElementLayout(s, i, items.before, items.item, items.after, c, rest);
    var j := i + |items.before|;
    var k, vs := ItemsInverse(s, i);
    RfcValue(s, j, items.item);
    FitsNothing(s, j);
    SpacesOfNothing();
    ValueIsRead(s, j, "", items.item);
    if items.MoreItems? { RfcItemsAreOk(s, k + |items.after| + 1, items.rest); }
  }

  lemma SpacesOfNothing()
    ensures Spaces("")
  {
  }

  lemma {:induction false} RfcMembersAreOk(s: string, i: nat, ms: Members, names: set<string>)
    requires RfcMembers(ms) && Fits(s, i, MembersText(ms)) && i <= |s| && ReadMembers(s, i, names).Some?
    ensures MembersOk(ms) && Keys(ms) !! names
    decreases ms, 1
  {
    hide Fits, ReadValue, ReadKey, ReadMembers, PiecesChars, Quoted, Text, SkipSpaces, MembersText, Delimited, Ok;
    hide PiecesOk, RfcPieces, Spaces, Starts, RfcTree;
    var c, rest := if ms.MoreMembers? then ',' else '}', if ms.MoreMembers? then MembersText(ms.rest) else "";
    MembersTextParts(ms, c, rest);
    var tail := ms.m.gap + (Text(ms.item) + (ms.after + ([c] + rest)));
    RfcKey(s, i, ms.m, tail);
    var turn := MembersInverse(s, i, names);
    RfcKeyIsOk(s, i + |ms.m.before|, ms.m);
    KeyIsRead(s, i, ms.m, tail);
    RfcStarts(ms.item);
    ElementLayout(s, turn.start, ms.m.gap, ms.item, ms.after, c, rest);
    ReadValuePastSpaces(s, turn.start);
    RfcValue(s, turn.start + |ms.m.gap|, ms.item);
    ValueIsRead(s, turn.start, ms.m.gap, ms.item);
    if ms.MoreMembers? { RfcMembersAreOk(s, turn.end + |ms.after| + 1, ms.rest, names + {turn.name}); }
  }

  /** Where the key of a member stands. */
  lemma RfcKey(s: string, i: nat, m: Member, tail: string)
    requires Spaces(m.before) && Fits(s, i, m.before + (Quoted(m.key) + (m.mid + ([':'] + tail))))
    ensures i <= |s| && SkipSpaces(s, i) == i + |m.before| && !At(s, SkipSpaces(s, i), '}')
    ensures Fits(s, i + |m.before|, Quoted(m.key))
  {
    hide Fits, Spaces, SkipSpaces;
    FitsSplit(s, i, m.before, Quoted(m.key) + (m.mid + ([':'] + tail)));
    var j := i + |m.before|;
    FitsSplit(s, j, Quoted(m.key), m.mid + ([':'] + tail));
    FirstChar(s, j, Quoted(m.key));
    SkippedTo(s, i, m.before, '"');
  }

  lemma RfcKeyIsOk(s: string, j: nat, m: Member)
    requires Spaces(m.before) && RfcPieces(m.key) && Spaces(m.mid) && Spaces(m.gap)
    requires Fits(s, j, Quoted(m.key)) && j <= |s| && ReadKey(s, j).Some?
    ensures m.Ok()
  {
    hide Fits, Quoted, PiecesOk, RfcPieces, Spaces, ReadString;
    RfcString(s, j, m.key);
  }

  // What the dialect refuses of RFC 8259

  /** A raw DEL or C1 control, or half of a surrogate pair. */
  predicate Strays(p: Piece) { (p.Raw? && 0x7f <= p.c as int <= 0x9f) || Half(p) }

  predicate SomeStray(ps: seq<Piece>) { exists i :: 0 <= i < |ps| && Strays(ps[i]) }

  /** What a piece stands for: a scalar value, or the value of half a pair. */
  function Code(p: Piece): int
    requires RfcPiece(p)
  {
    match p
    case Raw(c) => c as int
    case Short(e) => ShortChar(e) as int
    case Unit(d) => HexWordValue(d)
    case Pair(h, l) => Combine(HexWordValue(h), HexWordValue(l)) as int
  }

  /** The name that a key spells. */
  function Name(ps: seq<Piece>): seq<int>
    requires RfcPieces(ps)
  {
    if ps == [] then [] else [Code(ps[0])] + Name(ps[1..])
  }

  function Names(ms: Members): set<seq<int>>
    requires RfcMembers(ms)
    decreases ms, 1
  {
    {Name(ms.m.key)} + if ms.MoreMembers? then Names(ms.rest) else {}
  }

  /** Some string of the tree, names included, has a stray piece, or some object
    has two members whose names are the same, however they are spelled. */
  predicate Deviates(t: Tree)
    requires RfcTree(t)
    decreases t, 0
  {
    match t
    case StringTree(ps) => SomeStray(ps)
    case ArrayTree(items) => ItemsDeviate(items)
    case ObjectTree(ms) => MembersDeviate(ms)
    case _ => false
  }

  predicate ItemsDeviate(items: Items)
    requires RfcItems(items)
    decreases items, 0
  {
    Deviates(items.item) || (items.MoreItems? && ItemsDeviate(items.rest))
  }

  predicate MembersDeviate(ms: Members)
    requires RfcMembers(ms)
    decreases ms, 0
  {
    || SomeStray(ms.m.key) || Deviates(ms.item)
    || (ms.MoreMembers? && (MembersDeviate(ms.rest) || Name(ms.m.key) in Names(ms.rest)))
  }

  lemma PieceStrays(p: Piece)
    requires RfcPiece(p)
    ensures p.Ok() <==> !Strays(p)
    ensures p.Ok() ==> p.Char() as int == Code(p)
  {
  }

  lemma {:induction false} EachPiece(ps: seq<Piece>)
    requires RfcPieces(ps)
    ensures forall i :: 0 <= i < |ps| ==> RfcPiece(ps[i])
    decreases |ps|
  {
    if ps != [] {
      EachPiece(ps[1..]);
      assert forall i :: 1 <= i < |ps| ==> ps[i] == ps[1..][i - 1];
    }
  }

  lemma PiecesStray(ps: seq<Piece>)
    requires RfcPieces(ps)
    ensures PiecesOk(ps) <==> !SomeStray(ps)
  {
    hide RfcPiece, Strays, Piece.Ok;
    EachPiece(ps);
    forall i | 0 <= i < |ps| ensures ps[i].Ok() <==> !Strays(ps[i]) { PieceStrays(ps[i]); }
  }

  lemma {:induction false} NameIsChars(ps: seq<Piece>)
    requires RfcPieces(ps) && PiecesOk(ps)
    ensures var (name, chars) := (Name(ps), PiecesChars(ps));
      |name| == |chars| && forall i :: 0 <= i < |name| ==> name[i] == chars[i] as int
    decreases |ps|
  {
    hide RfcPiece, Piece.Ok, Code, Piece.Char;
    if ps != [] {
      EachPiece(ps);
      PieceStrays(ps[0]);
      NameIsChars(ps[1..]);
    }
  }

  lemma SameName(ps: seq<Piece>, qs: seq<Piece>)
    requires RfcPieces(ps) && PiecesOk(ps) && RfcPieces(qs) && PiecesOk(qs)
    ensures Name(ps) == Name(qs) <==> PiecesChars(ps) == PiecesChars(qs)
  {
    hide RfcPieces, PiecesOk, Name, PiecesChars;
    NameIsChars(ps);
    NameIsChars(qs);
    var a, b := PiecesChars(ps), PiecesChars(qs);
    if Name(ps) == Name(qs) {
      assert forall i :: 0 <= i < |a| ==> a[i] as int == b[i] as int;
      assert forall i :: 0 <= i < |a| ==> a[i] == b[i];
    }
  }

  lemma {:induction false} NamesAreKeys(ps: seq<Piece>, ms: Members)
    requires RfcPieces(ps) && PiecesOk(ps) && RfcMembers(ms) && MembersOk(ms)
    ensures Name(ps) in Names(ms) <==> PiecesChars(ps) in Keys(ms)
    decreases ms
  {
    hide RfcPieces, PiecesOk, Name, PiecesChars, RfcTree, Ok;
    SameName(ps, ms.m.key);
    if ms.MoreMembers? { NamesAreKeys(ps, ms.rest); }
  }

  /** An RFC tree is outside of the dialect exactly for one of the three reasons. */
  lemma {:induction false} DeviatesExactly(t: Tree)
    requires RfcTree(t)
    ensures Ok(t) <==> !Deviates(t)
    decreases t, 0
  {
    hide RfcPieces, PiecesOk, RfcItems, RfcMembers, ItemsOk, MembersOk, ItemsDeviate, MembersDeviate, SomeStray;
    match t
    case StringTree(ps) => PiecesStray(ps);
    case ArrayTree(items) => ItemsDeviateExactly(items);
    case ObjectTree(ms) => MembersDeviateExactly(ms);
    case _ =>
  }

  lemma {:induction false} ItemsDeviateExactly(items: Items)
    requires RfcItems(items)
    ensures ItemsOk(items) <==> !ItemsDeviate(items)
    decreases items, 0
  {
    hide RfcTree, Ok, Deviates, Spaces;
    DeviatesExactly(items.item);
    if items.MoreItems? { ItemsDeviateExactly(items.rest); }
  }

  lemma {:induction false} MembersDeviateExactly(ms: Members)
    requires RfcMembers(ms)
    ensures MembersOk(ms) <==> !MembersDeviate(ms)
    decreases ms, 0
  {
    hide RfcTree, Ok, Deviates, Spaces, RfcPieces, PiecesOk, SomeStray, Name, PiecesChars, Names, Keys;
    PiecesStray(ms.m.key);
    DeviatesExactly(ms.item);
    if ms.MoreMembers? {
      MembersDeviateExactly(ms.rest);
      if PiecesOk(ms.m.key) && MembersOk(ms.rest) { NamesAreKeys(ms.m.key, ms.rest); }
    }
  }

  /** A text of RFC 8259 is accepted exactly when no string in it holds a raw DEL or
    C1 control or half of a surrogate pair, and no object repeats a name. */
  lemma RfcAccepted(s: string, before: string, t: Tree, after: string)
    requires Spelled(s, before, t, after) && RfcTree(t)
    ensures Parse(s).Some? <==> !Deviates(t)
    ensures Ok(t) <==> !Deviates(t)
    ensures Ok(t) ==> Parse(s) == Some(Meaning(t))
  {
    hide Fits, Text, Ok, Meaning, RfcTree, ReadValue, Starts, Deviates;
    DeviatesExactly(t);
    if Ok(t) {
      assert SpellsAs(s, Meaning(t), before, t, after);
      Complete(s, Meaning(t));
    } else if Parse(s).Some? {
      FitsItself(s);
      FitsSplit(s, 0, before, Text(t) + after);
      FitsSplit(s, |before|, Text(t), after);
      RfcStarts(t);
      TextStarts(s, |before|, t);
      SkippedTo(s, 0, before, s[|before|]);
      ReadValuePastSpaces(s, 0);
      RfcValue(s, |before|, t);
    }
  }

  /** The code and RFC 8259 both take a text exactly when one tree that spells it
    meets the rules of both. */
  lemma BothAccept(s: string)
    ensures Parse(s).Some? && IsRfc(s) <==>
      exists before, t, after :: Spelled(s, before, t, after) && RfcTree(t) && Ok(t)
  {
    hide Parse, Ok, RfcTree, Spelled;
    if Parse(s).Some? && IsRfc(s) {
      var before, t, after :| Spelled(s, before, t, after) && RfcTree(t);
      RfcAccepted(s, before, t, after);
    }
    if before, t, after :| Spelled(s, before, t, after) && RfcTree(t) && Ok(t) {
      RfcAccepted(s, before, t, after);
    }
  }

  // One input for each difference

  /** The dialect reads an exponent with both signs, which RFC 8259 does not have. */
  lemma SignsOfExponent()
    ensures Parse("1e+-1") == Some(Number("1e+-1")) && !IsRfc("1e+-1")
  {
    var s := "1e+-1";
    SignedExponentIsRead();
    forall before, t, after | Spelled(s, before, t, after) && Ok(t) ensures !RfcTree(t) {
      assert SpellsAs(s, Meaning(t), before, t, after);
      Complete(s, Meaning(t));
      NumeralHasBothSigns(t.n);
    }
    BothAccept(s);
  }

  lemma SignedExponentIsRead()
    ensures Parse("1e+-1") == Some(Number("1e+-1"))
  {
    var n := Numeral(false, "1", None, Some(Exponent('e', true, true, "1")));
    assert n.exponent.value.Text() == "e+-1";
    assert n.Text() == "1e+-1";
    assert SpellsAs("1e+-1", Number("1e+-1"), "", NumberTree(n), "");
    Complete("1e+-1", Number("1e+-1"));
  }

  lemma NumeralHasBothSigns(n: Numeral)
    requires n.Ok() && n.Text() == "1e+-1"
    ensures n.exponent.Some? && n.exponent.value.plus && n.exponent.value.minus
  {
    hide Exponent.Text, Numeral.FractionText, Numeral.ExponentText;
    var text := n.Text();
    assert text[0] == '1' && text[1] == 'e' && text[2] == '+' && text[3] == '-';
    MinusShows(n);
    WholeShows(n, 1);
    var rest := n.FractionText() + n.ExponentText();
    assert rest == text[1..] && rest[0] == 'e' && rest[1] == '+' && rest[2] == '-';
    FractionShows(n);
    SignsShow(n.exponent.value);
  }

  lemma MinusShows(n: Numeral)
    requires n.Ok()
    ensures n.Text() != "" && (n.minus <==> n.Text()[0] == '-')
    ensures !n.minus ==> n.Text() == n.whole + (n.FractionText() + n.ExponentText())
  {
    assert n.minus ==> n.Text() == "-" + (n.whole + (n.FractionText() + n.ExponentText()));
    assert !n.minus ==> n.Text() == "" + (n.whole + (n.FractionText() + n.ExponentText()));
  }

  lemma WholeShows(n: Numeral, k: nat)
    requires n.Ok() && !n.minus && k < |n.Text()| && !IsDigit(n.Text()[k])
    ensures 0 < |n.whole| <= k
  {
    hide Numeral.Text, Numeral.FractionText, Numeral.ExponentText;
    MinusShows(n);
    assert Digits(n.whole);
    DigitsLead(n.whole, n.FractionText() + n.ExponentText());
  }

  lemma DigitsLead(whole: string, rest: string)
    requires Digits(whole)
    ensures forall i :: 0 <= i < |whole| ==> IsDigit((whole + rest)[i])
  {
  }

  lemma FractionShows(n: Numeral)
    ensures n.fraction.Some? ==> (n.FractionText() + n.ExponentText())[0] == '.'
    ensures n.fraction.None? ==> n.FractionText() + n.ExponentText() == n.ExponentText()
    ensures n.exponent.None? ==> n.ExponentText() == ""
    ensures n.exponent.Some? ==> n.ExponentText() == n.exponent.value.Text()
  {
    assert n.fraction.None? ==> "" + n.ExponentText() == n.ExponentText();
  }

  lemma SignsShow(x: Exponent)
    requires x.Ok()
    ensures |x.Text()| >= 2 && (x.plus <==> x.Text()[1] == '+')
    ensures x.plus ==> |x.Text()| >= 3 && (x.minus <==> x.Text()[2] == '-')
  {
    var signs := (if x.plus then "+" else "") + ((if x.minus then "-" else "") + x.digits);
    assert x.Text() == [x.e] + signs;
    assert IsDigit(x.digits[0]);
  }

  /** The dialect reads `\u` with a sign and three digits, which RFC 8259 does not have. */
  lemma SignOfUnit()
    ensures Parse("\"\\u+041\"") == Some(Str("A")) && !IsRfc("\"\\u+041\"")
  {
    hide Parse, Ok, Meaning, Text, RfcPieces, PiecesText;
    var s := "\"\\u+041\"";
    SignedUnitIsRead();
    assert s[0] == '"' && s[|s| - 1] == '"' && s[1] == '\\' && s[2] == 'u' && s[3] == '+';
    forall before, t, after | Spelled(s, before, t, after) && Ok(t) ensures !RfcTree(t) {
      assert SpellsAs(s, Meaning(t), before, t, after);
      Complete(s, Meaning(t));
      IsString(t, "A");
      OnlyText(s, before, t.ps, after);
      SignShows(t.ps);
    }
    BothAccept(s);
  }

  lemma IsString(t: Tree, text: string)
    requires Ok(t) && Meaning(t) == Str(text)
    ensures t.StringTree?
  {
  }

  lemma SignedUnitIsRead()
    ensures Parse("\"\\u+041\"") == Some(Str("A"))
  {
    var s := "\"\\u+041\"";
    var ps := [Unit("+041")];
    assert HexWordValue("+041") == 0x41;
    assert PiecesText([]) == ['"'] && ps[1..] == [];
    assert PiecesText(ps) == ['\\', 'u'] + "+041" + ['"'];
    assert PiecesChars(ps) == ['A'] + PiecesChars([]);
    hide HexWordValue;
    assert Text(StringTree(ps)) == s;
    assert SpellsAs(s, Str("A"), "", StringTree(ps), "");
    hide PiecesText, PiecesChars, PiecesOk;
    Complete(s, Str("A"));
  }

  /** A string that is the whole text, since neither end of the text is a space. */
  lemma OnlyText(s: string, before: string, ps: seq<Piece>, after: string)
    requires Spelled(s, before, StringTree(ps), after) && s != "" && !IsSpace(s[0]) && !IsSpace(s[|s| - 1])
    ensures PiecesText(ps) == s[1..]
  {
    EndsShow(s, before, Quoted(ps), after);
    assert s == Quoted(ps);
  }

  lemma EndsShow(s: string, before: string, text: string, after: string)
    requires Spaces(before) && Spaces(after) && s == before + (text + after)
    ensures before != "" ==> IsSpace(s[0])
    ensures after != "" ==> IsSpace(s[|s| - 1])
    ensures before == "" && after == "" ==> s == text
  {
    if before != "" { assert s[0] == before[0]; }
    if after != "" { assert s[|s| - 1] == after[|after| - 1]; }
  }

  lemma SignShows(ps: seq<Piece>)
    ensures var t := PiecesText(ps); RfcPieces(ps) && |t| > 2 && t[0] == '\\' && t[1] == 'u' ==> t[2] != '+'
  {
    hide HexWordValue;
    if ps != [] && RfcPieces(ps) {
      var first := ps[0].Text();
      assert PiecesText(ps)[..|first|] == first;
      match ps[0]
      case Raw(c) => assert first[0] == c;
      case Short(e) => assert first[1] == e;
      case Unit(d) => assert first[2] == d[0];
      case Pair(h, _) => assert first[2] == h[0];
    }
  }

  /** RFC 8259 has raw DEL and C1 control characters in strings, the dialect has not. */
  lemma RawControls(c: char)
    requires 0x7f <= c as int <= 0x9f
    ensures IsRfc(['"', c, '"']) && Parse(['"', c, '"']).None?
  {
    var ps := [Raw(c)];
    OnePieceText(ps);
    assert Spelled(['"', c, '"'], "", StringTree(ps), "");
    RfcAccepted(['"', c, '"'], "", StringTree(ps), "");
    assert !ps[0].Ok();
  }

  lemma OnePieceText(ps: seq<Piece>)
    requires |ps| == 1
    ensures PiecesText(ps) == ps[0].Text() + ['"'] && (RfcPieces(ps) <==> RfcPiece(ps[0]))
  {
    assert PiecesText([]) == ['"'] && ps[1..] == [];
  }

  /** RFC 8259 has halves of surrogate pairs in strings, the dialect has not. */
  lemma LoneSurrogates(d: string)
    requires FourDigits(d) && 0xd800 <= HexWordValue(d) <= 0xdfff
    ensures IsRfc(['"', '\\', 'u'] + d + ['"']) && Parse(['"', '\\', 'u'] + d + ['"']).None?
  {
    var ps := [Unit(d)];
    var s := ['"', '\\', 'u'] + d + ['"'];
    OnePieceText(ps);
    assert Text(StringTree(ps)) == s;
    assert Spelled(s, "", StringTree(ps), "");
    RfcAccepted(s, "", StringTree(ps), "");
    assert !ps[0].Ok();
  }

  function Repeating(): Tree {
    var m := Member("", [Raw('a')], "", "");
    ObjectTree(MoreMembers(m, NumberTree(Numeral(false, "1", None, None)), "",
      LastMember(m, NumberTree(Numeral(false, "2", None, None)), "")))
  }

  /** RFC 8259 lets an object repeat a key, the dialect does not. */
  lemma RepeatedKeys()
    ensures IsRfc("{\"a\":1,\"a\":2}") && Parse("{\"a\":1,\"a\":2}").None?
  {
    hide *;
    RepeatingText();
    RepeatsKey();
    Alone(Repeating());
    RfcAccepted(Text(Repeating()), "", Repeating(), "");
    RfcWitness(Text(Repeating()), "", Repeating(), "");
  }

  lemma RepeatingText()
    ensures Text(Repeating()) == "{\"a\":1,\"a\":2}"
  {
    var t := Repeating();
    TextOfRepeated(t.members.m, t.members.item, t.members.rest.item);
    TextOfObject(t.members, "{\"a\":1,\"a\":2}");
  }

  lemma Alone(t: Tree)
    ensures Spelled(Text(t), "", t, "")
  {
    hide Text;
  }

  lemma RfcWitness(s: string, before: string, t: Tree, after: string)
    requires Spelled(s, before, t, after) && RfcTree(t)
    ensures IsRfc(s)
  {
    hide Spelled, RfcTree;
  }

  lemma RepeatsKey()
    ensures RfcTree(Repeating()) && Deviates(Repeating())
  {
    hide RfcPieces, PiecesText;
    var ms := Repeating().members;
    OnePieceText(ms.m.key);
    assert RfcMembers(ms.rest) && Names(ms.rest) == {Name(ms.m.key)};
  }

  lemma TextOfRepeated(m: Member, one: Tree, two: Tree)
    requires m == Member("", [Raw('a')], "", "")
    requires one == NumberTree(Numeral(false, "1", None, None)) && two == NumberTree(Numeral(false, "2", None, None))
    ensures MembersText(MoreMembers(m, one, "", LastMember(m, two, ""))) == "\"a\":1,\"a\":2}"
  {
    TextOfDigit("1");
    TextOfDigit("2");
    assert Quoted(m.key) == "\"a\"" by { OnePieceText(m.key); }
    hide Text, Quoted;
    var last := LastMember(m, two, "");
    MembersTextParts(last, '}', "");
    MembersTextParts(MoreMembers(m, one, "", last), ',', MembersText(last));
    hide MembersText;
    assert MembersText(last) == "\"a\":2}";
  }

  lemma TextOfDigit(d: string)
    ensures Text(NumberTree(Numeral(false, d, None, None))) == d
  {
    assert d + ("" + "") == d && "" + d == d;
  }

  lemma TextOfObject(ms: Members, s: string)
    requires s == ['{'] + MembersText(ms)
    ensures Text(ObjectTree(ms)) == s
  {
  }

  // The characters that the grammar is made of, by their code points

  predicate Between(c: char, low: int, high: int) { low <= c as int <= high }

  /** White space, digits and hexadecimal digits are those of RFC 8259 (sections 2, 6 and 7). */
  lemma CharactersAreRfc(c: char)
    ensures IsSpace(c) <==> c as int in {0x20, 0x09, 0x0a, 0x0d}
    ensures IsDigit(c) <==> Between(c, 0x30, 0x39)
    ensures IsHexDigit(c) <==> Between(c, 0x30, 0x39) || Between(c, 0x41, 0x46) || Between(c, 0x61, 0x66)
  {
  }

  /** The value of four hexadecimal digits, printed in either case. */
  lemma DigitsHaveValues(n: nat)
    requires n < 16
    ensures HexDigit("0123456789abcdef"[n]) == HexDigit("0123456789ABCDEF"[n]) == n
  {
  }

  lemma WordHasValue(d: string)
    requires FourDigits(d)
    ensures HexWordValue(d) == ((HexDigit(d[0]) * 16 + HexDigit(d[1])) * 16 + HexDigit(d[2])) * 16 + HexDigit(d[3])
  {
  }

  /** A `\u` escape stands for the character that its four digits name. */
  lemma UnitIsRead(d: string)
    requires FourDigits(d) && !(0xd800 <= HexWordValue(d) <= 0xdfff)
    ensures Parse(['"', '\\', 'u'] + d + ['"']) == Some(Str([HexWordValue(d) as char]))
  {
    hide HexWordValue;
    OnePieceIsRead(Unit(d));
    assert ['\\', 'u'] + d + ['"'] == Unit(d).Text() + ['"'];
    assert ['"'] + (['\\', 'u'] + d + ['"']) == ['"', '\\', 'u'] + d + ['"'];
  }

  lemma OnePieceIsRead(p: Piece)
    requires p.Ok()
    ensures Parse(['"'] + (p.Text() + ['"'])) == Some(Str([p.Char()]))
  {
    hide Parse, Piece.Text, Piece.Char;
    var ps := [p];
    OnePieceText(ps);
    OnePieceChars(p);
    var s := ['"'] + (p.Text() + ['"']);
    assert SpellsAs(s, Str([p.Char()]), "", StringTree(ps), "");
    Complete(s, Str([p.Char()]));
  }

  lemma OnePieceChars(p: Piece)
    requires p.Ok()
    ensures PiecesOk([p]) && PiecesChars([p]) == [p.Char()]
  {
    hide Piece.Ok, Piece.Char;
    assert [p][1..] == [] && PiecesChars([]) == "";
  }

  /** The short escapes and the code points they stand for (section 7). */
  const ESCAPES := [
    ('"', 0x22), ('\\', 0x5c), ('/', 0x2f), ('b', 0x08), ('f', 0x0c), ('n', 0x0a), ('r', 0x0d), ('t', 0x09)]

  lemma EscapesAreRead(i: nat)
    requires i < |ESCAPES|
    ensures Parse(['"', '\\', ESCAPES[i].0, '"']) == Some(Str([ESCAPES[i].1 as char]))
  {
    var p := Short(ESCAPES[i].0);
    EscapeStandsFor(i);
    hide Parse;
    OnePieceIsRead(p);
    assert ['"'] + (p.Text() + ['"']) == ['"', '\\', ESCAPES[i].0, '"'];
  }

  lemma EscapeStandsFor(i: nat)
    requires i < |ESCAPES|
    ensures Short(ESCAPES[i].0).Ok() && Short(ESCAPES[i].0).Char() as int == ESCAPES[i].1
  {
    assert ESCAPES[i].0 in "\"\\/bfnrt" by { assert "\"\\/bfnrt"[i] == ESCAPES[i].0; }
  }

  /** A numeral of RFC 8259 (section 6): no leading zero, digits on both sides of the
    point, at most one sign and at least one digit in the exponent. */
  lemma NumeralsAreRfc(n: Numeral)
    ensures RfcNumeral(n) <==>
      && (n.whole == "0" || (AllBetween(n.whole, 0x30, 0x39) && n.whole[0] != '0'))
      && (n.fraction.Some? ==> AllBetween(n.fraction.value, 0x30, 0x39))
      && (n.exponent.Some? ==>
            && (n.exponent.value.e == 'e' || n.exponent.value.e == 'E')
            && AllBetween(n.exponent.value.digits, 0x30, 0x39) && !(n.exponent.value.plus && n.exponent.value.minus))
  {
    DigitsBetween(n.whole);
    if n.fraction.Some? { DigitsBetween(n.fraction.value); }
    if n.exponent.Some? { DigitsBetween(n.exponent.value.digits); }
    hide Digits;
  }

  /** At least one character, and all of them in the range. */
  predicate AllBetween(s: string, low: int, high: int) {
    s != "" && forall i :: 0 <= i < |s| ==> Between(s[i], low, high)
  }

  lemma DigitsBetween(s: string)
    ensures s != "" && Digits(s) <==> AllBetween(s, 0x30, 0x39)
  {
  }
}
