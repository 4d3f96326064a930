/** Values printed without white space, the way the program's own messages are
  laid out, and read back. */
module JsonPrinter {
  import opened Options
  import opened JsonGrammar
  import opened JsonReading
  import opened JsonQuote
  import Theorems = JsonTheorems

  /** Texts with commas between them. */
  function Commas(parts: seq<string>): string {
    if parts == [] then "" else if |parts| == 1 then parts[0] else parts[0] + ([','] + Commas(parts[1..]))
  }

  function Braces(parts: seq<string>): string { ['{'] + (Commas(parts) + ['}']) }

  function Brackets(parts: seq<string>): string { ['['] + (Commas(parts) + [']']) }

  /** A key, a colon and the text of a value. */
  function Entry(key: string, text: string): string { Quote(key) + ([':'] + text) }

  function Print(v: Value): string
    decreases v
  {
    match v
    case Null => "null"
    case Bool(b) => if b then "true" else "false"
    case Number(text) => text
    case Str(s) => Quote(s)
    case Object(fields) => Braces(Entries(v, 0))
    case Array(values) => Brackets(Elements(v, 0))
  }

  function Entries(v: Value, i: nat): (parts: seq<string>)
    requires v.Object? && i <= |v.fields|
    ensures |parts| == |v.fields| - i
    decreases v, |v.fields| - i
  {
    if i == |v.fields| then [] else [Entry(v.fields[i].0, Print(v.fields[i].1))] + Entries(v, i + 1)
  }

  function Elements(v: Value, i: nat): (parts: seq<string>)
    requires v.Array? && i <= |v.values|
    ensures |parts| == |v.values| - i
    decreases v, |v.values| - i
  {
    if i == |v.values| then [] else [Print(v.values[i])] + Elements(v, i + 1)
  }

  /** Number texts are JSON numbers, and no object repeats a key. */
  ghost predicate Printable(v: Value)
    decreases v
  {
    match v
    case Number(text) => exists n: Numeral :: n.Ok() && n.Text() == text
    case Object(fields) =>
      && (forall i :: 0 <= i < |fields| ==> Printable(fields[i].1))
      && (forall i, j :: 0 <= i < j < |fields| ==> fields[i].0 != fields[j].0)
    case Array(values) => forall i :: 0 <= i < |values| ==> Printable(values[i])
    case _ => true
  }

  lemma QuotedPieces(s: string)
    ensures PiecesOk(PiecesFor(s)) && Quoted(PiecesFor(s)) == Quote(s) && PiecesChars(PiecesFor(s)) == s
  {
    TextOfPieces(s);
    CharsOfPieces(s);
  }

  /** The tree of a printed value. */
  lemma {:induction false} TreeOf(v: Value) returns (t: Tree)
    requires Printable(v)
    ensures Ok(t) && Text(t) == Print(v) && Meaning(t) == v
    decreases v
  {
    hide PiecesOk, PiecesText, PiecesChars, Quote, PiecesFor;
    match v
    case Null => t := NullTree;
    case Bool(b) => t := BoolTree(b);
    case Number(text) =>
      var n: Numeral :| n.Ok() && n.Text() == text;
      t := NumberTree(n);
    case Str(s) =>
      QuotedPieces(s);
      t := StringTree(PiecesFor(s));
    case Object(fields) => t := ObjectTreeOf(v);
    case Array(values) => t := ArrayTreeOf(v);
  }

  lemma {:induction false} ObjectTreeOf(v: Value) returns (t: Tree)
    requires v.Object? && Printable(v)
    ensures Ok(t) && Text(t) == Print(v) && Meaning(t) == v
    decreases v, |v.fields| + 1
  {
    hide MembersText, MembersMeaning, MembersOk, Entries;
    if v.fields == [] {
      t := EmptyObject("");
      assert Entries(v, 0) == [];
      assert "" + ['}'] == ['}'];
    } else {
      var ms := MembersOf(v, 0);
      t := ObjectTree(ms);
    }
  }

  lemma {:induction false} MembersOf(v: Value, i: nat) returns (ms: Members)
    requires v.Object? && Printable(v) && i < |v.fields|
    ensures MembersOk(ms) && MembersText(ms) == Commas(Entries(v, i)) + ['}'] && MembersMeaning(ms) == v.fields[i..]
    ensures forall key :: key in Keys(ms) ==> exists j :: i <= j < |v.fields| && v.fields[j].0 == key
    decreases v, |v.fields| - i
  {
    hide PiecesOk, PiecesText, PiecesChars, Quote, PiecesFor, Quoted, Ok, Text, Meaning, Printable, Print;
    var (key, value) := v.fields[i];
    FieldPrintable(v, i);
    var item := TreeOf(value);
    QuotedPieces(key);
    var m := Member("", PiecesFor(key), "", "");
    if i + 1 == |v.fields| {
      ms := LastMember(m, item, "");
      assert Entries(v, i) == [Entry(key, Print(value))];
      assert v.fields[i..] == [v.fields[i]];
      Tight(Quote(key), Print(value), ['}']);
    } else {
      var rest := MembersOf(v, i + 1);
      ms := MoreMembers(m, item, "", rest);
      assert Entries(v, i)[1..] == Entries(v, i + 1);
      assert v.fields[i..] == [v.fields[i]] + v.fields[i + 1..];
      var more := Commas(Entries(v, i + 1));
      Tight(Quote(key), Print(value), [','] + (more + ['}']));
      assert Quote(key) + ([':'] + (Print(value) + ([','] + (more + ['}'])))) ==
        (Entry(key, Print(value)) + ([','] + more)) + ['}'];
    }
  }

  lemma FieldPrintable(v: Value, i: nat)
    requires v.Object? && Printable(v) && i < |v.fields|
    ensures Printable(v.fields[i].1) && forall j :: i < j < |v.fields| ==> v.fields[j].0 != v.fields[i].0
  {
  }

  /** Empty spaces change nothing. */
  lemma Tight(key: string, text: string, rest: string)
    ensures "" + (key + ("" + ([':'] + ("" + (text + ("" + rest)))))) == key + ([':'] + (text + rest))
    ensures key + ([':'] + (text + rest)) == (key + ([':'] + text)) + rest
  {
    assert "" + rest == rest;
    assert "" + (text + rest) == text + rest;
    assert "" + ([':'] + (text + rest)) == [':'] + (text + rest);
  }

  lemma {:induction false} ArrayTreeOf(v: Value) returns (t: Tree)
    requires v.Array? && Printable(v)
    ensures Ok(t) && Text(t) == Print(v) && Meaning(t) == v
    decreases v, |v.values| + 1
  {
    hide ItemsText, ItemsMeaning, ItemsOk, Elements;
    if v.values == [] {
      t := EmptyArray("");
      assert Elements(v, 0) == [];
      assert "" + [']'] == [']'];
    } else {
      var items := ItemsOf(v, 0);
      t := ArrayTree(items);
    }
  }

  lemma {:induction false} ItemsOf(v: Value, i: nat) returns (items: Items)
    requires v.Array? && Printable(v) && i < |v.values|
    ensures ItemsOk(items) && ItemsText(items) == Commas(Elements(v, i)) + [']'] && ItemsMeaning(items) == v.values[i..]
    decreases v, |v.values| - i
  {
    hide Ok, Text, Meaning, Printable, Print;
    ElementPrintable(v, i);
    var text := Print(v.values[i]);
    var item := TreeOf(v.values[i]);
    if i + 1 == |v.values| {
      items := LastItem("", item, "");
      assert Elements(v, i) == [text];
      TightItem(text, [']']);
    } else {
      var rest := ItemsOf(v, i + 1);
      items := MoreItems("", item, "", rest);
      assert Elements(v, i)[1..] == Elements(v, i + 1);
      assert v.values[i..] == [v.values[i]] + v.values[i + 1..];
      var more := Commas(Elements(v, i + 1));
      TightItem(text, [','] + (more + [']']));
      assert text + ([','] + (more + [']'])) == (text + ([','] + more)) + [']'];
    }
  }

  lemma TightItem(text: string, rest: string)
    ensures "" + (text + ("" + rest)) == text + rest
  {
    assert "" + rest == rest;
    assert "" + (text + rest) == text + rest;
  }

  lemma ElementPrintable(v: Value, i: nat)
    requires v.Array? && Printable(v) && i < |v.values|
    ensures Printable(v.values[i])
  {
  }

  /** Printing and parsing returns the value, for every value that can be
    printed and whatever white space surrounds it. */
  lemma PrintedIsRead(v: Value, before: string, after: string)
    requires Printable(v) && Spaces(before) && Spaces(after)
    ensures Parse(before + (Print(v) + after)) == Some(v)
  {
    hide Ok, Text, Meaning, Printable, Print, Spaces;
    var t := TreeOf(v);
    assert SpellsAs(before + (Print(v) + after), v, before, t, after);
    Theorems.ParseIsTheDialect(before + (Print(v) + after), v);
  }

  /** Everything that parses can be printed: printing is a normal form of the dialect. */
  lemma {:induction false} ReadIsPrintable(s: string, v: Value)
    requires Parse(s) == Some(v)
    ensures Printable(v) && Parse(Print(v)) == Some(v)
  {
    Theorems.ParseIsTheDialect(s, v);
    var before, t, after :| SpellsAs(s, v, before, t, after);
    MeaningIsPrintable(t);
    PrintedIsRead(v, "", "");
    assert "" + (Print(v) + "") == Print(v);
  }

  lemma {:induction false} MeaningIsPrintable(t: Tree)
    requires Ok(t)
    ensures Printable(Meaning(t))
    decreases t, 1
  {
    hide PiecesOk, PiecesChars;
    match t
    case NumberTree(n) => NumberIsPrintable(n);
    case ArrayTree(items) => ItemsArePrintable(items);
    case ObjectTree(ms) =>
      MembersArePrintable(ms);
      ObjectIsPrintable(MembersMeaning(ms));
    case _ =>
  }

  lemma ObjectIsPrintable(fs: seq<(string, Value)>)
    requires Distinct(fs) && AllPrintable(fs)
    ensures Printable(Object(fs))
  {
  }

  lemma NumberIsPrintable(n: Numeral)
    requires n.Ok()
    ensures Printable(Number(n.Text()))
  {
  }

  lemma {:induction false} ItemsArePrintable(items: Items)
    requires ItemsOk(items)
    ensures forall i :: 0 <= i < |ItemsMeaning(items)| ==> Printable(ItemsMeaning(items)[i])
    decreases items, 1
  {
    hide Printable;
    MeaningIsPrintable(items.item);
    if items.MoreItems? { ItemsArePrintable(items.rest); }
  }

  ghost predicate AllPrintable(fs: seq<(string, Value)>) { forall i :: 0 <= i < |fs| ==> Printable(fs[i].1) }

  ghost predicate Distinct(fs: seq<(string, Value)>) { forall i, j :: 0 <= i < j < |fs| ==> fs[i].0 != fs[j].0 }

  ghost predicate KeysIn(fs: seq<(string, Value)>, keys: set<string>) {
    forall i :: 0 <= i < |fs| ==> fs[i].0 in keys
  }

  lemma OneMorePrintable(key: string, v: Value, fs: seq<(string, Value)>, keys: set<string>)
    requires Printable(v) && AllPrintable(fs) && Distinct(fs) && KeysIn(fs, keys) && key !in keys
    ensures AllPrintable([(key, v)] + fs) && Distinct([(key, v)] + fs) && KeysIn([(key, v)] + fs, {key} + keys)
  {
    hide Printable;
  }

  lemma {:induction false} MembersArePrintable(ms: Members)
    requires MembersOk(ms)
    ensures AllPrintable(MembersMeaning(ms)) && Distinct(MembersMeaning(ms)) && KeysIn(MembersMeaning(ms), Keys(ms))
    decreases ms, 1
  {
    hide Printable, PiecesChars, PiecesOk, AllPrintable, KeysIn, Distinct;
    MeaningIsPrintable(ms.item);
    if ms.MoreMembers? {
      MembersArePrintable(ms.rest);
      OneMorePrintable(PiecesChars(ms.m.key), Meaning(ms.item), MembersMeaning(ms.rest), Keys(ms.rest));
    } else {
      NonePrintable();
      OneMorePrintable(PiecesChars(ms.m.key), Meaning(ms.item), [], {});
    }
  }

  lemma NonePrintable()
    ensures AllPrintable([]) && Distinct([]) && KeysIn([], {})
  {
  }
}
