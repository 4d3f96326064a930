/** Version numbers: what the splitting check accepts is the grammar of Semantic
  Versioning 2.0.0 (items 2, 9 and 10). */
module Semver {
  import opened Options
  import JsonGrammar

  /** `split_once`. */
  function SplitOnce(s: string, c: char): (r: Option<(string, string)>)
    ensures r.Some? ==> s == r.value.0 + [c] + r.value.1 && c !in r.value.0
    ensures r.None? ==> c !in s
  {
    if s == "" then None
    else if s[0] == c then
      assert s == "" + [c] + s[1..];
      Some(("", s[1..]))
    else
      var rest := SplitOnce(s[1..], c);
      if rest.None? then None
      else
        assert s == [s[0]] + s[1..];
        Some(([s[0]] + rest.value.0, rest.value.1))
  }

  /** `split`. */
  function SplitAll(s: string, c: char): (parts: seq<string>)
    ensures parts != []
    decreases |s|
  {
    var first := SplitOnce(s, c);
    if first.None? then [s] else [first.value.0] + SplitAll(first.value.1, c)
  }

  predicate IsAlphanumeric(c: char) { JsonGrammar.IsDigit(c) || 'a' <= c <= 'z' || 'A' <= c <= 'Z' }

  predicate AllDigits(s: string) { forall i :: 0 <= i < |s| ==> JsonGrammar.IsDigit(s[i]) }

  predicate LeadingZero(s: string) { |s| > 1 && s[0] == '0' }

  predicate Number(s: string) { s != "" && !LeadingZero(s) && AllDigits(s) }

  predicate Identifier(s: string) { s != "" && forall i :: 0 <= i < |s| ==> IsAlphanumeric(s[i]) || s[i] == '-' }

  predicate PreIdentifier(s: string) { Identifier(s) && !(AllDigits(s) && LeadingZero(s)) }

  /** `valid_semver`: the build is cut off first, then the pre-release, then the core is split. */
  predicate ValidSemver(value: string) {
    var cut := SplitOnce(value, '+');
    var front := if cut.Some? then cut.value.0 else value;
    && (cut.Some? ==> cut.value.1 != "" && forall p :: p in SplitAll(cut.value.1, '.') ==> Identifier(p))
    && ValidFront(front)
  }

  predicate ValidFront(front: string) {
    var cut := SplitOnce(front, '-');
    var core := SplitAll(if cut.Some? then cut.value.0 else front, '.');
    && |core| == 3 && (forall p :: p in core ==> Number(p))
    && (cut.Some? ==> cut.value.1 != "" && forall p :: p in SplitAll(cut.value.1, '.') ==> PreIdentifier(p))
  }

  // The grammar

  function Dotted(parts: seq<string>): string
    requires parts != []
  {
    if |parts| == 1 then parts[0] else parts[0] + ['.'] + Dotted(parts[1..])
  }

  /** Three numbers, perhaps pre-release identifiers, perhaps build identifiers. */
  datatype Version = Version(core: seq<string>, pre: seq<string>, build: seq<string>) {
    ghost predicate Ok() {
      && |core| == 3 && (forall p :: p in core ==> Number(p))
      && (forall p :: p in pre ==> PreIdentifier(p)) && (forall p :: p in build ==> Identifier(p))
    }

    function Front(): string
      requires |core| == 3
    {
      if pre == [] then Dotted(core) else Dotted(core) + ['-'] + Dotted(pre)
    }

    function Text(): string
      requires |core| == 3
    {
      if build == [] then Front() else Front() + ['+'] + Dotted(build)
    }
  }

  lemma {:induction false} SplitAt(a: string, c: char, b: string)
    requires c !in a
    ensures SplitOnce(a + [c] + b, c) == Some((a, b))
    decreases |a|
  {
    var s := a + [c] + b;
    if a == "" {
      assert s[0] == c && s[1..] == b;
    } else {
      assert s[0] == a[0] && s[1..] == a[1..] + [c] + b;
      SplitAt(a[1..], c, b);
      assert a == [a[0]] + a[1..];
    }
  }

  lemma {:induction false} NoSplit(s: string, c: char)
    ensures c !in s ==> SplitOnce(s, c).None?
  {
    if s != "" && s[0] != c { NoSplit(s[1..], c); }
  }

  lemma {:induction false} SplitOfDotted(parts: seq<string>)
    requires parts != [] && forall p :: p in parts ==> '.' !in p
    ensures SplitAll(Dotted(parts), '.') == parts
    decreases |parts|
  {
    hide SplitOnce;
    assert parts[0] in parts;
    if |parts| == 1 {
      NoSplit(parts[0], '.');
    } else {
      SplitAt(parts[0], '.', Dotted(parts[1..]));
      SplitOfDotted(parts[1..]);
    }
  }

  lemma {:induction false} DottedOfSplit(s: string)
    ensures Dotted(SplitAll(s, '.')) == s
    ensures forall p :: p in SplitAll(s, '.') ==> '.' !in p
    decreases |s|
  {
    hide SplitOnce;
    var first := SplitOnce(s, '.');
    if first.Some? {
      var parts := SplitAll(first.value.1, '.');
      DottedOfSplit(first.value.1);
      assert SplitAll(s, '.')[1..] == parts;
    }
  }

  predicate WordChar(c: char) { IsAlphanumeric(c) || c == '-' || c == '.' }

  /** Dotted words hold no `+`, and dotted numbers no `-` either. */
  lemma {:induction false} DottedChars(parts: seq<string>)
    requires parts != [] && forall p :: p in parts ==> Identifier(p)
    ensures forall i :: 0 <= i < |Dotted(parts)| ==> WordChar(Dotted(parts)[i])
    ensures (forall p :: p in parts ==> AllDigits(p)) ==> '-' !in Dotted(parts)
    decreases |parts|
  {
    assert parts[0] in parts;
    if |parts| > 1 {
      DottedChars(parts[1..]);
    }
  }

  lemma IdentifiersHaveNoDots(parts: seq<string>)
    requires forall p :: p in parts ==> Identifier(p)
    ensures forall p :: p in parts ==> '.' !in p
  {
  }

  lemma FrontIsValid(v: Version)
    requires v.Ok()
    ensures ValidFront(v.Front()) && '+' !in v.Front()
  {
    hide SplitOnce, SplitAll, Dotted, Number, PreIdentifier, Identifier;
    forall p | p in v.core ensures Identifier(p) && AllDigits(p) { NumberFacts(p); }
    forall p | p in v.pre ensures Identifier(p) { PreFacts(p); }
    IdentifiersHaveNoDots(v.core);
    IdentifiersHaveNoDots(v.pre);
    DottedChars(v.core);
    SplitOfDotted(v.core);
    if v.pre == [] {
      NoSplit(v.Front(), '-');
    } else {
      SplitAt(Dotted(v.core), '-', Dotted(v.pre));
      DottedChars(v.pre);
      SplitOfDotted(v.pre);
      DottedIsNotEmpty(v.pre);
    }
  }

  lemma NumberFacts(s: string)
    requires Number(s)
    ensures Identifier(s) && AllDigits(s)
  {
  }

  lemma PreFacts(s: string)
    requires PreIdentifier(s)
    ensures Identifier(s)
  {
  }

  lemma DottedIsNotEmpty(parts: seq<string>)
    requires parts != [] && forall p :: p in parts ==> Identifier(p)
    ensures Dotted(parts) != ""
  {
    assert parts[0] in parts;
  }

  lemma TextIsValid(v: Version)
    requires v.Ok()
    ensures ValidSemver(v.Text())
  {
    hide SplitOnce, SplitAll, Dotted, Identifier, ValidFront;
    FrontIsValid(v);
    if v.build == [] {
      NoSplit(v.Front(), '+');
    } else {
      SplitAt(v.Front(), '+', Dotted(v.build));
      IdentifiersHaveNoDots(v.build);
      SplitOfDotted(v.build);
      DottedIsNotEmpty(v.build);
    }
  }

  lemma FrontIsText(front: string) returns (core: seq<string>, pre: seq<string>)
    requires ValidFront(front)
    ensures Version(core, pre, []).Ok() && front == Version(core, pre, []).Front()
  {
    hide SplitOnce, SplitAll, Dotted, Number, PreIdentifier;
    var cut := SplitOnce(front, '-');
    core, pre := SplitAll(if cut.Some? then cut.value.0 else front, '.'), [];
    DottedOfSplit(if cut.Some? then cut.value.0 else front);
    if cut.Some? {
      pre := SplitAll(cut.value.1, '.');
      DottedOfSplit(cut.value.1);
    }
  }

  /** The check accepts exactly the texts of the grammar. */
  lemma SemverIsTheGrammar(value: string)
    ensures ValidSemver(value) <==> exists v: Version :: v.Ok() && v.Text() == value
  {
    if ValidSemver(value) {
      hide SplitOnce, SplitAll, Dotted, ValidFront, Identifier;
      var cut := SplitOnce(value, '+');
      var core, pre := FrontIsText(if cut.Some? then cut.value.0 else value);
      var v := Version(core, pre, if cut.Some? then SplitAll(cut.value.1, '.') else []);
      if cut.Some? { DottedOfSplit(cut.value.1); }
      assert v.Front() == Version(core, pre, []).Front();
      assert v.Ok() && v.Text() == value;
    }
    if v: Version :| v.Ok() && v.Text() == value {
      TextIsValid(v);
    }
  }

  predicate Between(c: char, low: int, high: int) { low <= c as int <= high }

  /** The identifiers of Semantic Versioning 2.0.0, by the code points of their characters:
    a numeric one has no leading zero; a pre-release one is numeric or has a
    character that is no digit. */
  lemma IdentifiersAreSemver(s: string)
    ensures Number(s) <==>
      s != "" && (s == "0" || s[0] != '0') && forall i :: 0 <= i < |s| ==> Between(s[i], 0x30, 0x39)
    ensures Identifier(s) <==>
      && s != ""
      && forall i :: 0 <= i < |s| ==>
           Between(s[i], 0x30, 0x39) || Between(s[i], 0x41, 0x5a) || Between(s[i], 0x61, 0x7a) || s[i] as int == 0x2d
    ensures PreIdentifier(s) <==>
      Number(s) || (Identifier(s) && exists i :: 0 <= i < |s| && !Between(s[i], 0x30, 0x39))
  {
    assert forall c :: JsonGrammar.IsDigit(c) <==> Between(c, 0x30, 0x39);
    assert LeadingZero(s) ==> s != "0";
  }
}
