/** The printer of JSON strings. */
module JsonQuote {
  import opened Options
  import opened JsonGrammar
  import opened JsonReading
  import Hexadecimal
  import Theorems = JsonTheorems

  function Escaped(c: char): string {
    match c
    case '"' => "\\\""
    case '\\' => "\\\\"
    case '\n' => "\\n"
    case '\r' => "\\r"
    case '\t' => "\\t"
    case _ => if IsControl(c) then "\\u" + Hexadecimal.Padded(c as nat, 4) else [c]
  }

  function EscapedAll(s: string): string {
    if s == "" then "" else Escaped(s[0]) + EscapedAll(s[1..])
  }

  function Quote(s: string): string { ['"'] + (EscapedAll(s) + ['"']) }

  method JsonQuote(value: string) returns (quoted: string)
    ensures quoted == Quote(value)
    ensures Parse(quoted) == Some(Str(value))
  {
    hide Escaped;
    quoted := ['"'];
    for i := 0 to |value|
      invariant quoted + (EscapedAll(value[i..]) + ['"']) == Quote(value)
    {
      assert value[i..][1..] == value[i + 1..];
      Reassociate(quoted, Escaped(value[i]), EscapedAll(value[i + 1..]), ['"']);
      quoted := quoted + Escaped(value[i]);
    }
    assert EscapedAll(value[|value|..]) + ['"'] == ['"'];
    quoted := quoted + ['"'];
    QuoteIsRead(value);
  }

  lemma Reassociate(a: string, b: string, c: string, d: string)
    ensures a + ((b + c) + d) == (a + b) + (c + d)
  {
  }

  /** The piece of the dialect that the printer chooses for a character. */
  function PieceFor(c: char): (p: Piece)
    ensures p.Ok() && p.Char() == c && p.Text() == Escaped(c)
  {
    match c
    case '"' => Short('"')
    case '\\' => Short('\\')
    case '\n' => Short('n')
    case '\r' => Short('r')
    case '\t' => Short('t')
    case _ =>
      if IsControl(c) then
        ControlDigits(c as nat);
        Unit(Hexadecimal.Padded(c as nat, 4))
      else Raw(c)
  }

  lemma DigitIsHex(k: nat)
    requires k < 16
    ensures IsHexDigit(Hexadecimal.Digit(k)) && HexDigit(Hexadecimal.Digit(k)) == k
  {
  }

  lemma DigitZero()
    ensures Hexadecimal.Digit(0) == '0'
  {
  }

  lemma ControlDigits(n: nat)
    requires n < 0x100
    ensures HexWord(Hexadecimal.Padded(n, 4)) && HexWordValue(Hexadecimal.Padded(n, 4)) == n
  {
    hide Hexadecimal.Digit;
    var h, l := Hexadecimal.Digit(n / 16), Hexadecimal.Digit(n % 16);
    DigitIsHex(n / 16);
    DigitIsHex(n % 16);
    DigitIsHex(0);
    DigitZero();
    var w := Hexadecimal.Padded(n, 4);
    if n < 16 {
      assert Hexadecimal.Minimal(n) == [l];
      assert w == Hexadecimal.Zeros(3) + [l];
    } else {
      assert Hexadecimal.Minimal(n) == [h] + [l];
      assert w == Hexadecimal.Zeros(2) + ([h] + [l]);
    }
    assert |w| == 4 && w[0] == '0' && w[1] == '0' && w[2] == h && w[3] == l;
  }

  function PiecesFor(s: string): (ps: seq<Piece>)
    ensures |ps| == |s| && PiecesOk(ps) && forall i :: 0 <= i < |s| ==> ps[i] == PieceFor(s[i])
  {
    seq(|s|, i requires 0 <= i < |s| => PieceFor(s[i]))
  }

  lemma {:induction false} CharsOfPieces(s: string)
    ensures PiecesChars(PiecesFor(s)) == s
    decreases |s|
  {
    if s != "" {
      CharsOfPieces(s[1..]);
      assert PiecesFor(s)[1..] == PiecesFor(s[1..]);
    }
  }

  lemma {:induction false} TextOfPieces(s: string)
    ensures EscapedAll(s) + ['"'] == PiecesText(PiecesFor(s))
    decreases |s|
  {
    hide Escaped, Piece.Text, Piece.Ok, Piece.Char;
    if s != "" {
      TextOfPieces(s[1..]);
      var ps := PiecesFor(s);
      assert ps[1..] == PiecesFor(s[1..]);
      Reassociate("", Escaped(s[0]), EscapedAll(s[1..]), ['"']);
      assert "" + Escaped(s[0]) == Escaped(s[0]);
      assert "" + (EscapedAll(s) + ['"']) == EscapedAll(s) + ['"'];
    }
  }

  /** Printing and parsing a string returns it, for every string. */
  lemma QuoteIsRead(s: string)
    ensures Parse(Quote(s)) == Some(Str(s))
  {
    var t := StringTree(PiecesFor(s));
    TextOfPieces(s);
    CharsOfPieces(s);
    assert Quote(s) == "" + (Text(t) + "");
    assert SpellsAs(Quote(s), Str(s), "", t, "");
    Theorems.ParseIsTheDialect(Quote(s), Str(s));
  }
}
