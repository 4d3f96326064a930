/** UTF-8 as RFC 3629 defines it: text to octets, and back for well-formed octets only. */
module Utf8 {
  import opened Options
  import opened Bytes

  function EncodeChar(c: char): (b: seq<byte>)
    ensures 1 <= |b| <= 4
  {
    var n := c as int;
    if n < 0x80 then [n]
    else if n < 0x800 then [0xC0 + n / 64, 0x80 + n % 64]
    else if n < 0x10000 then [0xE0 + n / 64 / 64, 0x80 + n / 64 % 64, 0x80 + n % 64]
    else [0xF0 + n / 64 / 64 / 64, 0x80 + n / 64 / 64 % 64, 0x80 + n / 64 % 64, 0x80 + n % 64]
  }

  function Encode(s: string): seq<byte> {
    if s == "" then [] else EncodeChar(s[0]) + Encode(s[1..])
  }

  predicate Continues(b: seq<byte>, i: nat) { i < |b| && 0x80 <= b[i] < 0xC0 }

  /** The six bits of a continuation octet. */
  function Bits(b: seq<byte>, i: nat): (n: nat)
    requires Continues(b, i)
    ensures n < 64 && b[i] == 0x80 + n
  {
    b[i] as int - 0x80
  }

  predicate IsScalar(n: int) { 0 <= n < 0xD800 || 0xE000 <= n < 0x110000 }

  /** The first character and how many octets it takes; no overlong forms, no
    surrogates, nothing beyond the last code point. */
  function DecodeChar(b: seq<byte>): (r: Option<(char, nat)>)
    ensures r.Some? ==> 1 <= r.value.1 <= |b|
  {
    if b == [] then None
    else
      var lead := b[0] as int;
      if lead < 0x80 then Some((lead as char, 1))
      else if 0xC2 <= lead < 0xE0 && Continues(b, 1) then Some((((lead - 0xC0) * 64 + Bits(b, 1)) as char, 2))
      else if 0xE0 <= lead < 0xF0 && Continues(b, 1) && Continues(b, 2) then
        var n := ((lead - 0xE0) * 64 + Bits(b, 1)) * 64 + Bits(b, 2);
        if n >= 0x800 && IsScalar(n) then Some((n as char, 3)) else None
      else if 0xF0 <= lead < 0xF5 && Continues(b, 1) && Continues(b, 2) && Continues(b, 3) then
        var n := (((lead - 0xF0) * 64 + Bits(b, 1)) * 64 + Bits(b, 2)) * 64 + Bits(b, 3);
        if n >= 0x10000 && IsScalar(n) then Some((n as char, 4)) else None
      else None
  }

  function Decode(b: seq<byte>): Option<string> {
    if b == [] then Some("")
    else
      var first := DecodeChar(b);
      if first.None? then None
      else
        var rest := Decode(b[first.value.1..]);
        if rest.None? then None else Some([first.value.0] + rest.value)
  }

  /** An octet without the bits that mark it. */
  function Unmarked(b: byte, mark: int): int { b as int - mark }

  /** The octets of a character are those of RFC 3629, section 3: how many there are, the
    bits that mark them, and the code point that the other bits spell. */
  lemma OctetsAreRfc(c: char)
    ensures var b, n := EncodeChar(c), c as int;
      && |b| == (if n <= 0x7F then 1 else if n <= 0x7FF then 2 else if n <= 0xFFFF then 3 else 4)
      && (forall i :: 1 <= i < |b| ==> 0x80 <= b[i] <= 0xBF)
      && (|b| == 1 ==> n == b[0])
      && (|b| == 2 ==> 0xC0 <= b[0] <= 0xDF && n == Unmarked(b[0], 0xC0) * 0x40 + Unmarked(b[1], 0x80))
      && (|b| == 3 ==>
            && 0xE0 <= b[0] <= 0xEF
            && n == Unmarked(b[0], 0xE0) * 0x1000 + Unmarked(b[1], 0x80) * 0x40 + Unmarked(b[2], 0x80))
      && (|b| == 4 ==>
            && 0xF0 <= b[0] <= 0xF4
            && n == Unmarked(b[0], 0xF0) * 0x4_0000 + Unmarked(b[1], 0x80) * 0x1000 + Unmarked(b[2], 0x80) * 0x40
                    + Unmarked(b[3], 0x80))
  {
    var n := c as int;
    SixBits(n);
    SixBits(n / 64);
    SixBits(n / 64 / 64);
  }

  lemma SixBits(n: nat)
    ensures n == n / 64 * 64 + n % 64 && 0 <= n % 64 < 64
  {
  }

  lemma LeadIsRead(c: char, b: seq<byte>)
    requires EncodeChar(c) <= b
    ensures DecodeChar(b) == Some((c, |EncodeChar(c)|))
  {
    var n := c as int;
    var e := EncodeChar(c);
    assert IsScalar(n) && n as char == c;
    assert forall i :: 0 <= i < |e| ==> b[i] == e[i];
    if 0x80 <= n {
      assert Continues(b, 1);
      if 0x800 <= n {
        assert Continues(b, 2);
        if 0x10000 <= n { assert Continues(b, 3); }
      }
    }
  }

  lemma CharIsRead(c: char, rest: seq<byte>)
    ensures DecodeChar(EncodeChar(c) + rest) == Some((c, |EncodeChar(c)|))
  {
    LeadIsRead(c, EncodeChar(c) + rest);
  }

  lemma Digits(q: nat, d: nat)
    requires d < 64
    ensures (q * 64 + d) / 64 == q && (q * 64 + d) % 64 == d
  {
  }

  lemma ShortIsWritten(b: seq<byte>)
    requires DecodeChar(b).Some? && DecodeChar(b).value.1 <= 2
    ensures var (c, n) := DecodeChar(b).value; b[..n] == EncodeChar(c)
  {
    if DecodeChar(b).value.1 == 2 { Digits(b[0] as int - 0xC0, Bits(b, 1)); }
  }

  lemma TripleIsWritten(b: seq<byte>)
    requires DecodeChar(b).Some? && DecodeChar(b).value.1 == 3
    ensures b[..3] == EncodeChar(DecodeChar(b).value.0)
  {
    var q := (b[0] as int - 0xE0) * 64 + Bits(b, 1);
    Digits(b[0] as int - 0xE0, Bits(b, 1));
    Digits(q, Bits(b, 2));
    assert DecodeChar(b).value.0 as int == q * 64 + Bits(b, 2);
  }

  lemma QuadrupleIsWritten(b: seq<byte>)
    requires DecodeChar(b).Some? && DecodeChar(b).value.1 == 4
    ensures b[..4] == EncodeChar(DecodeChar(b).value.0)
  {
    var q := (b[0] as int - 0xF0) * 64 + Bits(b, 1);
    Digits(b[0] as int - 0xF0, Bits(b, 1));
    Digits(q, Bits(b, 2));
    Digits(q * 64 + Bits(b, 2), Bits(b, 3));
    assert DecodeChar(b).value.0 as int == (q * 64 + Bits(b, 2)) * 64 + Bits(b, 3);
  }

  lemma CharIsWritten(b: seq<byte>)
    requires DecodeChar(b).Some?
    ensures var (c, n) := DecodeChar(b).value; b[..n] == EncodeChar(c)
  {
    hide DecodeChar, EncodeChar;
    var n := DecodeChar(b).value.1;
    AtMostFour(b);
    if n <= 2 { ShortIsWritten(b); } else if n == 3 { TripleIsWritten(b); } else { QuadrupleIsWritten(b); }
  }

  lemma AtMostFour(b: seq<byte>)
    requires DecodeChar(b).Some?
    ensures DecodeChar(b).value.1 <= 4
  {
  }

  /** Decoding inverts encoding. */
  lemma {:induction false} EncodedIsDecoded(s: string)
    ensures Decode(Encode(s)) == Some(s)
  {
    hide DecodeChar, EncodeChar;
    if s != "" {
      var head := EncodeChar(s[0]);
      CharIsRead(s[0], Encode(s[1..]));
      assert Encode(s)[|head|..] == Encode(s[1..]);
      EncodedIsDecoded(s[1..]);
      assert [s[0]] + s[1..] == s;
    }
  }

  /** Only what encoding produces is decoded. */
  lemma {:induction false} DecodedIsEncoded(b: seq<byte>)
    requires Decode(b).Some?
    ensures Encode(Decode(b).value) == b
    decreases |b|
  {
    hide DecodeChar, EncodeChar;
    if b != [] {
      var (c, n) := DecodeChar(b).value;
      CharIsWritten(b);
      DecodedIsEncoded(b[n..]);
      var s := Decode(b).value;
      assert s[0] == c && s[1..] == Decode(b[n..]).value;
      assert b == b[..n] + b[n..];
    }
  }

  lemma Injective(s: string, t: string)
    requires Encode(s) == Encode(t)
    ensures s == t
  {
    EncodedIsDecoded(s);
    EncodedIsDecoded(t);
  }

  lemma {:induction false} EncodeJoin(s: string, t: string)
    ensures Encode(s + t) == Encode(s) + Encode(t)
  {
    if s == "" {
      assert s + t == t;
    } else {
      assert (s + t)[1..] == s[1..] + t;
      EncodeJoin(s[1..], t);
    }
  }
}
