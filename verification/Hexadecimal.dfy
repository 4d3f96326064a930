/** Lower-case hexadecimal numerals, as `{:x}` and `{:0wx}` print them. */
module Hexadecimal {
  function Digit(n: nat): (c: char)
    requires n < 16
  {
    "0123456789abcdef"[n]
  }

  predicate IsLowerHex(c: char) { '0' <= c <= '9' || 'a' <= c <= 'f' }

  function DigitValue(c: char): nat
    requires IsLowerHex(c)
  {
    if c <= '9' then c as nat - '0' as nat else c as nat - 'a' as nat + 10
  }

  function Minimal(n: nat): (s: string)
    ensures s != ""
    ensures forall i :: 0 <= i < |s| ==> IsLowerHex(s[i])
  {
    if n < 16 then [Digit(n)] else Minimal(n / 16) + [Digit(n % 16)]
  }

  function Zeros(k: nat): (s: string)
    ensures |s| == k && forall i :: 0 <= i < k ==> s[i] == '0'
  {
    seq(k, _ => '0')
  }

  /** Padded with zeros on the left to `width`; longer numerals stay as they are. */
  function Padded(n: nat, width: nat): (s: string)
    ensures forall i :: 0 <= i < |s| ==> IsLowerHex(s[i])
  {
    var s := Minimal(n);
    if |s| < width then Zeros(width - |s|) + s else s
  }

  function FromHex(s: string): nat
    requires forall i :: 0 <= i < |s| ==> IsLowerHex(s[i])
  {
    if s == "" then 0 else FromHex(s[..|s| - 1]) * 16 + DigitValue(s[|s| - 1])
  }

  lemma {:induction false} MinimalValue(n: nat)
    ensures FromHex(Minimal(n)) == n
  {
    if n >= 16 {
      MinimalValue(n / 16);
      assert Minimal(n)[..|Minimal(n)| - 1] == Minimal(n / 16);
    } else {
      assert FromHex("") == 0 && Minimal(n)[..0] == "";
    }
  }

  lemma {:induction false} ZerosValue(k: nat, s: string)
    requires forall i :: 0 <= i < |s| ==> IsLowerHex(s[i])
    ensures FromHex(Zeros(k) + s) == FromHex(s)
    decreases k + |s|
  {
    var t := Zeros(k) + s;
    if s == "" {
      if k > 0 {
        assert t[..k - 1] == Zeros(k - 1) + "";
        ZerosValue(k - 1, "");
      } else {
        assert t == s;
      }
    } else {
      assert t[..|t| - 1] == Zeros(k) + s[..|s| - 1];
      ZerosValue(k, s[..|s| - 1]);
    }
  }

  /** Printing loses nothing: the printed numeral has the printed value. */
  lemma PaddedValue(n: nat, width: nat)
    ensures FromHex(Padded(n, width)) == n
  {
    MinimalValue(n);
    if |Minimal(n)| < width { ZerosValue(width - |Minimal(n)|, Minimal(n)); }
  }

  function Power16(k: nat): (p: nat)
    ensures p > 0
  {
    if k == 0 then 1 else 16 * Power16(k - 1)
  }

  lemma {:induction false} MinimalLength(n: nat, width: nat)
    requires width > 0
    ensures |Minimal(n)| <= width <==> n < Power16(width)
    decreases width
  {
    if width == 1 {
      assert Power16(0) == 1;
    } else if n >= 16 {
      MinimalLength(n / 16, width - 1);
    } else {
      assert Power16(width) >= 16;
    }
  }

  /** The numeral has exactly the width asked for if and only if it fits. */
  lemma PaddedLength(n: nat, width: nat)
    requires width > 0
    ensures |Padded(n, width)| == width <==> n < Power16(width)
  {
    MinimalLength(n, width);
  }
}
