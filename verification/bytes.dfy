/** Go strings are byte sequences; the date specification is handled at
    that level, so it is modelled as a sequence of bytes. This module
    holds the ASCII digit helpers the date parser and formatter share. */
module Bytes {

  newtype Byte = b: int | 0 <= b < 256

  const Zero: Byte := 48
  const Dash: Byte := 45
  const Slash: Byte := 47

  predicate IsDigit(b: Byte) {
    48 <= b <= 57
  }

  predicate AllDigits(s: seq<Byte>) {
    forall i :: 0 <= i < |s| ==> IsDigit(s[i])
  }

  /** Definition: the bytes of an ASCII text literal. */
  function Ascii(s: string): (r: seq<Byte>)
    requires forall i :: 0 <= i < |s| ==> s[i] as int < 128
  {
    seq(|s|, i requires 0 <= i < |s| => s[i] as int as Byte)
  }

  /** The value of a decimal digit string, most significant digit first. */
  function DigitsValue(s: seq<Byte>): (v: nat)
    requires AllDigits(s)
    ensures v < Pow10(|s|)
  {
    if |s| == 0 then 0
    else DigitsValue(s[..|s| - 1]) * 10 + (s[|s| - 1] - Zero) as int
  }

  function Pow10(n: nat): (p: nat)
    ensures p >= 1
  {
    if n == 0 then 1 else 10 * Pow10(n - 1)
  }

  /** `v` written in exactly `width` decimal digits with leading zeros,
      as `fmt` prints it with the `%0Nd` verb. */
  function ZeroPad(v: nat, width: nat): (s: seq<Byte>)
    requires v < Pow10(width)
    ensures |s| == width && AllDigits(s)
  {
    if width == 0 then []
    else ZeroPad(v / 10, width - 1) + [(v % 10) as Byte + Zero]
  }

  /** Reading back a zero-padded number gives the number. */
  lemma {:induction false} ValueOfZeroPad(v: nat, width: nat)
    requires v < Pow10(width)
    ensures DigitsValue(ZeroPad(v, width)) == v
  {
    if width > 0 {
      var s := ZeroPad(v, width);
      assert s[..|s| - 1] == ZeroPad(v / 10, width - 1);
      ValueOfZeroPad(v / 10, width - 1);
    }
  }

  /** Padding the value of a digit string gives the string back. */
  lemma {:induction false} ZeroPadOfValue(s: seq<Byte>)
    requires AllDigits(s)
    ensures ZeroPad(DigitsValue(s), |s|) == s
  {
    if |s| > 0 {
      var init := s[..|s| - 1];
      assert AllDigits(init);
      ZeroPadOfValue(init);
      var v := DigitsValue(s);
      assert v / 10 == DigitsValue(init);
      assert v % 10 == (s[|s| - 1] - Zero) as int;
    }
  }

  lemma TwoDigitsValue(s: seq<Byte>)
    requires |s| == 2 && AllDigits(s)
    ensures DigitsValue(s) == 10 * (s[0] - Zero) as int + (s[1] - Zero) as int
  {
    assert s[..1][..0] == [];
  }

  lemma FourDigitsValue(s: seq<Byte>)
    requires |s| == 4 && AllDigits(s)
    ensures DigitsValue(s) == 100 * DigitsValue(s[..2]) + DigitsValue(s[2..])
  {
    assert s[..3][..2] == s[..2];
    TwoDigitsValue(s[2..]);
    assert s[..3] == s[..2] + [s[2]];
    assert s[..3][..|s[..3]| - 1] == s[..2];
  }
}
