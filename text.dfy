/**
 * Decimal rendering of non-negative integers (Python's `str` on an `int`),
 * left padding with zeros (Python's `str.zfill`) and the reading of a digit
 * string back to its value, which is what makes zero-padded names distinct.
 */
module Text {

  predicate IsDigit(ch: char) {
    '0' <= ch <= '9'
  }

  predicate AllDigits(s: string) {
    forall i :: 0 <= i < |s| ==> IsDigit(s[i])
  }

  function DigitChar(d: nat): (ch: char)
    requires d < 10
    ensures IsDigit(ch)
  {
    (48 + d) as char
  }

  function DigitValue(ch: char): nat
    requires IsDigit(ch)
  {
    ch as int - 48
  }

  /** `str(n)` for a non-negative integer: its decimal digits, no sign, no leading zero. */
  function NatToString(n: nat): (s: string)
    ensures |s| > 0 && AllDigits(s)
    ensures s[0] == '0' ==> n == 0 && |s| == 1
    decreases n
  {
    if n < 10 then [DigitChar(n)] else NatToString(n / 10) + [DigitChar(n % 10)]
  }

  /** `str(n)` for any integer: a '-' in front of the digits of a negative one. */
  function IntToString(n: int): (s: string)
    ensures n >= 0 ==> s == NatToString(n)
  {
    if n < 0 then "-" + NatToString(-n) else NatToString(n)
  }

  /** The value a string of decimal digits denotes; leading zeros do not count. */
  function DecimalValue(s: string): nat
    requires AllDigits(s)
  {
    if s == [] then 0 else DecimalValue(s[..|s| - 1]) * 10 + DigitValue(s[|s| - 1])
  }

  function Zeros(k: nat): (z: string)
    ensures |z| == k && forall i :: 0 <= i < k ==> z[i] == '0'
  {
    if k == 0 then [] else Zeros(k - 1) + ['0']
  }

  /**
   * `s.zfill(width)`: pads `s` with '0' on the left up to `width` characters;
   * a leading '+' or '-' stays in front of the padding.
   */
  function ZFill(s: string, width: int): string {
    if |s| >= width then s
    else if s != [] && (s[0] == '+' || s[0] == '-') then [s[0]] + Zeros(width - |s|) + s[1..]
    else Zeros(width - |s|) + s
  }

  /**
   * `zfill` never shortens, reaches `width` exactly when it pads, and pads an
   * unsigned string by putting zeros in front of it.
   */
  lemma ZFillShape(s: string, width: int)
    ensures |ZFill(s, width)| == if |s| >= width then |s| else width
    ensures |s| >= width ==> ZFill(s, width) == s
    ensures |s| < width && (s == [] || (s[0] != '+' && s[0] != '-')) ==> ZFill(s, width) == Zeros(width - |s|) + s
    ensures |s| < width && s != [] && (s[0] == '+' || s[0] == '-') ==>
      ZFill(s, width) == [s[0]] + Zeros(width - |s|) + s[1..]
  {
  }

  /** Reading back a rendered number gives the number. */
  lemma {:induction false} DecimalRoundTrip(n: nat)
    ensures DecimalValue(NatToString(n)) == n
    decreases n
  {
    if n >= 10 {
      var s := NatToString(n);
      DecimalRoundTrip(n / 10);
      assert s[..|s| - 1] == NatToString(n / 10);
    }
  }

  lemma {:induction false} LeadingZerosIgnored(k: nat, s: string)
    requires AllDigits(s)
    ensures AllDigits(Zeros(k) + s) && DecimalValue(Zeros(k) + s) == DecimalValue(s)
    decreases |s|
  {
    var t := Zeros(k) + s;
    if s == [] {
      assert t == Zeros(k);
      ZerosValue(k);
    } else {
      var p := s[..|s| - 1];
      LeadingZerosIgnored(k, p);
      assert t[..|t| - 1] == Zeros(k) + p;
    }
  }

  lemma {:induction false} ZerosValue(k: nat)
    ensures AllDigits(Zeros(k)) && DecimalValue(Zeros(k)) == 0
  {
    if k > 0 {
      ZerosValue(k - 1);
      assert Zeros(k)[..k - 1] == Zeros(k - 1);
    }
  }

  /** A zero-padded rendering still reads back to the number it renders. */
  lemma ZFillRoundTrip(n: nat, width: int)
    ensures AllDigits(ZFill(NatToString(n), width))
    ensures DecimalValue(ZFill(NatToString(n), width)) == n
  {
    var s := NatToString(n);
    DecimalRoundTrip(n);
    ZFillShape(s, width);
    if |s| < width {
      LeadingZerosIgnored(width - |s|, s);
    }
  }

  /** Distinct numbers get distinct zero-padded names, whatever the width. */
  lemma ZFillInjective(i: nat, j: nat, width: int)
    requires ZFill(NatToString(i), width) == ZFill(NatToString(j), width)
    ensures i == j
  {
    ZFillRoundTrip(i, width);
    ZFillRoundTrip(j, width);
  }
}
