/**
 Decimal rendering of natural numbers, as Python's `str.format` does it for
 the `{}` and `{:02}` fields of a non-negative `int`, together with a parser
 that inverts the rendering.
 */
module Numerals {

  datatype Option<T> = None | Some(value: T)

  predicate IsDigit(c: char) {
    '0' <= c <= '9'
  }

  predicate AllDigits(s: string) {
    forall i :: 0 <= i < |s| ==> IsDigit(s[i])
  }

  function DigitChar(d: nat): (c: char)
    requires d < 10
    ensures IsDigit(c)
  {
    "0123456789"[d]
  }

  function CharValue(c: char): (d: nat)
    requires IsDigit(c)
    ensures d < 10
  {
    (c as int - '0' as int) as nat
  }

  lemma CharValueOfDigitChar(d: nat)
    requires d < 10
    ensures CharValue(DigitChar(d)) == d
  {
  }

  /** The value of a string of decimal digits, most significant digit first. */
  function DigitsValue(s: string): nat
    requires AllDigits(s)
  {
    if s == [] then 0 else DigitsValue(s[..|s| - 1]) * 10 + CharValue(s[|s| - 1])
  }

  /** The shortest decimal numeral of `n`: Python's `"{}".format(n)` for `n >= 0`. */
  function NatToString(n: nat): (s: string)
    ensures 1 <= |s|
    ensures AllDigits(s)
    ensures n > 0 ==> s[0] != '0'
    ensures n < 10 <==> |s| == 1
    decreases n
  {
    if n < 10 then [DigitChar(n)] else NatToString(n / 10) + [DigitChar(n % 10)]
  }

  /** Python's `"{:02}".format(n)` for `n >= 0`: zero-padded to at least two digits, never truncated. */
  function Pad2(n: nat): (s: string)
    ensures AllDigits(s)
    ensures |s| == if n < 10 then 2 else |NatToString(n)|
    ensures n < 100 ==> |s| == 2
    ensures n >= 10 ==> s == NatToString(n)
    ensures n < 10 ==> s[0] == '0' && s[1..] == NatToString(n)
  {
    if n < 10 then "0" + NatToString(n) else NatToString(n)
  }

  /** Reads a non-empty string of decimal digits; anything else is rejected. */
  function ParseNat(s: string): (r: Option<nat>)
    ensures r.Some? <==> |s| > 0 && AllDigits(s)
  {
    if |s| > 0 && AllDigits(s) then Some(DigitsValue(s)) else None
  }

  lemma {:induction false} NatToStringValue(n: nat)
    ensures DigitsValue(NatToString(n)) == n
    decreases n
  {
    var s := NatToString(n);
    if n < 10 {
      CharValueOfDigitChar(n);
    } else {
      NatToStringValue(n / 10);
      assert s[..|s| - 1] == NatToString(n / 10);
      CharValueOfDigitChar(n % 10);
    }
  }

  /** Parsing inverts rendering. */
  lemma NatToStringRoundTrip(n: nat)
    ensures ParseNat(NatToString(n)) == Some(n)
  {
    NatToStringValue(n);
  }

  /** Rendering is injective: distinct numbers never share a numeral. */
  lemma NatToStringInjective(m: nat, n: nat)
    requires NatToString(m) == NatToString(n)
    ensures m == n
  {
    NatToStringValue(m);
    NatToStringValue(n);
  }

  /** The zero padding of `Pad2` does not change the value it denotes. */
  lemma Pad2RoundTrip(n: nat)
    ensures ParseNat(Pad2(n)) == Some(n)
  {
    var s := Pad2(n);
    if n < 10 {
      assert s == ['0', DigitChar(n)];
      assert s[..1] == ['0'];
      assert ['0'][..0] == [];
      assert DigitsValue(['0']) == 0;
      CharValueOfDigitChar(n);
      assert DigitsValue(s) == n;
    } else {
      NatToStringRoundTrip(n);
    }
  }
}
