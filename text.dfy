/** The bits of Go's `fmt` and `strings` that the IR printer relies on: `%d` of
    an integer and `strings.Join`. Strings are sequences of Unicode code points. */
module Text {

  predicate IsDigit(c: char) {
    '0' <= c <= '9'
  }

  predicate AllDigits(s: string) {
    forall j :: 0 <= j < |s| ==> IsDigit(s[j])
  }

  function DigitChar(d: nat): (c: char)
    requires d < 10
    ensures IsDigit(c) && DigitValue(c) == d
  {
    (('0' as int) + d) as char
  }

  function DigitValue(c: char): (d: nat)
    requires IsDigit(c)
    ensures d < 10
  {
    (c as int) - ('0' as int)
  }

  /** `%d` of a non-negative integer: its decimal digits, without leading zeros. */
  function NatToDecimal(n: nat): (s: string)
    ensures |s| >= 1 && AllDigits(s)
    ensures |s| > 1 ==> s[0] != '0'
    decreases n
  {
    if n < 10 then [DigitChar(n)] else NatToDecimal(n / 10) + [DigitChar(n % 10)]
  }

  /** The value of a string of decimal digits: the reading of `NatToDecimal`. */
  function DecimalValue(s: string): nat
    requires AllDigits(s)
  {
    if s == [] then 0 else 10 * DecimalValue(s[..|s| - 1]) + DigitValue(s[|s| - 1])
  }

  /** Reading the digits of `n` gives `n` back. */
  lemma {:induction false} DecimalRoundTrip(n: nat)
    ensures DecimalValue(NatToDecimal(n)) == n
    decreases n
  {
    var s := NatToDecimal(n);
    if n >= 10 {
      DecimalRoundTrip(n / 10);
      assert s[..|s| - 1] == NatToDecimal(n / 10);
    }
  }

  /** Distinct numbers have distinct decimal forms. */
  lemma DecimalInjective(a: nat, b: nat)
    ensures NatToDecimal(a) == NatToDecimal(b) <==> a == b
  {
    DecimalRoundTrip(a);
    DecimalRoundTrip(b);
  }

  /** `%d` of a signed integer: a minus sign before the digits of a negative one. */
  function IntToDecimal(i: int): (s: string)
    ensures |s| >= 1
    ensures s[0] == '-' <==> i < 0
    ensures i >= 0 ==> s == NatToDecimal(i)
    ensures i < 0 ==> s[1..] == NatToDecimal(-i)
  {
    if i < 0 then "-" + NatToDecimal(-i) else NatToDecimal(i)
  }

  /** `strings.Join`: the parts with `sep` between each two neighbours. */
  function Join(parts: seq<string>, sep: string): (s: string)
    ensures parts == [] ==> s == []
    ensures |parts| == 1 ==> s == parts[0]
  {
    if parts == [] then []
    else if |parts| == 1 then parts[0]
    else parts[0] + sep + Join(parts[1..], sep)
  }
}
