/**
 * Decimal rendering of non-negative integers as Python's `str(n)` and the
 * zero-padded format `f"{n:02d}"` produce them, and the parser that reads
 * such digit strings back.
 */
module Decimal {

  predicate IsDigit(c: char) {
    '0' <= c <= '9'
  }

  predicate AllDigits(s: string) {
    forall i :: 0 <= i < |s| ==> IsDigit(s[i])
  }

  function DigitValue(c: char): (d: nat)
    requires IsDigit(c)
    ensures d < 10
  {
    c as int - '0' as int
  }

  function DigitChar(d: nat): (c: char)
    requires d < 10
    ensures IsDigit(c) && DigitValue(c) == d
  {
    (d + '0' as int) as char
  }

  /** The shortest decimal representation of `n`: one digit for n < 10,
      otherwise no leading zero. */
  function NatToDecimal(n: nat): (s: string)
    ensures |s| >= 1 && AllDigits(s)
    ensures (n < 10) == (|s| == 1)
    ensures (n < 100) == (|s| <= 2)
    ensures n >= 10 ==> s[0] != '0'
    decreases n
  {
    if n < 10 then [DigitChar(n)] else NatToDecimal(n / 10) + [DigitChar(n % 10)]
  }

  /** The value of a digit string, most significant digit first. */
  function ParseDecimal(s: string): nat
    requires AllDigits(s)
  {
    if s == [] then 0 else 10 * ParseDecimal(s[..|s| - 1]) + DigitValue(s[|s| - 1])
  }

  lemma {:induction false} ParseNatToDecimal(n: nat)
    ensures ParseDecimal(NatToDecimal(n)) == n
    decreases n
  {
    if n >= 10 {
      var s := NatToDecimal(n);
      assert s[..|s| - 1] == NatToDecimal(n / 10);
      ParseNatToDecimal(n / 10);
    } else {
      var s := NatToDecimal(n);
      assert s[..|s| - 1] == [];
    }
  }

  /** `f"{n:02d}"`: the decimal representation, left-padded with '0' to
      at least two characters. */
  function Pad2(n: nat): (s: string)
    ensures AllDigits(s)
    ensures (n < 100) == (|s| == 2)
    ensures |s| >= 2
    ensures n < 10 ==> s[0] == '0'
    ensures n >= 10 ==> s == NatToDecimal(n)
  {
    if n < 10 then "0" + NatToDecimal(n) else NatToDecimal(n)
  }

  /** Below 100 the two characters are the tens digit and the units digit. */
  lemma Pad2TwoDigits(n: nat)
    requires n < 100
    ensures Pad2(n) == [DigitChar(n / 10), DigitChar(n % 10)]
  {
    if n >= 10 {
      assert NatToDecimal(n / 10) == [DigitChar(n / 10)];
    }
  }

  /** Padding never changes the value the digits stand for. */
  lemma Pad2RoundTrip(n: nat)
    ensures ParseDecimal(Pad2(n)) == n
  {
    ParseNatToDecimal(n);
    if n < 10 {
      var s := Pad2(n);
      assert s[..|s| - 1] == "0";
      assert ("0")[..0] == [];
    }
  }

  /** Quotient and remainder are unique: `a == q * b + r` with
      `0 <= r < b` fixes both. */
  lemma DivModUnique(a: int, b: int, q: int, r: int)
    requires b > 0 && 0 <= r < b && a == q * b + r
    ensures a / b == q && a % b == r
  {
    var k := q - a / b;
    assert k * b == a % b - r;
  }
}
