/** Decimal numerals as Python's `str(int)` prints them and `int(str)` reads them. */
module Decimal {

  predicate IsDigit(c: char) {
    '0' <= c <= '9'
  }

  predicate AllDigits(s: string) {
    forall c | c in s :: IsDigit(c)
  }

  function DigitChar(d: nat): (c: char)
    requires d < 10
    ensures IsDigit(c) && DigitValue(c) == d
  {
    ('0' as int + d) as char
  }

  function DigitValue(c: char): (d: nat)
    requires IsDigit(c)
    ensures d < 10
  {
    c as int - '0' as int
  }

  /** The numeral of `n`, without leading zeros. */
  function Print(n: nat): (s: string)
    ensures s != [] && AllDigits(s)
  {
    if n < 10 then [DigitChar(n)] else Print(n / 10) + [DigitChar(n % 10)]
  }

  function PrintInt(i: int): (s: string)
    ensures s != []
  {
    if i < 0 then "-" + Print(-i) else Print(i)
  }

  function Parse(s: string): nat
    requires AllDigits(s)
  {
    if s == [] then 0 else 10 * Parse(s[..|s| - 1]) + DigitValue(s[|s| - 1])
  }

  lemma {:induction false} ParsePrint(n: nat)
    ensures Parse(Print(n)) == n
  {
    if n >= 10 {
      ParsePrint(n / 10);
      assert Print(n)[..|Print(n)| - 1] == Print(n / 10);
    }
  }

  /** Different numbers have different numerals. */
  lemma PrintIntInjective(i: int, j: int)
    requires PrintInt(i) == PrintInt(j)
    ensures i == j
  {
    ParsePrint(if i < 0 then -i else i);
    ParsePrint(if j < 0 then -j else j);
    assert forall k | k in {i, j} && k < 0 :: PrintInt(k)[1..] == Print(-k);
    assert forall k | k in {i, j} && k >= 0 :: PrintInt(k)[0] in Print(k);
    assert !IsDigit('-');
  }

  /** The last digit of a numeral is that of the ones, and those before it are the tens. */
  lemma NumeralIs(n: nat)
    ensures Print(n) == (if n < 10 then "" else Print(n / 10)) + ["0123456789"[n % 10]]
  {
    assert n < 10 ==> n % 10 == n;
  }
}
