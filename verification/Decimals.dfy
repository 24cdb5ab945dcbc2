/** Decimal notation of integers, as every printer in the system writes them. */
module Decimals {

  predicate IsDigit(ch: char) {
    '0' <= ch <= '9'
  }

  function Digit(d: nat): char
    requires d < 10
  {
    '0' + d as char
  }

  function Natural(n: nat): (s: string)
    ensures s != [] && forall i :: 0 <= i < |s| ==> IsDigit(s[i])
  {
    if n < 10 then [Digit(n)] else Natural(n / 10) + [Digit(n % 10)]
  }

  function Integer(n: int): (s: string)
    ensures s != [] && forall i :: 0 <= i < |s| ==> IsDigit(s[i]) || s[i] == '-'
  {
    if n < 0 then "-" + Natural(-n) else Natural(n)
  }

  predicate AllDigits(s: string) {
    forall i :: 0 <= i < |s| ==> IsDigit(s[i])
  }

  /** The number a string of digits denotes. */
  function Value(s: string): nat
    requires AllDigits(s)
  {
    if s == [] then 0 else 10 * Value(s[..|s| - 1]) + (s[|s| - 1] as int - '0' as int)
  }

  lemma {:induction false} NaturalReadsBack(n: nat)
    ensures Value(Natural(n)) == n
  {
    if n < 10 {
      assert [Digit(n)][..0] == [];
    } else {
      NaturalReadsBack(n / 10);
      assert (Natural(n / 10) + [Digit(n % 10)])[..|Natural(n / 10)|] == Natural(n / 10);
    }
  }

  /** Different integers are written differently. */
  lemma IntegerInjective(m: int, n: int)
    requires Integer(m) == Integer(n)
    ensures m == n
  {
    if m < 0 && n < 0 {
      assert Integer(m)[1..] == Natural(-m) && Integer(n)[1..] == Natural(-n);
      NaturalReadsBack(-m);
      NaturalReadsBack(-n);
    } else if m >= 0 && n >= 0 {
      NaturalReadsBack(m);
      NaturalReadsBack(n);
    } else {
      SignsDiffer(m, n);
    }
  }

  lemma SignsDiffer(m: int, n: int)
    requires (m < 0) != (n < 0)
    ensures Integer(m)[0] != Integer(n)[0]
  {
    assert m < 0 ==> IsDigit(Natural(n)[0]);
    assert n < 0 ==> IsDigit(Natural(m)[0]);
  }
}
