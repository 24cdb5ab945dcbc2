/** Numbers that JavaScript writes with a point or an exponent, and how Python writes
    them: `Number::toString` (section 6.1.6.1.20 of ECMA-262) and `repr` of a float. Both
    print the same shortest digits of a number and differ in where they put an exponent. */
module Fractions {
  import opened Collections
  import opened Decimals

  /** Significant digits and the place of the point: 0.d1d2... times ten to `point`. */
  datatype Scientific = Scientific(negative: bool, digits: string, point: int)

  /** At most 17 significant digits, and not a whole number below ten to 21, which both
      languages write as a plain integer. */
  predicate NotPlain(x: Scientific) {
    1 <= |x.digits| <= 17 && AllDigits(x.digits) && x.digits[0] != '0' && x.digits[|x.digits| - 1] != '0' &&
    (x.point < |x.digits| || x.point > 21)
  }

  type Fraction = x: Scientific | NotPlain(x) witness Scientific(false, "5", 0)

  datatype Spelling = EcmaScript | Python

  predicate WithExponent(x: Fraction, s: Spelling) {
    match s
    case EcmaScript => x.point <= -6 || x.point > 21
    case Python => x.point <= -4 || x.point > 16
  }

  function Zeros(n: nat): (s: string)
    ensures |s| == n && forall i :: 0 <= i < n ==> s[i] == '0'
  {
    seq(n, i => '0')
  }

  /** Python writes two digits of an exponent at least. */
  function ExponentDigits(n: nat, s: Spelling): (t: string)
    ensures t != [] && AllDigits(t)
  {
    if s == Python && n < 10 then "0" + Natural(n) else Natural(n)
  }

  function ExponentText(e: int, s: Spelling): string {
    if e < 0 then "-" + ExponentDigits(-e, s) else "+" + ExponentDigits(e, s)
  }

  function Mantissa(digits: string): string
    requires digits != []
  {
    if |digits| == 1 then digits else digits[..1] + ("." + digits[1..])
  }

  function WholePart(x: Fraction): string
    requires x.point < |x.digits|
  {
    if x.point <= 0 then "0" else x.digits[..x.point]
  }

  function FractionPart(x: Fraction): string
    requires x.point < |x.digits|
  {
    if x.point <= 0 then Zeros(-x.point) + x.digits else x.digits[x.point..]
  }

  function Unsigned(x: Fraction, s: Spelling): string {
    if WithExponent(x, s) then Mantissa(x.digits) + ("e" + ExponentText(x.point - 1, s))
    else WholePart(x) + ("." + FractionPart(x))
  }

  function Spell(x: Fraction, s: Spelling): string {
    if x.negative then "-" + Unsigned(x, s) else Unsigned(x, s)
  }

  predicate IsNumeric(ch: char) {
    IsDigit(ch) || ch == '-' || ch == '+' || ch == '.' || ch == 'e'
  }

  // ----------------------------------------------------------- parts of a text

  lemma PartsAreDigits(x: Fraction)
    requires x.point < |x.digits|
    ensures AllDigits(WholePart(x)) && AllDigits(FractionPart(x)) && WholePart(x) != []
  {
  }

  lemma MantissaUnits(digits: string)
    requires digits != [] && AllDigits(digits)
    ensures forall i :: 0 <= i < |Mantissa(digits)| ==> IsDigit(Mantissa(digits)[i]) || Mantissa(digits)[i] == '.'
    ensures Mantissa(digits) != [] && IsDigit(Mantissa(digits)[0])
  {
  }

  lemma ExponentUnits(e: int, s: Spelling)
    ensures forall i :: 0 <= i < |ExponentText(e, s)| ==>
      IsDigit(ExponentText(e, s)[i]) || ExponentText(e, s)[i] == '-' || ExponentText(e, s)[i] == '+'
  {
  }

  lemma UnsignedUnits(x: Fraction, s: Spelling)
    ensures var t := Unsigned(x, s);
            t != [] && IsDigit(t[0]) && (forall i :: 0 <= i < |t| ==> IsNumeric(t[i])) &&
            ('e' in t <==> WithExponent(x, s)) && ('.' in t || 'e' in t)
  {
    hide Mantissa, ExponentText, WholePart, FractionPart;
    var t := Unsigned(x, s);
    if WithExponent(x, s) {
      MantissaUnits(x.digits);
      ExponentUnits(x.point - 1, s);
      assert t[|Mantissa(x.digits)|] == 'e';
    } else {
      PartsAreDigits(x);
      assert t[|WholePart(x)|] == '.';
    }
  }

  lemma SpellUnits(x: Fraction, s: Spelling)
    ensures var t := Spell(x, s);
            t != [] && (IsDigit(t[0]) || t[0] == '-') && (forall i :: 0 <= i < |t| ==> IsNumeric(t[i])) &&
            ('.' in t || 'e' in t)
  {
    hide Unsigned;
    UnsignedUnits(x, s);
    if x.negative {
      assert Spell(x, s)[1..] == Unsigned(x, s);
    }
  }

  // -------------------------------------------------------------- reading back

  lemma {:induction false} ValuePrepended(s: string)
    requires AllDigits(s)
    ensures Value("0" + s) == Value(s)
  {
    if s == [] {
      assert "0" + s == "0" && "0"[..0] == [];
    } else {
      var t := "0" + s;
      assert t[..|t| - 1] == "0" + s[..|s| - 1];
      ValuePrepended(s[..|s| - 1]);
    }
  }

  lemma ExponentDigitsReadBack(n: nat, s: Spelling)
    ensures Value(ExponentDigits(n, s)) == n
  {
    NaturalReadsBack(n);
    ValuePrepended(Natural(n));
  }

  lemma SameExponent(e: int, f: int, s: Spelling, t: Spelling)
    requires ExponentText(e, s) == ExponentText(f, t)
    ensures e == f
  {
    hide ExponentDigits;
    var a, b := ExponentText(e, s), ExponentText(f, t);
    assert a[0] == b[0] && a[1..] == b[1..];
    ExponentDigitsReadBack(if e < 0 then -e else e, s);
    ExponentDigitsReadBack(if f < 0 then -f else f, t);
  }

  lemma SameMantissa(a: string, b: string)
    requires a != [] && b != [] && Mantissa(a) == Mantissa(b)
    ensures a == b
  {
    var m, n := Mantissa(a), Mantissa(b);
    assert a == if |m| == 1 then m else m[..1] + m[2..];
    assert b == if |n| == 1 then n else n[..1] + n[2..];
  }

  /** A run of zeros before a digit other than zero has one length. */
  lemma SameZeros(m: nat, n: nat, a: string, b: string)
    requires a != [] && b != [] && a[0] != '0' && b[0] != '0' && Zeros(m) + a == Zeros(n) + b
    ensures m == n && a == b
  {
    var s, t := Zeros(m) + a, Zeros(n) + b;
    assert s[m] == a[0] && t[n] == b[0];
    assert (forall i :: 0 <= i < m ==> s[i] == '0') && forall i :: 0 <= i < n ==> t[i] == '0';
    assert s[m..] == a && t[n..] == b;
  }

  lemma WholePartTells(x: Fraction)
    requires x.point < |x.digits|
    ensures WholePart(x) != [] && (WholePart(x)[0] == '0' <==> x.point <= 0)
    ensures x.point > 0 ==> x.point == |WholePart(x)| && x.digits == WholePart(x) + FractionPart(x)
  {
  }

  lemma SameParts(x: Fraction, y: Fraction)
    requires x.point < |x.digits| && y.point < |y.digits|
    requires WholePart(x) == WholePart(y) && FractionPart(x) == FractionPart(y)
    ensures x.digits == y.digits && x.point == y.point
  {
    WholePartTells(x);
    WholePartTells(y);
    if x.point <= 0 {
      SameZeros(-x.point, -y.point, x.digits, y.digits);
    } else {
      hide WholePart, FractionPart;
    }
  }

  lemma UnsignedDetermines(x: Fraction, s: Spelling, y: Fraction, t: Spelling)
    requires Unsigned(x, s) == Unsigned(y, t)
    ensures x.digits == y.digits && x.point == y.point
  {
    hide Mantissa, ExponentText, WholePart, FractionPart, WithExponent;
    UnsignedUnits(x, s);
    UnsignedUnits(y, t);
    if WithExponent(x, s) {
      ExponentUnits(x.point - 1, s);
      ExponentUnits(y.point - 1, t);
      LastSplit('e', Mantissa(x.digits), Mantissa(y.digits),
                ExponentText(x.point - 1, s), ExponentText(y.point - 1, t));
      SameExponent(x.point - 1, y.point - 1, s, t);
      SameMantissa(x.digits, y.digits);
    } else {
      PointInside(x, s);
      PointInside(y, t);
      PartsAreDigits(x);
      PartsAreDigits(y);
      LastSplit('.', WholePart(x), WholePart(y), FractionPart(x), FractionPart(y));
      SameParts(x, y);
    }
  }

  lemma PointInside(x: Fraction, s: Spelling)
    requires !WithExponent(x, s)
    ensures x.point < |x.digits|
  {
  }

  /** A text determines its number, whichever language wrote it. */
  lemma SpellDetermines(x: Fraction, s: Spelling, y: Fraction, t: Spelling)
    requires Spell(x, s) == Spell(y, t)
    ensures x == y
  {
    hide Unsigned;
    UnsignedUnits(x, s);
    UnsignedUnits(y, t);
    assert Spell(x, s)[0] == Spell(y, t)[0];
    if x.negative {
      assert Spell(x, s)[1..] == Unsigned(x, s) && Spell(y, t)[1..] == Unsigned(y, t);
    }
    UnsignedDetermines(x, s, y, t);
  }

  /** A plain integer is never written like one of these. */
  lemma SpellIsNotPlain(x: Fraction, s: Spelling, n: int)
    ensures Spell(x, s) != Integer(n)
  {
    hide Spell;
    SpellUnits(x, s);
    assert forall i :: 0 <= i < |Integer(n)| ==> Integer(n)[i] != '.' && Integer(n)[i] != 'e';
  }

  // --------------------------------------------------------- where they differ

  /** At least ten to -9 and less than ten to -4, without the sign. */
  predicate SpeltApart(x: Fraction) {
    -8 <= x.point <= -4
  }

  /** When a number is written with an exponent, its size being 0.d1d2... times ten to
      `point`: JavaScript's below 1e-6 and from 1e21 on, Python's below 1e-4 and from 1e16
      on. */
  lemma ExponentIff(x: Fraction)
    ensures 'e' in Spell(x, EcmaScript) <==> x.point < -5 || x.point > 21
    ensures 'e' in Spell(x, Python) <==> x.point < -3 || x.point > 16
  {
    hide Unsigned;
    UnsignedUnits(x, EcmaScript);
    UnsignedUnits(x, Python);
  }

  lemma NaturalLength(n: nat)
    ensures |Natural(n)| == 1 <==> n < 10
  {
  }

  /** The two languages write a number alike except in that range: there Python has an
      exponent already, or pads it. */
  lemma SpellAlikeIff(x: Fraction)
    ensures Spell(x, EcmaScript) == Spell(x, Python) <==> !SpeltApart(x)
  {
    hide Mantissa, WholePart, FractionPart;
    UnsignedUnits(x, EcmaScript);
    UnsignedUnits(x, Python);
    var a, b := Unsigned(x, EcmaScript), Unsigned(x, Python);
    assert Spell(x, EcmaScript) == Spell(x, Python) <==> a == b by {
      SameSign(x.negative, a, b);
    }
    if WithExponent(x, EcmaScript) && WithExponent(x, Python) {
      NaturalLength(if x.point < 1 then 1 - x.point else x.point - 1);
    }
  }

  lemma SameSign(negative: bool, a: string, b: string)
    ensures (if negative then "-" + a else a) == (if negative then "-" + b else b) <==> a == b
  {
    assert ("-" + a)[1..] == a && ("-" + b)[1..] == b;
  }
}
