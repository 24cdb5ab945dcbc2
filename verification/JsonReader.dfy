/** A reader of JSON texts written from the grammar of RFC 8259 (sections 2 to 7), with
    nothing in common with the printers: what it makes of the text a device signs
    (services/risk-engine/src/device-auth.ts:34-39) and of the one the gateway rebuilds. */
module JsonReader {
  import opened Collections
  import opened CanonicalJson
  import opened CanonicalJsonProofs
  import opened Decimals
  import opened Fractions
  import opened Utf8

  /** What a JSON text means. A number is `mantissa` times ten to `exponent`. */
  datatype Meant =
    | Nil
    | Truth(b: bool)
    | Num(mantissa: int, exponent: int)
    | Chars(s: Text)
    | List(items: seq<Meant>)
    | Record(fields: seq<Field>)

  datatype Field = Field(name: Text, value: Meant)

  // -------------------------------------------------------------------- reading

  function SkipSpace(t: Text): (r: Text)
    ensures |r| <= |t|
  {
    if t != [] && (t[0] == 32 || t[0] == 9 || t[0] == 10 || t[0] == 13) then SkipSpace(t[1..]) else t
  }

  predicate IsDecimal(u: Unit) {
    48 <= u <= 57
  }

  predicate AllDecimal(t: Text) {
    forall i :: 0 <= i < |t| ==> IsDecimal(t[i])
  }

  /** The decimal digits a text begins with. */
  function DigitCount(t: Text): (n: nat)
    ensures n <= |t| && AllDecimal(t[..n])
  {
    if t != [] && IsDecimal(t[0]) then
      assert forall i :: 0 < i < 1 + DigitCount(t[1..]) ==> t[i] == t[1..][i - 1];
      1 + DigitCount(t[1..])
    else 0
  }

  function Whole(t: Text): nat
    requires AllDecimal(t)
  {
    if t == [] then 0 else 10 * Whole(t[..|t| - 1]) + (t[|t| - 1] as int - 48)
  }

  function Signed(negative: bool, n: nat): int {
    if negative then 0 - n else n
  }

  /** No fraction, or a point and at least one digit. */
  function ReadFraction(t: Text): (r: Option<(Text, Text)>)
    ensures r.Some? ==> AllDecimal(r.value.0) && |r.value.1| <= |t|
  {
    if t == [] || t[0] != 46 then Some(([], t))
    else
      var n := DigitCount(t[1..]);
      if n == 0 then None else Some((t[1..][..n], t[1..][n..]))
  }

  /** No exponent, or an `e`, a sign or none, and at least one digit. */
  function ReadExponent(t: Text): (r: Option<(int, Text)>)
    ensures r.Some? ==> |r.value.1| <= |t|
  {
    if t == [] || (t[0] != 101 && t[0] != 69) then Some((0, t))
    else
      var signed := |t| > 1 && (t[1] == 43 || t[1] == 45);
      var u := if signed then t[2..] else t[1..];
      var n := DigitCount(u);
      if n == 0 then None else Some((Signed(signed && t[1] == 45, Whole(u[..n])), u[n..]))
  }

  function ReadUnsigned(negative: bool, t: Text): (r: Option<(Meant, Text)>)
    ensures r.Some? ==> |r.value.1| < |t|
  {
    var n := DigitCount(t);
    if n == 0 || (n > 1 && t[0] == 48) then None
    else
      match ReadFraction(t[n..])
      case None => None
      case Some((fraction, rest)) =>
        match ReadExponent(rest)
        case None => None
        case Some((exponent, end)) =>
          assert AllDecimal(t[..n] + fraction);
          Some((Num(Signed(negative, Whole(t[..n] + fraction)), exponent - |fraction|), end))
  }

  function ReadNumber(t: Text): (r: Option<(Meant, Text)>)
    ensures r.Some? ==> |r.value.1| < |t|
  {
    if t != [] && t[0] == 45 then ReadUnsigned(true, t[1..]) else ReadUnsigned(false, t)
  }

  function HexValue(u: Unit): int {
    if 48 <= u <= 57 then u as int - 48
    else if 97 <= u <= 102 then u as int - 87
    else if 65 <= u <= 70 then u as int - 55
    else -1
  }

  /** The unit of four hexadecimal digits. */
  function HexUnit(t: Unit, u: Unit, v: Unit, w: Unit): Option<Unit> {
    var a, b, c, d := HexValue(t), HexValue(u), HexValue(v), HexValue(w);
    if a < 0 || b < 0 || c < 0 || d < 0 then None else Some((4096 * a + 256 * b + 16 * c + d) as Unit)
  }

  /** The unit that one of the two-character escapes stands for. */
  function ShortEscape(u: Unit): Option<Unit> {
    if u == 34 || u == 92 || u == 47 then Some(u)
    else if u == 98 then Some(8)
    else if u == 102 then Some(12)
    else if u == 110 then Some(10)
    else if u == 114 then Some(13)
    else if u == 116 then Some(9)
    else None
  }

  function Before(u: Unit, r: Option<(Text, Text)>): Option<(Text, Text)> {
    if r.Some? then Some(([u] + r.value.0, r.value.1)) else None
  }

  /** A string after its opening quote. */
  function ReadString(t: Text): (r: Option<(Text, Text)>)
    ensures r.Some? ==> |r.value.1| < |t|
  {
    if t == [] then None
    else if t[0] == 34 then Some(([], t[1..]))
    else if t[0] != 92 then (if t[0] < 32 then None else Before(t[0], ReadString(t[1..])))
    else if |t| == 1 then None
    else if ShortEscape(t[1]).Some? then Before(ShortEscape(t[1]).value, ReadString(t[2..]))
    else if t[1] != 117 || |t| < 6 || HexUnit(t[2], t[3], t[4], t[5]).None? then None
    else Before(HexUnit(t[2], t[3], t[4], t[5]).value, ReadString(t[6..]))
  }

  predicate Starts(t: Text, word: Text) {
    |t| >= |word| && t[..|word|] == word
  }

  function ReadValue(t: Text): (r: Option<(Meant, Text)>)
    ensures r.Some? ==> |r.value.1| < |t|
    decreases |t|, 0
  {
    var u := SkipSpace(t);
    if u == [] then None
    else if u[0] == 34 then
      match ReadString(u[1..])
      case None => None
      case Some((s, rest)) => Some((Chars(s), rest))
    else if u[0] == 91 then ReadList(u[1..])
    else if u[0] == 123 then ReadRecord(u[1..])
    else if Starts(u, [110, 117, 108, 108]) then Some((Nil, u[4..]))
    else if Starts(u, [116, 114, 117, 101]) then Some((Truth(true), u[4..]))
    else if Starts(u, [102, 97, 108, 115, 101]) then Some((Truth(false), u[5..]))
    else ReadNumber(u)
  }

  /** An array after its opening bracket. */
  function ReadList(t: Text): (r: Option<(Meant, Text)>)
    ensures r.Some? ==> |r.value.1| < |t|
    decreases |t|, 2
  {
    var u := SkipSpace(t);
    if u != [] && u[0] == 93 then Some((List([]), u[1..]))
    else
      match ReadItems(u)
      case None => None
      case Some((items, rest)) => Some((List(items), rest))
  }

  function ReadItems(t: Text): (r: Option<(seq<Meant>, Text)>)
    ensures r.Some? ==> |r.value.1| < |t|
    decreases |t|, 1
  {
    match ReadValue(t)
    case None => None
    case Some((x, rest)) =>
      var u := SkipSpace(rest);
      if u == [] then None
      else if u[0] == 93 then Some(([x], u[1..]))
      else if u[0] != 44 then None
      else
        match ReadItems(u[1..])
        case None => None
        case Some((xs, end)) => Some(([x] + xs, end))
  }

  /** An object after its opening brace. */
  function ReadRecord(t: Text): (r: Option<(Meant, Text)>)
    ensures r.Some? ==> |r.value.1| < |t|
    decreases |t|, 2
  {
    var u := SkipSpace(t);
    if u != [] && u[0] == 125 then Some((Record([]), u[1..]))
    else
      match ReadFields(u)
      case None => None
      case Some((fields, rest)) => Some((Record(fields), rest))
  }

  function ReadField(t: Text): (r: Option<(Field, Text)>)
    ensures r.Some? ==> |r.value.1| < |t|
    decreases |t|, 0
  {
    var u := SkipSpace(t);
    if u == [] || u[0] != 34 then None
    else
      match ReadString(u[1..])
      case None => None
      case Some((name, rest)) =>
        var v := SkipSpace(rest);
        if v == [] || v[0] != 58 then None
        else
          match ReadValue(v[1..])
          case None => None
          case Some((value, end)) => Some((Field(name, value), end))
  }

  function ReadFields(t: Text): (r: Option<(seq<Field>, Text)>)
    ensures r.Some? ==> |r.value.1| < |t|
    decreases |t|, 1
  {
    match ReadField(t)
    case None => None
    case Some((x, rest)) =>
      var u := SkipSpace(rest);
      if u == [] then None
      else if u[0] == 125 then Some(([x], u[1..]))
      else if u[0] != 44 then None
      else
        match ReadFields(u[1..])
        case None => None
        case Some((xs, end)) => Some(([x] + xs, end))
  }

  /** A JSON text: one value and nothing else. */
  function Read(t: Text): Option<Meant> {
    match ReadValue(t)
    case None => None
    case Some((v, rest)) => if SkipSpace(rest) == [] then Some(v) else None
  }

  // -------------------------------------------------------------------- meaning

  /** What a value means, members in the order given. */
  function Meaning(v: Json): Meant
    decreases v, 1
  {
    match v
    case Undefined => Nil
    case Null => Nil
    case Bool(b) => Truth(b)
    case Number(n) => Num(n, 0)
    case Fractional(x) => Num(Signed(x.negative, Value(x.digits)), x.point - |x.digits|)
    case Str(s) => Chars(s)
    case Arr(items) => List(Meanings(items))
    case Obj(members) => Record(Fields(members))
  }

  function Meanings(items: seq<Json>): seq<Meant>
    decreases items, 0
  {
    if items == [] then [] else [Meaning(items[0])] + Meanings(items[1..])
  }

  function Fields(ms: seq<Member>): seq<Field>
    decreases ms, 0
  {
    if ms == [] then [] else [Field(ms[0].key, Meaning(ms[0].value))] + Fields(ms[1..])
  }

  // -------------------------------------------------------------------- strings

  lemma HexEscapeReads(u: Unit)
    ensures var h := Hex4(u); HexUnit(h[0], h[1], h[2], h[3]) == Some(u)
  {
    HexReadsBack(u / 4096);
    HexReadsBack(u / 256 % 16);
    HexReadsBack(u / 16 % 16);
    HexReadsBack(u % 16);
    HexPlaces(u as int);
  }

  lemma HexStringReads(u: Unit, t: Text)
    ensures ReadString(([92, 117] + Hex4(u)) + t) == Before(u, ReadString(t))
  {
    hide HexUnit, Hex4;
    var h := Hex4(u);
    var s := ([92, 117] + h) + t;
    HexEscapeReads(u);
    assert |h| == 4 by { HexLength(u); }
    assert s[0] == 92 && s[1] == 117 && s[2] == h[0] && s[3] == h[1] && s[4] == h[2] && s[5] == h[3];
    assert s[6..] == t;
  }

  lemma HexLength(u: Unit)
    ensures |Hex4(u)| == 4
  {
  }

  lemma ShortReads(v: Unit, t: Text)
    requires ShortEscape(v).Some?
    ensures ReadString([92, v] + t) == Before(ShortEscape(v).value, ReadString(t))
  {
    var s := [92, v] + t;
    assert s[0] == 92 && s[1] == v && s[2..] == t;
  }

  lemma RawReads(u: Unit, t: Text)
    requires u >= 32 && u != 34 && u != 92
    ensures ReadString([u] + t) == Before(u, ReadString(t))
  {
    assert ([u] + t)[1..] == t;
  }

  lemma UnitReadsBack(u: Unit, t: Text)
    ensures ReadString(EscapeUnit(u) + t) == Before(u, ReadString(t))
  {
    hide Hex4, HexUnit, ReadString, Before;
    if u == 34 || u == 92 {
      ShortReads(u, t);
    } else if u == 8 {
      ShortReads(98, t);
    } else if u == 9 {
      ShortReads(116, t);
    } else if u == 10 {
      ShortReads(110, t);
    } else if u == 12 {
      ShortReads(102, t);
    } else if u == 13 {
      ShortReads(114, t);
    } else if u < 32 || IsHigh(u) || IsLow(u) {
      HexStringReads(u, t);
    } else {
      RawReads(u, t);
    }
  }

  lemma HexReadsBack(d: Unit)
    requires d < 16
    ensures HexValue(HexDigit(d)) == d as int
  {
  }

  lemma PairReadsBack(u: Unit, v: Unit, t: Text)
    requires u >= 0xD800 && v >= 0xD800
    ensures ReadString([u, v] + t) == Before(u, Before(v, ReadString(t)))
  {
    var s := [u, v] + t;
    assert s[1..] == [v] + t && s[1..][1..] == t;
  }

  /** Any string reads back up to its closing quote. */
  lemma {:induction false} EscapeReadsBack(s: Text, p: Text)
    ensures ReadString(Escape(s) + ([34] + p)) == Some((s, p))
    decreases |s|
  {
    hide EscapeUnit, ReadString;
    if s == [] {
      QuoteEnds(p);
      assert Escape(s) + ([34] + p) == [34] + p;
    } else {
      var n := FirstLength(s);
      FirstLengthFits(s);
      var rest := Escape(s[n..]) + ([34] + p);
      AppendAssociative(EscapeFirst(s), Escape(s[n..]), [34] + p);
      EscapeReadsBack(s[n..], p);
      if n == 2 {
        PairReadsBack(s[0], s[1], rest);
        assert s == [s[0]] + ([s[1]] + s[2..]);
      } else {
        UnitReadsBack(s[0], rest);
        assert s == [s[0]] + s[1..];
      }
    }
  }

  lemma QuoteEnds(p: Text)
    ensures ReadString([34] + p) == Some(([], p))
  {
    assert ([34] + p)[1..] == p;
  }

  // -------------------------------------------------------------------- numbers

  /** What may follow a number in JSON: nothing, a comma or a closing bracket. */
  predicate Ends(p: Text) {
    p == [] || p[0] == 44 || p[0] == 93 || p[0] == 125
  }

  lemma {:induction false} DigitsEnd(a: Text, b: Text)
    requires AllDecimal(a) && (b == [] || !IsDecimal(b[0]))
    ensures DigitCount(a + b) == |a| && (a + b)[..|a|] == a && (a + b)[|a|..] == b
  {
    if a == [] {
      assert a + b == b;
    } else {
      assert (a + b)[0] == a[0] && (a + b)[1..] == a[1..] + b;
      DigitsEnd(a[1..], b);
    }
  }

  lemma AsciiConcat(a: string, b: string)
    requires forall i :: 0 <= i < |a| ==> a[i] < '\U{80}'
    requires forall i :: 0 <= i < |b| ==> b[i] < '\U{80}'
    ensures Ascii(a + b) == Ascii(a) + Ascii(b)
  {
  }

  lemma {:induction false} DigitsRead(s: string)
    requires AllDigits(s)
    ensures AllDecimal(Ascii(s)) && Whole(Ascii(s)) == Value(s)
  {
    if s != [] {
      var n := |s| - 1;
      assert Ascii(s)[..n] == Ascii(s[..n]);
      DigitsRead(s[..n]);
    }
  }

  /** The text of a number, part by part: `e` is empty or an exponent with a sign. */
  function Built(negative: bool, whole: Text, fraction: Text, e: Text, p: Text): Text {
    (if negative then [45] else []) + (whole + ((if fraction == [] then [] else [46] + fraction) + (e + p)))
  }

  predicate ExponentPart(e: Text, exponent: int) {
    (e == [] && exponent == 0) ||
    (|e| > 2 && e[0] == 101 && (e[1] == 43 || e[1] == 45) && AllDecimal(e[2..]) &&
     exponent == Signed(e[1] == 45, Whole(e[2..])))
  }

  lemma ExponentReads(e: Text, exponent: int, p: Text)
    requires ExponentPart(e, exponent) && Ends(p)
    ensures ReadExponent(e + p) == Some((exponent, p))
  {
    var t := e + p;
    if e == [] {
      assert t == p;
    } else {
      assert t[0] == e[0] && t[1] == e[1] && t[2..] == e[2..] + p;
      DigitsEnd(e[2..], p);
    }
  }

  lemma FractionReads(fraction: Text, t: Text)
    requires AllDecimal(fraction) && (t == [] || (!IsDecimal(t[0]) && t[0] != 46))
    ensures ReadFraction((if fraction == [] then [] else [46] + fraction) + t) == Some((fraction, t))
  {
    if fraction == [] {
      assert [] + t == t;
    } else {
      var s := ([46] + fraction) + t;
      assert s[1..] == fraction + t;
      DigitsEnd(fraction, t);
    }
  }

  lemma UnsignedSteps(negative: bool, whole: Text, rest: Text, fraction: Text, after: Text, exponent: int, p: Text)
    requires AllDecimal(whole) && whole != [] && (|whole| > 1 ==> whole[0] != 48)
    requires rest == [] || !IsDecimal(rest[0])
    requires ReadFraction(rest) == Some((fraction, after)) && ReadExponent(after) == Some((exponent, p))
    ensures AllDecimal(fraction) && AllDecimal(whole + fraction)
    ensures ReadUnsigned(negative, whole + rest) ==
            Some((Num(Signed(negative, Whole(whole + fraction)), exponent - |fraction|), p))
  {
    hide ReadFraction, ReadExponent, Whole, DigitCount, Signed;
    var u := whole + rest;
    DigitsEnd(whole, rest);
    assert u[0] == whole[0];
  }

  lemma SignReads(negative: bool, u: Text)
    requires u != [] && u[0] != 45
    ensures ReadNumber((if negative then [45] else []) + u) == ReadUnsigned(negative, u)
  {
    hide ReadUnsigned;
    var t := (if negative then [45] else []) + u;
    assert if negative then t[0] == 45 && t[1..] == u else t == u;
  }

  lemma BuiltReads(negative: bool, whole: Text, fraction: Text, e: Text, exponent: int, p: Text)
    requires AllDecimal(whole) && AllDecimal(fraction) && whole != [] && (|whole| > 1 ==> whole[0] != 48)
    requires ExponentPart(e, exponent) && Ends(p)
    ensures AllDecimal(whole + fraction)
    ensures ReadNumber(Built(negative, whole, fraction, e, p)) ==
            Some((Num(Signed(negative, Whole(whole + fraction)), exponent - |fraction|), p))
  {
    hide ReadFraction, ReadExponent, ReadNumber, ReadUnsigned, Whole;
    var rest := (if fraction == [] then [] else [46] + fraction) + (e + p);
    AfterDigits(e, exponent, p);
    FractionReads(fraction, e + p);
    ExponentReads(e, exponent, p);
    assert fraction != [] ==> rest[0] == 46;
    assert fraction == [] ==> rest == e + p;
    UnsignedSteps(negative, whole, rest, fraction, e + p, exponent, p);
    assert (whole + rest)[0] == whole[0];
    SignReads(negative, whole + rest);
  }

  lemma AfterDigits(e: Text, exponent: int, p: Text)
    requires ExponentPart(e, exponent) && Ends(p)
    ensures e + p == [] || (!IsDecimal((e + p)[0]) && (e + p)[0] != 46)
  {
    assert e == [] ==> e + p == p;
  }

  lemma NumberIsBuilt(n: int, p: Text)
    ensures var digits := Natural(if n < 0 then -n else n);
            NumberText(n) + p == Built(n < 0, Ascii(digits), [], [], p) && |Ascii(digits)| == |digits|
  {
    var digits := Natural(if n < 0 then -n else n);
    assert n < 0 ==> Ascii("-" + digits) == [45] + Ascii(digits);
    assert [] + p == p && [] + ([] + p) == p;
  }

  lemma {:induction false} NaturalStart(n: nat)
    ensures |Natural(n)| > 1 ==> Natural(n)[0] != '0'
  {
    if n >= 10 { NaturalStart(n / 10); }
  }

  lemma NumberReadsBack(n: int, p: Text)
    requires Ends(p)
    ensures ReadNumber(NumberText(n) + p) == Some((Num(n, 0), p))
  {
    hide ReadNumber, Built, NumberText, Natural, Ascii;
    var m := if n < 0 then -n else n;
    var digits := Natural(m);
    NumberIsBuilt(n, p);
    NaturalStart(m);
    NaturalReadsBack(m);
    DigitsRead(digits);
    assert Ascii(digits) + [] == Ascii(digits);
    BuiltReads(n < 0, Ascii(digits), [], [], 0, p);
  }

  lemma {:induction false} ValueOfZeros(n: nat, s: string)
    requires AllDigits(s)
    ensures AllDigits(Zeros(n) + s) && Value(Zeros(n) + s) == Value(s)
  {
    if n == 0 {
      assert Zeros(0) + s == s;
    } else {
      assert Zeros(n) + s == "0" + (Zeros(n - 1) + s);
      ValueOfZeros(n - 1, s);
      ValuePrepended(Zeros(n - 1) + s);
    }
  }

  /** The parts of a number's text: before the point, behind it, and the exponent. */
  function PartsOf(x: Fraction, s: Spelling): (string, string, string) {
    if WithExponent(x, s) then (x.digits[..1], x.digits[1..], "e" + ExponentText(x.point - 1, s))
    else (WholePart(x), FractionPart(x), "")
  }

  predicate GoodParts(x: Fraction, whole: string, fraction: string) {
    AllDigits(whole) && AllDigits(fraction) && whole != [] && (|whole| > 1 ==> whole[0] != '0') &&
    AllDigits(whole + fraction) && Value(whole + fraction) == Value(x.digits)
  }

  lemma PointParts(x: Fraction)
    requires x.point < |x.digits|
    ensures GoodParts(x, WholePart(x), FractionPart(x)) && FractionPart(x) != []
  {
    PartsAreDigits(x);
    if x.point <= 0 {
      ValueOfZeros(-x.point, x.digits);
      ValuePrepended(Zeros(-x.point) + x.digits);
    } else {
      assert WholePart(x) + FractionPart(x) == x.digits;
    }
  }

  lemma MantissaParts(x: Fraction)
    ensures GoodParts(x, x.digits[..1], x.digits[1..])
    ensures Mantissa(x.digits) == x.digits[..1] + (if x.digits[1..] == [] then "" else "." + x.digits[1..])
  {
    assert x.digits[..1] + x.digits[1..] == x.digits;
    if |x.digits| == 1 { assert x.digits[..1] == x.digits; }
  }

  lemma SpellParts(x: Fraction, s: Spelling)
    ensures var (whole, fraction, e) := PartsOf(x, s);
            GoodParts(x, whole, fraction) &&
            Unsigned(x, s) == whole + ((if fraction == [] then "" else "." + fraction) + e)
  {
    hide ExponentText, GoodParts, Mantissa, WholePart, FractionPart;
    if WithExponent(x, s) {
      MantissaParts(x);
      var e, dotted := "e" + ExponentText(x.point - 1, s), if x.digits[1..] == [] then "" else "." + x.digits[1..];
      assert (x.digits[..1] + dotted) + e == x.digits[..1] + (dotted + e);
    } else {
      PointInside(x, s);
      PointParts(x);
      assert WholePart(x) + (("." + FractionPart(x)) + "") == WholePart(x) + ("." + FractionPart(x));
    }
  }

  /** The sign an exponent has: always one. */
  function SignHead(e: int): string {
    if e < 0 then "e-" else "e+"
  }

  lemma ExponentSplit(e: int, s: Spelling)
    ensures "e" + ExponentText(e, s) == SignHead(e) + ExponentDigits(if e < 0 then -e else e, s)
  {
    hide ExponentDigits;
  }

  lemma ExponentIsPart(e: int, s: Spelling)
    ensures var t := "e" + ExponentText(e, s);
            (forall i :: 0 <= i < |t| ==> t[i] < '\U{80}') && ExponentPart(Ascii(t), e)
  {
    hide ExponentDigits, ExponentText, Whole, Value, Ascii;
    var n := if e < 0 then -e else e;
    ExponentSplit(e, s);
    ExponentDigitsReadBack(n, s);
    DigitsRead(ExponentDigits(n, s));
    SignedText(SignHead(e), ExponentDigits(n, s));
  }

  lemma SignedText(head: string, digits: string)
    requires (head == "e-" || head == "e+") && AllDigits(digits) && digits != []
    ensures forall i :: 0 <= i < |head + digits| ==> (head + digits)[i] < '\U{80}'
    ensures var t := Ascii(head + digits);
            |t| > 2 && t[0] == 101 && t[1] == (if head == "e-" then 45 else 43) && t[2..] == Ascii(digits)
  {
  }

  lemma FractionIsBuilt(x: Fraction, s: Spelling, p: Text)
    ensures var (whole, fraction, e) := PartsOf(x, s);
            (forall i :: 0 <= i < |e| ==> e[i] < '\U{80}') &&
            FractionText(x, s) + p == Built(x.negative, Ascii(whole), Ascii(fraction), Ascii(e), p)
  {
    hide Unsigned, PartsOf;
    var (whole, fraction, e) := PartsOf(x, s);
    SpellParts(x, s);
    PartsAscii(x, s);
    var dotted := if fraction == [] then "" else "." + fraction;
    AsciiConcat(".", fraction);
    assert Ascii("") == [] && Ascii(".") == [46] && Ascii("-") == [45];
    AsciiConcat(dotted, e);
    AsciiConcat(whole, dotted + e);
    AsciiConcat("-", Unsigned(x, s));
    var sign: Text, a, b, c := if x.negative then [45] else [], Ascii(whole), Ascii(dotted), Ascii(e);
    assert FractionText(x, s) == sign + (a + (b + c));
    Regroup(sign, a, b, c, p);
  }

  lemma Regroup(sign: Text, a: Text, b: Text, c: Text, p: Text)
    ensures (sign + (a + (b + c))) + p == sign + (a + (b + (c + p)))
  {
  }

  lemma PartsAscii(x: Fraction, s: Spelling)
    ensures forall i :: 0 <= i < |PartsOf(x, s).2| ==> PartsOf(x, s).2[i] < '\U{80}'
  {
    hide ExponentText;
    if WithExponent(x, s) { ExponentIsPart(x.point - 1, s); }
  }

  lemma FractionReadsBack(x: Fraction, s: Spelling, p: Text)
    requires Ends(p)
    ensures ReadNumber(FractionText(x, s) + p) == Some((Meaning(Fractional(x)), p))
  {
    hide ReadNumber, Built, FractionText, Ascii, WholePart, FractionPart, ExponentText, Mantissa;
    var (whole, fraction, e) := PartsOf(x, s);
    SpellParts(x, s);
    FractionIsBuilt(x, s, p);
    DigitsRead(whole);
    DigitsRead(fraction);
    DigitsRead(whole + fraction);
    AsciiConcat(whole, fraction);
    AsciiStart(whole);
    var exponent := if WithExponent(x, s) then x.point - 1 else 0;
    if WithExponent(x, s) { ExponentIsPart(x.point - 1, s); } else { assert Ascii(e) == [] by { AsciiEmpty(); } }
    BuiltReads(x.negative, Ascii(whole), Ascii(fraction), Ascii(e), exponent, p);
    FractionLength(x, s);
  }

  lemma AsciiStart(s: string)
    requires AllDigits(s) && s != []
    ensures |Ascii(s)| == |s| && Ascii(s)[0] == (s[0] as int) as Unit
  {
  }

  lemma AsciiEmpty()
    ensures Ascii("") == []
  {
  }

  lemma FractionLength(x: Fraction, s: Spelling)
    ensures |PartsOf(x, s).1| == (if WithExponent(x, s) then x.point - 1 else 0) - (x.point - |x.digits|)
  {
    hide ExponentText;
    if !WithExponent(x, s) { PointInside(x, s); }
  }

  // --------------------------------------------------------------------- values

  lemma NoSpaceAhead(t: Text)
    requires t != [] && t[0] != 32 && t[0] != 9 && t[0] != 10 && t[0] != 13
    ensures SkipSpace(t) == t
  {
  }

  /** No value is printed with white space in front. */
  lemma PrintAhead(v: Json, s: Spelling, p: Text)
    ensures var t := Print(v, s) + p;
            t != [] && t[0] == Print(v, s)[0] && SkipSpace(t) == t && t[0] != 93 && t[0] != 125
  {
    hide FractionText, NumberText, Quote, PrintItems, PrintMembers;
    PrintStart(v, s);
    assert (Print(v, s) + p)[0] == Print(v, s)[0];
  }

  lemma WordReads(word: Text, p: Text)
    ensures Starts(word + p, word) && (word + p)[|word|..] == p
  {
    assert (word + p)[..|word|] == word;
  }

  lemma NotWords(t: Text)
    requires t != [] && IsNumberUnit(t[0]) && t[0] != 101
    ensures ReadValue(t) == ReadNumber(SkipSpace(t)) && SkipSpace(t) == t
  {
    hide ReadNumber;
    NoSpaceAhead(t);
    forall word: Text | word != [] && Starts(t, word) ensures word[0] == t[0] {
      assert t[..|word|][0] == t[0];
    }
    assert !Starts(t, [110, 117, 108, 108]) && !Starts(t, [116, 114, 117, 101]) && !Starts(t, [102, 97, 108, 115, 101]);
  }

  lemma QuoteReads(s: Text, p: Text)
    ensures var t := Quote(s) + p; t[0] == 34 && SkipSpace(t) == t && ReadString(t[1..]) == Some((s, p))
  {
    hide Escape, ReadString;
    var t := Quote(s) + p;
    assert t[0] == 34 && t[1..] == Escape(s) + ([34] + p);
    EscapeReadsBack(s, p);
  }

  lemma LiteralReads(v: Json, s: Spelling, p: Text)
    requires v.Undefined? || v.Null? || v.Bool?
    ensures ReadValue(Print(v, s) + p) == Some((Meaning(v), p))
  {
    hide ReadNumber, ReadList, ReadRecord, ReadString;
    PrintAhead(v, s, p);
    WordReads(Print(v, s), p);
    var t := Print(v, s) + p;
    assert Starts(t, Print(v, s));
    if v.Bool? {
      assert !Starts(t, [110, 117, 108, 108]) by { assert t[..4][0] == t[0]; }
      assert !v.b ==> !Starts(t, [116, 114, 117, 101]) by { assert t[..4][0] == t[0]; }
    }
  }

  lemma NumericReads(v: Json, s: Spelling, p: Text)
    requires (v.Number? || v.Fractional?) && Ends(p)
    ensures ReadValue(Print(v, s) + p) == Some((Meaning(v), p))
  {
    hide ReadNumber, ReadValue, NumberText, FractionText, Meaning;
    PrintAhead(v, s, p);
    NumericStart(v, s);
    NotWords(Print(v, s) + p);
    if v.Number? {
      NumberReadsBack(v.n, p);
      assert Meaning(v) == Num(v.n, 0) by { MeaningOfNumber(v.n); }
    } else {
      FractionReadsBack(v.x, s, p);
    }
  }

  lemma MeaningOfNumber(n: int)
    ensures Meaning(Number(n)) == Num(n, 0)
  {
  }

  lemma NumericStart(v: Json, s: Spelling)
    requires v.Number? || v.Fractional?
    ensures IsNumberUnit(Print(v, s)[0]) && Print(v, s)[0] != 101
  {
    hide FractionText, NumberText;
  }

  /** A printed value reads back to its meaning, and leaves what follows it. */
  lemma {:induction false} PrintReadsBack(v: Json, s: Spelling, p: Text)
    requires Ends(p)
    ensures ReadValue(Print(v, s) + p) == Some((Meaning(v), p))
    decreases v, 1
  {
    hide ReadValue, Print, PrintItems, PrintMembers, ReadItems, ReadFields, Meaning;
    match v
    case Number(_) => NumericReads(v, s, p);
    case Fractional(_) => NumericReads(v, s, p);
    case Str(t) => StringReads(t, s, p);
    case Arr(items) =>
      if items != [] { ItemsReadBack(items, s, p); }
      ListReads(items, s, p);
    case Obj(members) =>
      if members != [] { FieldsReadBack(members, s, p); }
      RecordReads(members, s, p);
    case _ => LiteralReads(v, s, p);
  }

  lemma StringReads(t: Text, s: Spelling, p: Text)
    ensures ReadValue(Print(Str(t), s) + p) == Some((Meaning(Str(t)), p))
  {
    hide ReadString, Quote;
    QuoteReads(t, p);
  }

  lemma ListReads(items: seq<Json>, s: Spelling, p: Text)
    requires items != [] ==> ReadItems(PrintItems(items, s) + ([93] + p)) == Some((Meanings(items), p))
    ensures ReadValue(Print(Arr(items), s) + p) == Some((Meaning(Arr(items)), p))
  {
    hide ReadItems, PrintItems, Meanings;
    var t := PrintItems(items, s) + ([93] + p);
    BracketText(91, PrintItems(items, s), 93, p);
    NoSpaceAhead([91] + t);
    if items == [] {
      EmptyReads(93, p);
      NothingPrinted(s);
      assert t == [93] + p;
    } else {
      ItemsAhead(items, s, p);
    }
    assert ReadValue([91] + t) == ReadList(t);
  }

  lemma RecordReads(ms: seq<Member>, s: Spelling, p: Text)
    requires ms != [] ==> ReadFields(PrintMembers(ms, s) + ([125] + p)) == Some((Fields(ms), p))
    ensures ReadValue(Print(Obj(ms), s) + p) == Some((Meaning(Obj(ms)), p))
  {
    hide ReadFields, PrintMembers, Fields;
    var t := PrintMembers(ms, s) + ([125] + p);
    BracketText(123, PrintMembers(ms, s), 125, p);
    NoSpaceAhead([123] + t);
    if ms == [] {
      EmptyReads(125, p);
      NothingPrinted(s);
      assert t == [125] + p;
    } else {
      FieldsAhead(ms, s, p);
    }
    assert ReadValue([123] + t) == ReadRecord(t);
  }

  lemma NothingPrinted(s: Spelling)
    ensures PrintItems([], s) == [] && PrintMembers([], s) == [] && Meanings([]) == [] && Fields([]) == []
  {
  }

  lemma EmptyReads(close: Unit, p: Text)
    requires close == 93 || close == 125
    ensures SkipSpace([close] + p) == [close] + p && ([close] + p)[1..] == p
  {
  }

  lemma ItemsAhead(items: seq<Json>, s: Spelling, p: Text)
    requires items != []
    ensures var t := PrintItems(items, s) + ([93] + p); t != [] && t[0] != 93 && SkipSpace(t) == t
  {
    hide Print, PrintItems, ItemsTail;
    ItemsHead(items, s, p);
    PrintAhead(items[0], s, ItemsTail(items, s, p));
  }

  lemma {:induction false} ItemsReadBack(items: seq<Json>, s: Spelling, p: Text)
    requires items != []
    ensures ReadItems(PrintItems(items, s) + ([93] + p)) == Some((Meanings(items), p))
    decreases items, 0
  {
    hide Print, PrintItems, ReadValue, Meaning;
    ItemsHead(items, s, p);
    var tail := ItemsTail(items, s, p);
    PrintReadsBack(items[0], s, tail);
    NoSpaceAhead(tail);
    if |items| > 1 {
      ItemsReadBack(items[1..], s, p);
      assert tail[1..] == PrintItems(items[1..], s) + ([93] + p);
    } else {
      NothingPrinted(s);
      assert tail[1..] == p && items[1..] == [];
      assert Meanings(items) == [Meaning(items[0])];
    }
  }

  lemma MemberReadsBack(m: Member, s: Spelling, p: Text)
    requires Ends(p)
    ensures ReadField(PrintMember(m, s) + p) == Some((Field(m.key, Meaning(m.value)), p))
    ensures var t := PrintMember(m, s) + p; t != [] && t[0] == 34 && SkipSpace(t) == t
    decreases m, 2
  {
    hide Print, Quote, ReadString, ReadValue, Meaning;
    var t := [58] + (Print(m.value, s) + p);
    AppendAssociative(Quote(m.key), [58] + Print(m.value, s), p);
    AppendAssociative([58], Print(m.value, s), p);
    QuoteReads(m.key, t);
    NoSpaceAhead(t);
    assert t[1..] == Print(m.value, s) + p;
    PrintReadsBack(m.value, s, p);
  }

  lemma FieldsAhead(ms: seq<Member>, s: Spelling, p: Text)
    requires ms != []
    ensures var t := PrintMembers(ms, s) + ([125] + p); t != [] && t[0] == 34 && SkipSpace(t) == t
  {
    hide PrintMember, PrintMembers, MembersTail;
    MembersHead(ms, s, p);
    assert (PrintMember(ms[0], s) + MembersTail(ms, s, p))[0] == PrintMember(ms[0], s)[0];
  }

  lemma {:induction false} FieldsReadBack(ms: seq<Member>, s: Spelling, p: Text)
    requires ms != []
    ensures ReadFields(PrintMembers(ms, s) + ([125] + p)) == Some((Fields(ms), p))
    decreases ms, 0
  {
    hide PrintMember, PrintMembers, ReadField, Meaning;
    MembersHead(ms, s, p);
    var tail := MembersTail(ms, s, p);
    MemberReadsBack(ms[0], s, tail);
    NoSpaceAhead(tail);
    if |ms| > 1 {
      FieldsReadBack(ms[1..], s, p);
      assert tail[1..] == PrintMembers(ms[1..], s) + ([125] + p);
    } else {
      NothingPrinted(s);
      assert tail[1..] == p && ms[1..] == [];
      assert Fields(ms) == [Field(ms[0].key, Meaning(ms[0].value))];
    }
  }

  // ---------------------------------------------------------- whole texts

  /** What either language prints reads back as a whole to what the value means. */
  lemma ReadsBack(v: Json, s: Spelling)
    ensures Read(Print(v, s)) == Some(Meaning(v))
  {
    hide ReadValue, Print, Meaning;
    PrintReadsBack(v, s, []);
    assert Print(v, s) + [] == Print(v, s);
  }

  /** Keys in ascending order, in every object. */
  predicate KeysAscend(v: Json) {
    match v
    case Arr(items) => forall i :: 0 <= i < |items| ==> KeysAscend(items[i])
    case Obj(members) =>
      (forall i, j :: 0 <= i < j < |members| ==> Less(members[i].key, members[j].key)) &&
      forall i :: 0 <= i < |members| ==> KeysAscend(members[i].value)
    case _ => true
  }

  lemma {:induction false} CanonAscends(v: Json)
    requires WellFormed(v)
    ensures KeysAscend(Canon(v))
  {
    hide SortMembers, Less;
    match v
    case Arr(items) =>
      forall i | 0 <= i < |items| ensures KeysAscend(CanonItems(items)[i]) { CanonAscends(items[i]); }
    case Obj(members) =>
      var ms := CanonMembers(members);
      forall i | 0 <= i < |ms| ensures KeysAscend(ms[i].value) { CanonAscends(members[i].value); }
      CanonKeysDistinct(members);
      SortKeeps(ms);
      forall k | 0 <= k < |SortMembers(ms)| ensures KeysAscend(SortMembers(ms)[k].value) {
        assert SortMembers(ms)[k] in ms;
      }
    case _ =>
  }

  lemma {:induction false} CanonEquivalent(v: Json)
    requires WellFormed(v)
    ensures Equivalent(Canon(v), v)
  {
    hide SortMembers, Less;
    match v
    case Arr(items) =>
      forall i | 0 <= i < |items| ensures Equivalent(CanonItems(items)[i], items[i]) { CanonEquivalent(items[i]); }
    case Obj(members) =>
      var ms := CanonMembers(members);
      forall i | 0 <= i < |ms| ensures Equivalent(ms[i].value, members[i].value) { CanonEquivalent(members[i].value); }
      SortedEquivalent(members, ms, SortMembers(ms));
    case _ =>
  }

  lemma SortedEquivalent(members: seq<Member>, ms: seq<Member>, sorted: seq<Member>)
    requires DistinctKeys(members) && |ms| == |members| && sorted == SortMembers(ms)
    requires forall i :: 0 <= i < |ms| ==> ms[i].key == members[i].key && Equivalent(ms[i].value, members[i].value)
    ensures Equivalent(Obj(sorted), Obj(members))
  {
    hide SortMembers, Less, Equivalent;
    SortKeeps(ms);
    forall k | 0 <= k < |sorted| ensures HasKey(members, sorted[k].key) {
      assert sorted[k] in ms;
      var i :| 0 <= i < |ms| && ms[i] == sorted[k];
      assert members[i].key == sorted[k].key;
    }
    forall i | 0 <= i < |members| ensures HasKey(sorted, members[i].key) {
      assert ms[i] in sorted;
    }
    forall k, i | 0 <= k < |sorted| && 0 <= i < |members| && sorted[k].key == members[i].key
      ensures Equivalent(sorted[k].value, members[i].value)
    {
      assert sorted[k] in ms;
      var l :| 0 <= l < |ms| && ms[l] == sorted[k];
      assert members[l].key == members[i].key;
    }
    ObjectsEquivalent(sorted, members);
  }

  lemma ObjectsEquivalent(xs: seq<Member>, ys: seq<Member>)
    requires forall i :: 0 <= i < |xs| ==> HasKey(ys, xs[i].key)
    requires forall j :: 0 <= j < |ys| ==> HasKey(xs, ys[j].key)
    requires forall i, j :: 0 <= i < |xs| && 0 <= j < |ys| && xs[i].key == ys[j].key ==>
      Equivalent(xs[i].value, ys[j].value)
    ensures Equivalent(Obj(xs), Obj(ys))
  {
    hide HasKey;
  }

  /** The text a device signs is JSON for the value: read by the grammar it means a value
      equal up to key order, and its keys ascend. */
  lemma StableIsJson(v: Json) returns (w: Json)
    requires WellFormed(v)
    ensures Read(Stable(v)) == Some(Meaning(w)) && Equivalent(w, v) && KeysAscend(w)
  {
    hide Read, Print, Stable, Canon, Meaning, Equivalent, KeysAscend, WellFormed;
    w := Canon(v);
    StablePrintsCanon(v);
    ReadsBack(w, EcmaScript);
    CanonEquivalent(v);
    CanonAscends(v);
  }

  // --------------------------------------------------------------- the escapes

  /** `e` is one way to write the unit in a string. */
  predicate Writes(e: Text, u: Unit) {
    ReadString(e + [34]) == Some(([u], []))
  }

  predicate LowerCase(e: Text) {
    forall i :: 0 <= i < |e| ==> !(65 <= e[i] <= 70)
  }

  lemma OneBefore(v: Unit, t: Text, u: Unit)
    requires Before(v, ReadString(t)) == Some(([u], []))
    ensures u == v && t == [34]
  {
    var r := ReadString(t);
    assert ([v] + r.value.0)[0] == v && |r.value.0| == 0;
    NothingRead(t);
  }

  lemma NothingRead(t: Text)
    requires ReadString(t) == Some(([], []))
    ensures t == [34]
  {
    if t[0] == 34 { assert t == [t[0]] + t[1..]; }
  }

  lemma HexDigitOnly(u: Unit)
    requires 0 <= HexValue(u) && !(65 <= u <= 70)
    ensures HexValue(u) < 16 && HexDigit(HexValue(u) as Unit) == u
  {
  }

  lemma HexOnly(t: Unit, u: Unit, v: Unit, w: Unit, x: Unit)
    requires HexUnit(t, u, v, w) == Some(x) && LowerCase([t, u, v, w])
    ensures Hex4(x) == [t, u, v, w]
  {
    assert [t, u, v, w][0] == t && [t, u, v, w][1] == u && [t, u, v, w][2] == v && [t, u, v, w][3] == w;
    HexDigitOnly(t);
    HexDigitOnly(u);
    HexDigitOnly(v);
    HexDigitOnly(w);
    DigitsOf(HexValue(t), HexValue(u), HexValue(v), HexValue(w), x as int);
  }

  lemma DigitsOf(a: int, b: int, c: int, d: int, x: int)
    requires 0 <= a < 16 && 0 <= b < 16 && 0 <= c < 16 && 0 <= d < 16
    requires x == 4096 * a + 256 * b + 16 * c + d
    ensures x / 4096 == a && x / 256 % 16 == b && x / 16 % 16 == c && x % 16 == d
  {
    assert x / 16 == 256 * a + 16 * b + c && x % 16 == d;
    assert x / 256 == 16 * a + b;
  }

  /** What one way of writing a unit can look like. */
  lemma WritesShape(e: Text, u: Unit)
    requires Writes(e, u)
    ensures (e == [u] && u >= 32 && u != 34 && u != 92) ||
            (|e| == 2 && e[0] == 92 && ShortEscape(e[1]) == Some(u)) ||
            (|e| == 6 && e[0] == 92 && e[1] == 117 && HexUnit(e[2], e[3], e[4], e[5]) == Some(u))
  {
    hide HexUnit, ShortEscape;
    var t := e + [34];
    assert e != [] by { QuoteEnds([]); assert [34] + [] == [34] && [] + [34] == [34]; }
    assert t[0] == e[0];
    if t[0] == 34 {
    } else if t[0] != 92 {
      OneBefore(t[0], t[1..], u);
      assert |e| == 1;
    } else if ShortEscape(t[1]).Some? {
      OneBefore(ShortEscape(t[1]).value, t[2..], u);
      assert |e| == 2 && t[1] == e[1];
    } else {
      OneBefore(HexUnit(t[2], t[3], t[4], t[5]).value, t[6..], u);
      assert |e| == 6 && t[1] == e[1] && t[2] == e[2] && t[3] == e[3] && t[4] == e[4] && t[5] == e[5];
    }
  }

  /** Each unit is written in the shortest way there is, an unpaired surrogate in the
      shortest that is an escape, with lower-case digits. */
  lemma EscapeIsShortest(u: Unit, e: Text)
    requires Writes(e, u) && LowerCase(e) && (IsHigh(u) || IsLow(u) ==> e != [u])
    ensures Writes(EscapeUnit(u), u)
    ensures |EscapeUnit(u)| < |e| || e == EscapeUnit(u)
  {
    hide HexUnit, Hex4, Writes;
    EscapeWrites(u);
    WritesShape(e, u);
    HexLength(u);
    if |e| == 6 {
      HexOnly(e[2], e[3], e[4], e[5], u);
      assert e == [92, 117] + [e[2], e[3], e[4], e[5]];
    } else if |e| == 2 {
      ShortIsOnly(e[1], u);
      assert e == [e[0], e[1]];
    }
  }

  lemma ShortIsOnly(v: Unit, u: Unit)
    requires ShortEscape(v) == Some(u)
    ensures EscapeUnit(u) == if u == 47 then [47] else [92, v]
  {
  }

  lemma EscapeWrites(u: Unit)
    ensures Writes(EscapeUnit(u), u)
  {
    hide EscapeUnit, ReadString;
    UnitReadsBack(u, [34]);
    QuoteEnds([]);
    var quote, nothing: Text := [34], [];
    assert quote + nothing == quote && [u] + nothing == [u];
  }

  /** A string without quotes, backslashes, control characters and unpaired surrogates is
      written as it is. */
  lemma {:induction false} PlainUnchanged(s: Text)
    requires Paired(s) && forall i :: 0 <= i < |s| ==> s[i] >= 32 && s[i] != 34 && s[i] != 92
    ensures Escape(s) == s
  {
    if s != [] {
      var n := FirstLength(s);
      PlainUnchanged(s[n..]);
      assert EscapeFirst(s) == s[..n];
      assert s == s[..n] + s[n..];
    }
  }
}
