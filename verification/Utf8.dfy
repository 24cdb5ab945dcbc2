/** UTF-8 as `Buffer.from(text)` writes it, over UTF-16 code units: an unpaired surrogate
    becomes the bytes of the replacement character (section 3 of RFC 3629 has no bytes
    for it). */
module Utf8 {
  import opened CanonicalJson
  import opened Fractions

  newtype Octet = x: int | 0 <= x < 256
  type Octets = seq<Octet>

  predicate IsSurrogate(u: Unit) {
    IsHigh(u) || IsLow(u)
  }

  /** The code point of the first character; an unpaired surrogate stands for itself. */
  function FirstPoint(s: Text): (point: int)
    requires s != []
    ensures FirstLength(s) == 2 ==> 0x1_0000 <= point < 0x11_0000
    ensures FirstLength(s) == 1 ==> point == s[0] as int
  {
    if FirstLength(s) == 2 then 0x1_0000 + (s[0] as int - 0xD800) * 0x400 + (s[1] as int - 0xDC00)
    else s[0] as int
  }

  function EncodePoint(point: int): (bytes: Octets)
    requires 0 <= point < 0x11_0000
    ensures bytes != []
  {
    if point < 0x80 then [point as Octet]
    else if point < 0x800 then [(0xC0 + point / 64) as Octet, (0x80 + point % 64) as Octet]
    else if point < 0x1_0000 then
      [(0xE0 + point / 4096) as Octet, (0x80 + point / 64 % 64) as Octet, (0x80 + point % 64) as Octet]
    else
      [(0xF0 + point / 262144) as Octet, (0x80 + point / 4096 % 64) as Octet, (0x80 + point / 64 % 64) as Octet,
       (0x80 + point % 64) as Octet]
  }

  const REPLACEMENT: Unit := 0xFFFD

  function EncodeFirst(s: Text): Octets
    requires s != []
  {
    EncodePoint(if FirstLength(s) == 1 && IsSurrogate(s[0]) then REPLACEMENT as int else FirstPoint(s))
  }

  function Encode(s: Text): Octets {
    if s == [] then [] else EncodeFirst(s) + Encode(s[FirstLength(s)..])
  }

  /** No unpaired surrogate. */
  predicate Paired(s: Text) {
    s == [] || ((FirstLength(s) == 2 || !IsSurrogate(s[0])) && Paired(s[FirstLength(s)..]))
  }

  // ------------------------------------------------------------------ injective

  lemma Places(x: int, y: int)
    requires 0 <= x && 0 <= y && x / 64 == y / 64 && x % 64 == y % 64
    ensures x == y
  {
    assert x == 64 * (x / 64) + x % 64 && y == 64 * (y / 64) + y % 64;
  }

  lemma Thirds(x: int)
    requires 0 <= x
    ensures x / 64 / 64 == x / 4096 && x / 64 / 64 / 64 == x / 262144
  {
  }

  lemma PointCancels(x: int, y: int, p: Octets, q: Octets)
    requires 0 <= x < 0x11_0000 && 0 <= y < 0x11_0000 && EncodePoint(x) + p == EncodePoint(y) + q
    ensures x == y && p == q
  {
    var a, b := EncodePoint(x), EncodePoint(y);
    assert (a + p)[0] == a[0] && (b + q)[0] == b[0];
    assert |a| == |b| by { LengthByFirst(x, y); }
    assert (a + p)[..|a|] == a && (b + q)[..|b|] == b && (a + p)[|a|..] == p && (b + q)[|b|..] == q;
    SamePoint(x, y);
  }

  lemma LengthByFirst(x: int, y: int)
    requires 0 <= x < 0x11_0000 && 0 <= y < 0x11_0000 && EncodePoint(x)[0] == EncodePoint(y)[0]
    ensures |EncodePoint(x)| == |EncodePoint(y)|
  {
  }

  lemma SamePoint(x: int, y: int)
    requires 0 <= x < 0x11_0000 && 0 <= y < 0x11_0000 && EncodePoint(x) == EncodePoint(y)
    ensures x == y
  {
    var a, b := EncodePoint(x), EncodePoint(y);
    assert a[0] == b[0] && (|a| > 1 ==> a[1] == b[1]) && (|a| > 2 ==> a[2] == b[2]) && (|a| > 3 ==> a[3] == b[3]);
    Thirds(x);
    Thirds(y);
    if |a| == 2 {
      Places(x, y);
    } else if |a| == 3 {
      Places(x / 64, y / 64);
      Places(x, y);
    } else if |a| == 4 {
      Places(x / 64 / 64, y / 64 / 64);
      Places(x / 64, y / 64);
      Places(x, y);
    }
  }

  /** A code point is of one character only. */
  lemma PointOfCharacter(s: Text, t: Text)
    requires s != [] && t != [] && FirstPoint(s) == FirstPoint(t)
    ensures FirstLength(s) == FirstLength(t) && s[..FirstLength(s)] == t[..FirstLength(t)]
  {
    if FirstLength(s) == 2 {
      assert s[..2] == [s[0], s[1]] && t[..2] == [t[0], t[1]];
    } else {
      assert s[..1] == [s[0]] && t[..1] == [t[0]];
    }
  }

  /** Texts without unpaired surrogates have different bytes. */
  lemma {:induction false} EncodeInjective(s: Text, t: Text)
    requires Paired(s) && Paired(t) && Encode(s) == Encode(t)
    ensures s == t
  {
    if s != [] && t != [] {
      hide EncodePoint;
      PointCancels(FirstPoint(s), FirstPoint(t), Encode(s[FirstLength(s)..]), Encode(t[FirstLength(t)..]));
      PointOfCharacter(s, t);
      EncodeInjective(s[FirstLength(s)..], t[FirstLength(t)..]);
      assert s == s[..FirstLength(s)] + s[FirstLength(s)..] && t == t[..FirstLength(t)] + t[FirstLength(t)..];
    }
  }

  // -------------------------------------------------------------- concatenation

  lemma FirstOfConcat(a: Text, b: Text)
    requires a != [] && (b == [] || !IsLow(b[0]))
    ensures FirstLength(a + b) == FirstLength(a) <= |a|
    ensures EncodeFirst(a + b) == EncodeFirst(a)
    ensures (a + b)[FirstLength(a)..] == a[FirstLength(a)..] + b
  {
    hide EncodePoint;
    assert (a + b)[0] == a[0] && (|a| > 1 ==> (a + b)[1] == a[1]);
    assert FirstLength(a + b) == FirstLength(a);
    assert FirstPoint(a + b) == FirstPoint(a);
  }

  lemma EncodeUnfold(s: Text)
    requires s != []
    ensures Encode(s) == EncodeFirst(s) + Encode(s[FirstLength(s)..])
  {
  }

  /** Texts encode piece by piece unless a pair is cut. */
  lemma {:induction false} EncodeConcat(a: Text, b: Text)
    requires b == [] || !IsLow(b[0])
    ensures Encode(a + b) == Encode(a) + Encode(b)
  {
    hide EncodeFirst, Encode, FirstLength;
    if a == [] {
      assert a + b == b;
      assert Encode([]) == [] by { NothingEncoded(); }
    } else {
      FirstOfConcat(a, b);
      EncodeUnfold(a);
      EncodeUnfold(a + b);
      var n := FirstLength(a);
      FirstFits(a);
      EncodeConcat(a[n..], b);
      assert EncodeFirst(a) + (Encode(a[n..]) + Encode(b)) == (EncodeFirst(a) + Encode(a[n..])) + Encode(b);
    }
  }

  lemma NothingEncoded()
    ensures Encode([]) == []
  {
  }

  lemma FirstFits(a: Text)
    requires a != []
    ensures 1 <= FirstLength(a) <= |a|
  {
  }

  lemma {:induction false} PairedConcat(a: Text, b: Text)
    requires Paired(a) && Paired(b)
    ensures Paired(a + b)
  {
    if a == [] {
      assert a + b == b;
    } else {
      var n := FirstLength(a);
      assert FirstLength(a + b) == n && (a + b)[n..] == a[n..] + b;
      PairedConcat(a[n..], b);
    }
  }

  lemma {:induction false} PlainPaired(s: Text)
    requires forall u :: u in s ==> !IsSurrogate(u)
    ensures Paired(s)
  {
    if s != [] {
      assert s[0] in s;
      assert forall u :: u in s[1..] ==> u in s;
      PlainPaired(s[1..]);
    }
  }

  // ------------------------------------------------- which texts share their bytes

  /** What a reader of the bytes gets: every unpaired surrogate is replaced. */
  function Mend(s: Text): Text {
    if s == [] then []
    else MendFirst(s) + Mend(s[FirstLength(s)..])
  }

  function MendFirst(s: Text): (t: Text)
    requires s != []
    ensures 1 <= |t| == FirstLength(s) <= |s|
  {
    if FirstLength(s) == 1 && IsSurrogate(s[0]) then [REPLACEMENT] else s[..FirstLength(s)]
  }

  lemma MendFirstAlone(s: Text, t: Text)
    requires s != [] && (t == [] || !IsLow(t[0]))
    ensures FirstLength(MendFirst(s) + t) == FirstLength(s)
    ensures EncodeFirst(MendFirst(s) + t) == EncodeFirst(s)
    ensures FirstLength(s) == 2 || !IsSurrogate((MendFirst(s) + t)[0])
    ensures (MendFirst(s) + t)[FirstLength(s)..] == t
  {
    hide EncodePoint;
    var u := MendFirst(s) + t;
    if FirstLength(s) == 2 {
      assert u[0] == s[0] && u[1] == s[1];
    }
  }

  lemma {:induction false} MendSafe(s: Text)
    ensures Paired(Mend(s)) && Encode(Mend(s)) == Encode(s)
  {
    hide EncodeFirst, MendFirst;
    if s != [] {
      var rest := s[FirstLength(s)..];
      MendSafe(rest);
      PairedStart(Mend(rest));
      MendFirstAlone(s, Mend(rest));
    }
  }

  lemma PairedStart(s: Text)
    requires Paired(s)
    ensures s == [] || !IsLow(s[0])
  {
  }

  lemma {:induction false} PairedNeedsNoMending(s: Text)
    requires Paired(s)
    ensures Mend(s) == s
  {
    if s != [] {
      PairedNeedsNoMending(s[FirstLength(s)..]);
      assert s == s[..FirstLength(s)] + s[FirstLength(s)..];
    }
  }

  /** Texts share their bytes exactly when they are mended to one text. */
  lemma SameBytesIff(s: Text, t: Text)
    ensures Encode(s) == Encode(t) <==> Mend(s) == Mend(t)
  {
    hide Encode, Mend;
    MendSafe(s);
    MendSafe(t);
    if Encode(s) == Encode(t) { EncodeInjective(Mend(s), Mend(t)); }
  }

  lemma {:induction false} MendLeavesNoTrace(s: Text)
    requires REPLACEMENT !in Mend(s)
    ensures Paired(s)
  {
    if s != [] {
      var n := FirstLength(s);
      assert MendFirst(s)[0] in Mend(s);
      forall u | u in Mend(s[n..]) ensures u in Mend(s) {}
      MendLeavesNoTrace(s[n..]);
    }
  }

  /** In a text with a replacement character a lone surrogate may stand in its place. */
  lemma {:induction false} Unmended(s: Text) returns (t: Text)
    requires Paired(s) && REPLACEMENT in s
    ensures t != s && Mend(t) == s && (t == [] || !IsLow(t[0]))
  {
    var n := FirstLength(s);
    var rest := s[n..];
    if s[0] == REPLACEMENT {
      t := [0xD800] + rest;
      PairedStart(rest);
      assert t[1..] == rest;
      PairedNeedsNoMending(rest);
      assert [REPLACEMENT] + rest == s;
    } else {
      assert REPLACEMENT in rest by { assert s == s[..n] + rest; }
      var r := Unmended(rest);
      t := s[..n] + r;
      assert t[n..] == r && FirstLength(t) == n && t[..n] == s[..n];
      assert s == s[..n] + rest;
    }
  }

  predicate SharesEncoding(t: Text, s: Text) {
    t != s && Encode(t) == Encode(s)
  }

  /** Another text has the same bytes exactly when a text holds an unpaired surrogate or
      the character that replaces one. */
  lemma BytesSharedIff(s: Text)
    ensures (exists t :: SharesEncoding(t, s)) <==> !Paired(s) || REPLACEMENT in s
  {
    hide Encode, Mend, Paired;
    if !Paired(s) {
      MendSafe(s);
      assert SharesEncoding(Mend(s), s);
    } else {
      PairedNeedsNoMending(s);
      if REPLACEMENT in s {
        var t := Unmended(s);
        SameBytesIff(t, s);
        assert SharesEncoding(t, s);
      } else {
        forall t ensures !SharesEncoding(t, s) { UnsharedBytes(t, s); }
      }
    }
  }

  lemma UnsharedBytes(t: Text, s: Text)
    requires Paired(s) && REPLACEMENT !in s
    ensures Encode(t) == Encode(s) ==> t == s
  {
    hide Encode, Mend, Paired;
    if Encode(t) == Encode(s) {
      PairedNeedsNoMending(s);
      SameBytesIff(t, s);
      MendLeavesNoTrace(t);
      PairedNeedsNoMending(t);
    }
  }

  // ------------------------------------------------- canonical text is well paired

  lemma UnitPaired(u: Unit)
    ensures Paired(EscapeUnit(u))
  {
    forall x | x in EscapeUnit(u) ensures !IsSurrogate(x) {}
    PlainPaired(EscapeUnit(u));
  }

  lemma {:induction false} EscapePaired(s: Text)
    ensures Paired(Escape(s))
  {
    hide EscapeUnit;
    if s != [] {
      EscapePaired(s[FirstLength(s)..]);
      if FirstLength(s) == 2 {
        assert Paired([s[0], s[1]]) by { assert [s[0], s[1]][2..] == []; }
      } else {
        UnitPaired(s[0]);
      }
      PairedConcat(EscapeFirst(s), Escape(s[FirstLength(s)..]));
    }
  }

  lemma QuotePaired(s: Text)
    ensures Paired(Quote(s))
  {
    hide Escape;
    EscapePaired(s);
    PlainPaired([QUOTE]);
    PairedConcat(Escape(s), [QUOTE]);
    PairedConcat([QUOTE], Escape(s) + [QUOTE]);
  }

  lemma NumberPaired(n: int)
    ensures Paired(NumberText(n))
  {
    PlainPaired(NumberText(n));
  }

  lemma BracketPaired(open: Unit, t: Text, close: Unit)
    requires !IsSurrogate(open) && !IsSurrogate(close) && Paired(t)
    ensures Paired([open] + (t + [close]))
  {
    PlainPaired([open]);
    PlainPaired([close]);
    PairedConcat(t, [close]);
    PairedConcat([open], t + [close]);
  }

  /** Printed JSON never holds an unpaired surrogate, whatever its strings hold. */
  lemma {:induction false} PrintPaired(v: Json, s: Spelling)
    ensures Paired(Print(v, s))
    decreases v, 1
  {
    hide Paired, Quote, NumberText, FractionText, PrintItems, PrintMembers;
    match v
    case Number(n) => NumberPaired(n);
    case Fractional(x) => PlainPaired(FractionText(x, s));
    case Str(t) => QuotePaired(t);
    case Arr(items) =>
      ItemsPaired(items, s);
      BracketPaired(LBRACK, PrintItems(items, s), RBRACK);
    case Obj(members) =>
      MembersPaired(members, s);
      BracketPaired(LBRACE, PrintMembers(members, s), RBRACE);
    case _ => PlainPaired(Print(v, s));
  }

  lemma {:induction false} ItemsPaired(items: seq<Json>, s: Spelling)
    ensures Paired(PrintItems(items, s))
    decreases items, 0
  {
    hide Paired, Print;
    PlainPaired([]);
    PlainPaired([COMMA]);
    if items != [] {
      PrintPaired(items[0], s);
      if |items| > 1 {
        ItemsPaired(items[1..], s);
        PairedConcat([COMMA], PrintItems(items[1..], s));
        PairedConcat(Print(items[0], s), [COMMA] + PrintItems(items[1..], s));
      }
    }
  }

  lemma MemberPaired(m: Member, s: Spelling)
    ensures Paired(PrintMember(m, s))
    decreases m, 0
  {
    hide Paired, Print, Quote;
    QuotePaired(m.key);
    PrintPaired(m.value, s);
    PlainPaired([COLON]);
    PairedConcat([COLON], Print(m.value, s));
    PairedConcat(Quote(m.key), [COLON] + Print(m.value, s));
  }

  lemma {:induction false} MembersPaired(ms: seq<Member>, s: Spelling)
    ensures Paired(PrintMembers(ms, s))
    decreases ms, 0
  {
    hide Paired, PrintMember;
    PlainPaired([]);
    PlainPaired([COMMA]);
    if ms != [] {
      MemberPaired(ms[0], s);
      if |ms| > 1 {
        MembersPaired(ms[1..], s);
        PairedConcat([COMMA], PrintMembers(ms[1..], s));
        PairedConcat(PrintMember(ms[0], s), [COMMA] + PrintMembers(ms[1..], s));
      }
    }
  }
}
