/** `stable` prints two values alike exactly when they are equal up to key order. */
module CanonicalJsonProofs {
  import opened Collections
  import opened Decimals
  import opened Fractions
  import opened CanonicalJson

  // ---------------------------------------- stable is printing the sorted value

  /** The pieces that the members of a canonical object are rendered to. */
  function PiecesOf(ms: seq<Member>): (r: seq<Piece>)
    ensures |r| == |ms| && forall i :: 0 <= i < |ms| ==> r[i] == Piece(ms[i].key, PrintMember(ms[i], EcmaScript))
  {
    if ms == [] then [] else [Piece(ms[0].key, PrintMember(ms[0], EcmaScript))] + PiecesOf(ms[1..])
  }

  lemma {:induction false} InsertPieces(m: Member, ms: seq<Member>)
    ensures InsertPiece(Piece(m.key, PrintMember(m, EcmaScript)), PiecesOf(ms)) == PiecesOf(InsertMember(m, ms))
  {
    hide PrintMember;
    if ms != [] {
      assert PiecesOf(ms)[1..] == PiecesOf(ms[1..]);
      InsertPieces(m, ms[1..]);
      assert ([m] + ms)[1..] == ms && ([ms[0]] + InsertMember(m, ms[1..]))[1..] == InsertMember(m, ms[1..]);
    }
  }

  lemma {:induction false} SortsAlike(ms: seq<Member>)
    ensures SortPieces(PiecesOf(ms)) == PiecesOf(SortMembers(ms))
  {
    hide PrintMember, InsertPiece, InsertMember;
    if ms != [] {
      assert PiecesOf(ms)[1..] == PiecesOf(ms[1..]);
      SortsAlike(ms[1..]);
      InsertPieces(ms[0], SortMembers(ms[1..]));
    }
  }

  lemma {:induction false} JoinPieces(ms: seq<Member>)
    ensures Join(Texts(PiecesOf(ms))) == PrintMembers(ms, EcmaScript)
    ensures |Texts(PiecesOf(ms))| == |ms|
  {
    hide PrintMember;
    if ms != [] {
      assert PiecesOf(ms)[1..] == PiecesOf(ms[1..]);
      JoinPieces(ms[1..]);
      assert Texts(PiecesOf(ms))[1..] == Texts(PiecesOf(ms[1..]));
    }
  }

  lemma {:induction false} StablePrintsCanon(v: Json)
    ensures Stable(v) == Print(Canon(v), EcmaScript)
    decreases v, 1
  {
    match v
    case Arr(items) => StableItemsPrint(items);
    case Obj(members) =>
      PiecesOfCanon(members);
      SortsAlike(CanonMembers(members));
      JoinPieces(SortMembers(CanonMembers(members)));
    case _ =>
  }

  lemma {:induction false} StableItemsPrint(items: seq<Json>)
    ensures Join(StableItems(items)) == PrintItems(CanonItems(items), EcmaScript)
    decreases items, 0
  {
    if items != [] {
      StablePrintsCanon(items[0]);
      StableItemsPrint(items[1..]);
      assert StableItems(items)[1..] == StableItems(items[1..]) && CanonItems(items)[1..] == CanonItems(items[1..]);
    }
  }

  lemma {:induction false} PiecesOfCanon(ms: seq<Member>)
    ensures Pieces(ms) == PiecesOf(CanonMembers(ms))
    decreases ms, 0
  {
    if ms != [] {
      StablePrintsCanon(ms[0].value);
      PiecesOfCanon(ms[1..]);
      assert CanonMembers(ms)[1..] == CanonMembers(ms[1..]);
    }
  }

  // ------------------------------------------------------- reading back text

  lemma HexPlaces(x: int)
    requires 0 <= x < 0x1_0000
    ensures x == 4096 * (x / 4096) + 256 * (x / 256 % 16) + 16 * (x / 16 % 16) + x % 16
  {
    var y, z := x / 16, x / 256;
    assert x == 16 * y + x % 16;
    assert y / 16 == z && y == 16 * z + y % 16;
    assert z / 16 == x / 4096 && z == 16 * (x / 4096) + z % 16;
  }

  lemma UnitPlaces(u: Unit)
    ensures u == 4096 * (u / 4096) + (256 * (u / 256 % 16) + (16 * (u / 16 % 16) + u % 16))
  {
    HexPlaces(u as int);
  }

  lemma Hex4Injective(u: Unit, v: Unit)
    requires Hex4(u) == Hex4(v)
    ensures u == v
  {
    var a, b := Hex4(u), Hex4(v);
    assert a[0] == b[0] && a[1] == b[1] && a[2] == b[2] && a[3] == b[3];
    HexDigitInjective(u / 4096, v / 4096);
    HexDigitInjective(u / 256 % 16, v / 256 % 16);
    HexDigitInjective(u / 16 % 16, v / 16 % 16);
    HexDigitInjective(u % 16, v % 16);
    UnitPlaces(u);
    UnitPlaces(v);
  }

  lemma HexDigitInjective(d: Unit, e: Unit)
    requires d < 16 && e < 16
    ensures HexDigit(d) == HexDigit(e) ==> d == e
  {
  }

  /** Splitting a text after its first `n` units. */
  lemma SplitAt(a: Text, b: Text, p: Text, q: Text)
    requires a + p == b + q && |a| == |b|
    ensures a == b && p == q
  {
    assert (a + p)[..|a|] == a && (b + q)[..|b|] == b;
    assert (a + p)[|a|..] == p && (b + q)[|b|..] == q;
  }

  lemma EscapeUnitCancels(u: Unit, v: Unit, p: Text, q: Text)
    requires EscapeUnit(u) + p == EscapeUnit(v) + q
    ensures u == v && p == q
  {
    var a, b := EscapeUnit(u), EscapeUnit(v);
    assert (a + p)[0] == a[0] && (b + q)[0] == b[0];
    if |a| > 1 && |b| > 1 {
      assert (a + p)[1] == a[1] && (b + q)[1] == b[1];
    }
    assert |a| == |b|;
    SplitAt(a, b, p, q);
    if |a| == 6 {
      assert a[2..] == Hex4(u) && b[2..] == Hex4(v);
      Hex4Injective(u, v);
    }
  }

  lemma EscapeFirstCancels(s: Text, t: Text, p: Text, q: Text)
    requires s != [] && t != [] && EscapeFirst(s) + p == EscapeFirst(t) + q
    ensures FirstLength(s) == FirstLength(t) && s[..FirstLength(s)] == t[..FirstLength(t)] && p == q
  {
    var a, b := EscapeFirst(s), EscapeFirst(t);
    assert (a + p)[0] == a[0] && (b + q)[0] == b[0];
    if FirstLength(s) == 2 && FirstLength(t) == 2 {
      SplitAt(a, b, p, q);
      assert s[..2] == a && t[..2] == b;
    } else if FirstLength(s) == 1 && FirstLength(t) == 1 {
      EscapeUnitCancels(s[0], t[0], p, q);
      assert s[..1] == [s[0]] && t[..1] == [t[0]];
    } else {
      RawHighOnlyInPairs(s[0]);
      RawHighOnlyInPairs(t[0]);
      assert false;
    }
  }

  lemma RawHighOnlyInPairs(u: Unit)
    ensures !IsHigh(EscapeUnit(u)[0])
  {
  }

  /** An escaped string can be read back up to its closing quote. */
  lemma {:induction false} EscapeCancels(s: Text, t: Text, p: Text, q: Text)
    requires Escape(s) + ([QUOTE] + p) == Escape(t) + ([QUOTE] + q)
    ensures s == t && p == q
    decreases |s|
  {
    hide EscapeFirst, FirstLength;
    if s == [] || t == [] {
      EscapeStart(s, p);
      EscapeStart(t, q);
      assert ([QUOTE] + p)[1..] == p && ([QUOTE] + q)[1..] == q;
    } else {
      FirstLengthFits(s);
      FirstLengthFits(t);
      var n, m := FirstLength(s), FirstLength(t);
      AppendAssociative(EscapeFirst(s), Escape(s[n..]), [QUOTE] + p);
      AppendAssociative(EscapeFirst(t), Escape(t[m..]), [QUOTE] + q);
      EscapeFirstCancels(s, t, Escape(s[n..]) + ([QUOTE] + p), Escape(t[m..]) + ([QUOTE] + q));
      EscapeCancels(s[n..], t[m..], p, q);
      assert s == s[..n] + s[n..] && t == t[..m] + t[m..];
    }
  }

  lemma FirstLengthFits(s: Text)
    requires s != []
    ensures 1 <= FirstLength(s) <= |s|
  {
  }

  lemma EscapeStart(s: Text, p: Text)
    ensures (Escape(s) + ([QUOTE] + p))[0] == QUOTE <==> s == []
    ensures s == [] ==> Escape(s) + ([QUOTE] + p) == [QUOTE] + p
  {
  }

  lemma AppendAssociative(a: Text, b: Text, c: Text)
    ensures (a + b) + c == a + (b + c)
  {
  }

  lemma QuoteCancels(s: Text, t: Text, p: Text, q: Text)
    requires Quote(s) + p == Quote(t) + q
    ensures s == t && p == q
  {
    hide Escape;
    var a, b := Escape(s) + ([QUOTE] + p), Escape(t) + ([QUOTE] + q);
    assert Quote(s) + p == [QUOTE] + a && Quote(t) + q == [QUOTE] + b;
    SplitAt([QUOTE], [QUOTE], a, b);
    EscapeCancels(s, t, p, q);
  }

  /** What may follow a value: nothing, or a delimiter. */
  predicate Delimited(x: Text) {
    x == [] || x[0] == COMMA || x[0] == RBRACK || x[0] == RBRACE
  }

  lemma NumberEnds(a: Text, p: Text)
    requires (forall i :: 0 <= i < |a| ==> IsNumberUnit(a[i])) && Delimited(p)
    ensures a == [] <==> a + p == [] || !IsNumberUnit((a + p)[0])
  {
    assert a == [] ==> a + p == p;
  }

  lemma {:induction false} NumberSpan(a: Text, b: Text, p: Text, q: Text)
    requires forall i :: 0 <= i < |a| ==> IsNumberUnit(a[i])
    requires forall i :: 0 <= i < |b| ==> IsNumberUnit(b[i])
    requires Delimited(p) && Delimited(q) && a + p == b + q
    ensures a == b && p == q
  {
    if a == [] || b == [] {
      NumberEnds(a, p);
      NumberEnds(b, q);
      assert a + p == p && b + q == q;
    } else {
      assert (a + p)[0] == a[0] && (b + q)[0] == b[0];
      assert (a + p)[1..] == a[1..] + p && (b + q)[1..] == b[1..] + q;
      NumberSpan(a[1..], b[1..], p, q);
    }
  }

  lemma AsciiInjective(a: string, b: string)
    requires forall i :: 0 <= i < |a| ==> a[i] < '\U{80}'
    requires forall i :: 0 <= i < |b| ==> b[i] < '\U{80}'
    requires Ascii(a) == Ascii(b)
    ensures a == b
  {
    assert |a| == |Ascii(a)| == |Ascii(b)| == |b|;
    forall i | 0 <= i < |a| ensures a[i] == b[i] {
      assert Ascii(a)[i] == Ascii(b)[i];
    }
  }

  lemma NumberTextInjective(m: int, n: int)
    requires NumberText(m) == NumberText(n)
    ensures m == n
  {
    hide Ascii;
    AsciiInjective(Integer(m), Integer(n));
    IntegerInjective(m, n);
  }

  /** Different numbers are written differently, by whichever language. */
  lemma FractionTextDetermines(x: Fraction, s: Spelling, y: Fraction, t: Spelling)
    requires FractionText(x, s) == FractionText(y, t)
    ensures x == y && (s != t ==> !SpeltApart(x))
  {
    hide Spell, Ascii;
    SpellUnits(x, s);
    SpellUnits(y, t);
    AsciiInjective(Spell(x, s), Spell(y, t));
    SpellDetermines(x, s, y, t);
    SpellAlikeIff(x);
  }

  lemma FractionIsNotPlain(x: Fraction, s: Spelling, n: int)
    ensures FractionText(x, s) != NumberText(n)
  {
    hide Spell, Ascii;
    SpellUnits(x, s);
    if FractionText(x, s) == NumberText(n) {
      AsciiInjective(Spell(x, s), Integer(n));
      SpellIsNotPlain(x, s, n);
    }
  }

  /** Kinds of values, told apart by the first unit of their text. */
  function Kind(u: Unit): int {
    if IsNumberUnit(u) then 1 else u as int
  }

  function KindOf(v: Json): int {
    match v
    case Undefined => 110
    case Null => 110
    case Bool(b) => if b then 116 else 102
    case Number(_) => 1
    case Fractional(_) => 1
    case Str(_) => 34
    case Arr(_) => 91
    case Obj(_) => 123
  }

  lemma PrintStart(v: Json, s: Spelling)
    ensures Kind(Print(v, s)[0]) == KindOf(v)
  {
    hide FractionText;
    if v.Number? {
      assert IsNumberUnit(NumberText(v.n)[0]);
    }
  }

  predicate NoUndefined(v: Json) {
    match v
    case Undefined => false
    case Arr(items) => forall i :: 0 <= i < |items| ==> NoUndefined(items[i])
    case Obj(members) => forall i :: 0 <= i < |members| ==> NoUndefined(members[i].value)
    case _ => true
  }

  /** No number in the value is one that the two languages write differently. */
  predicate SpeltAlike(v: Json) {
    match v
    case Fractional(x) => !SpeltApart(x)
    case Arr(items) => forall i :: 0 <= i < |items| ==> SpeltAlike(items[i])
    case Obj(members) => forall i :: 0 <= i < |members| ==> SpeltAlike(members[i].value)
    case _ => true
  }

  predicate IsNumber(v: Json) {
    v.Number? || v.Fractional?
  }

  function DecimalText(v: Json, s: Spelling): Text
    requires IsNumber(v)
  {
    if v.Number? then NumberText(v.n) else FractionText(v.x, s)
  }

  lemma NumbersCancel(a: Json, b: Json, s: Spelling, t: Spelling, p: Text, q: Text)
    requires IsNumber(a) && IsNumber(b) && Delimited(p) && Delimited(q)
    requires DecimalText(a, s) + p == DecimalText(b, t) + q
    ensures a == b && p == q && (s != t ==> SpeltAlike(a))
  {
    hide NumberText, FractionText;
    NumberSpan(DecimalText(a, s), DecimalText(b, t), p, q);
    if a.Number? && b.Number? {
      NumberTextInjective(a.n, b.n);
    } else if a.Fractional? && b.Fractional? {
      FractionTextDetermines(a.x, s, b.x, t);
    } else if a.Fractional? {
      FractionIsNotPlain(a.x, s, b.n);
    } else {
      FractionIsNotPlain(b.x, t, a.n);
    }
  }

  /** A printed value can be read back from the front of a text, whichever language wrote
      its numbers; if it is read as written by the other one, none is spelt apart. */
  lemma {:induction false} PrintCancels(a: Json, b: Json, s: Spelling, t: Spelling, p: Text, q: Text)
    requires NoUndefined(a) && NoUndefined(b) && Delimited(p) && Delimited(q)
    requires Print(a, s) + p == Print(b, t) + q
    ensures a == b && p == q && (s != t ==> SpeltAlike(a))
    decreases a, 1
  {
    hide Quote, NumberText, FractionText, PrintItems, PrintMembers;
    PrintStart(a, s);
    PrintStart(b, t);
    assert (Print(a, s) + p)[0] == Print(a, s)[0] && (Print(b, t) + q)[0] == Print(b, t)[0];
    match a
    case Null => SplitAt(Print(a, s), Print(b, t), p, q);
    case Bool(_) => SplitAt(Print(a, s), Print(b, t), p, q);
    case Number(_) => NumbersCancel(a, b, s, t, p, q);
    case Fractional(_) => NumbersCancel(a, b, s, t, p, q);
    case Str(u) => QuoteCancels(u, b.s, p, q);
    case Arr(items) =>
      BracketText(LBRACK, PrintItems(items, s), RBRACK, p);
      BracketText(LBRACK, PrintItems(b.items, t), RBRACK, q);
      ItemsCancel(items, b.items, s, t, p, q);
    case Obj(members) =>
      BracketText(LBRACE, PrintMembers(members, s), RBRACE, p);
      BracketText(LBRACE, PrintMembers(b.members, t), RBRACE, q);
      MembersCancel(members, b.members, s, t, p, q);
  }

  lemma BracketText(open: Unit, t: Text, close: Unit, p: Text)
    ensures ([open] + (t + [close])) + p == [open] + (t + ([close] + p))
    ensures (([open] + (t + [close])) + p)[1..] == t + ([close] + p)
  {
  }

  /** The items from here on, up to the closing bracket. */
  function ItemsTail(items: seq<Json>, s: Spelling, p: Text): Text {
    if |items| <= 1 then [RBRACK] + p else [COMMA] + (PrintItems(items[1..], s) + ([RBRACK] + p))
  }

  lemma ItemsHead(items: seq<Json>, s: Spelling, p: Text)
    requires items != []
    ensures PrintItems(items, s) + ([RBRACK] + p) == Print(items[0], s) + ItemsTail(items, s, p)
    ensures Delimited(ItemsTail(items, s, p))
  {
    hide Print;
    if |items| > 1 {
      AppendAssociative(Print(items[0], s), [COMMA] + PrintItems(items[1..], s), [RBRACK] + p);
      AppendAssociative([COMMA], PrintItems(items[1..], s), [RBRACK] + p);
    }
  }

  lemma ItemsStart(items: seq<Json>, s: Spelling, p: Text)
    ensures (PrintItems(items, s) + ([RBRACK] + p))[0] == RBRACK <==> items == []
    ensures items == [] ==> PrintItems(items, s) + ([RBRACK] + p) == [RBRACK] + p
  {
    if items != [] {
      PrintStart(items[0], s);
      ItemsHead(items, s, p);
      assert (Print(items[0], s) + ItemsTail(items, s, p))[0] == Print(items[0], s)[0];
    }
  }

  lemma {:induction false} ItemsCancel(a: seq<Json>, b: seq<Json>, s: Spelling, t: Spelling, p: Text, q: Text)
    requires forall i :: 0 <= i < |a| ==> NoUndefined(a[i])
    requires forall i :: 0 <= i < |b| ==> NoUndefined(b[i])
    requires PrintItems(a, s) + ([RBRACK] + p) == PrintItems(b, t) + ([RBRACK] + q)
    ensures a == b && p == q && (s != t ==> forall i :: 0 <= i < |a| ==> SpeltAlike(a[i]))
    decreases a, 0
  {
    hide PrintItems, Print, SpeltAlike, NoUndefined;
    ItemsStart(a, s, p);
    ItemsStart(b, t, q);
    if a == [] || b == [] {
      assert ([RBRACK] + p)[1..] == p && ([RBRACK] + q)[1..] == q;
    } else {
      ItemsHead(a, s, p);
      ItemsHead(b, t, q);
      PrintCancels(a[0], b[0], s, t, ItemsTail(a, s, p), ItemsTail(b, t, q));
      assert ItemsTail(a, s, p)[0] == ItemsTail(b, t, q)[0];
      assert ItemsTail(a, s, p)[1..] == ItemsTail(b, t, q)[1..];
      if |a| > 1 {
        var x, y := PrintItems(a[1..], s) + ([RBRACK] + p), PrintItems(b[1..], t) + ([RBRACK] + q);
        assert ([COMMA] + x)[1..] == x && ([COMMA] + y)[1..] == y;
        ItemsCancel(a[1..], b[1..], s, t, p, q);
        assert a == [a[0]] + a[1..] && b == [b[0]] + b[1..];
      } else {
        assert ([RBRACK] + p)[1..] == p && ([RBRACK] + q)[1..] == q;
        assert a == [a[0]] && b == [b[0]];
      }
    }
  }

  lemma {:induction false} MemberCancels(a: Member, b: Member, s: Spelling, t: Spelling, p: Text, q: Text)
    requires NoUndefined(a.value) && NoUndefined(b.value) && Delimited(p) && Delimited(q)
    requires PrintMember(a, s) + p == PrintMember(b, t) + q
    ensures a == b && p == q && (s != t ==> SpeltAlike(a.value))
    decreases a, 2
  {
    hide Quote, Print;
    var x, y := [COLON] + (Print(a.value, s) + p), [COLON] + (Print(b.value, t) + q);
    AppendAssociative(Quote(a.key), [COLON] + Print(a.value, s), p);
    AppendAssociative([COLON], Print(a.value, s), p);
    AppendAssociative(Quote(b.key), [COLON] + Print(b.value, t), q);
    AppendAssociative([COLON], Print(b.value, t), q);
    QuoteCancels(a.key, b.key, x, y);
    SplitAt([COLON], [COLON], Print(a.value, s) + p, Print(b.value, t) + q);
    PrintCancels(a.value, b.value, s, t, p, q);
  }

  function MembersTail(ms: seq<Member>, s: Spelling, p: Text): Text {
    if |ms| <= 1 then [RBRACE] + p else [COMMA] + (PrintMembers(ms[1..], s) + ([RBRACE] + p))
  }

  lemma MembersHead(ms: seq<Member>, s: Spelling, p: Text)
    requires ms != []
    ensures PrintMembers(ms, s) + ([RBRACE] + p) == PrintMember(ms[0], s) + MembersTail(ms, s, p)
    ensures Delimited(MembersTail(ms, s, p))
  {
    hide PrintMember;
    if |ms| > 1 {
      AppendAssociative(PrintMember(ms[0], s), [COMMA] + PrintMembers(ms[1..], s), [RBRACE] + p);
      AppendAssociative([COMMA], PrintMembers(ms[1..], s), [RBRACE] + p);
    }
  }

  lemma MembersStart(ms: seq<Member>, s: Spelling, p: Text)
    ensures (PrintMembers(ms, s) + ([RBRACE] + p))[0] == RBRACE <==> ms == []
    ensures ms == [] ==> PrintMembers(ms, s) + ([RBRACE] + p) == [RBRACE] + p
  {
    hide PrintMember;
    if ms != [] {
      MembersHead(ms, s, p);
      assert (PrintMember(ms[0], s) + MembersTail(ms, s, p))[0] == PrintMember(ms[0], s)[0];
    }
  }

  lemma {:induction false} MembersCancel(a: seq<Member>, b: seq<Member>, s: Spelling, t: Spelling, p: Text, q: Text)
    requires forall i :: 0 <= i < |a| ==> NoUndefined(a[i].value)
    requires forall i :: 0 <= i < |b| ==> NoUndefined(b[i].value)
    requires PrintMembers(a, s) + ([RBRACE] + p) == PrintMembers(b, t) + ([RBRACE] + q)
    ensures a == b && p == q && (s != t ==> forall i :: 0 <= i < |a| ==> SpeltAlike(a[i].value))
    decreases a, 0
  {
    hide PrintMembers, PrintMember, SpeltAlike, NoUndefined;
    MembersStart(a, s, p);
    MembersStart(b, t, q);
    if a == [] || b == [] {
      assert ([RBRACE] + p)[1..] == p && ([RBRACE] + q)[1..] == q;
    } else {
      MembersHead(a, s, p);
      MembersHead(b, t, q);
      MemberCancels(a[0], b[0], s, t, MembersTail(a, s, p), MembersTail(b, t, q));
      assert MembersTail(a, s, p)[0] == MembersTail(b, t, q)[0];
      assert MembersTail(a, s, p)[1..] == MembersTail(b, t, q)[1..];
      if |a| > 1 {
        var x, y := PrintMembers(a[1..], s) + ([RBRACE] + p), PrintMembers(b[1..], t) + ([RBRACE] + q);
        assert ([COMMA] + x)[1..] == x && ([COMMA] + y)[1..] == y;
        MembersCancel(a[1..], b[1..], s, t, p, q);
        assert a == [a[0]] + a[1..] && b == [b[0]] + b[1..];
      } else {
        assert ([RBRACE] + p)[1..] == p && ([RBRACE] + q)[1..] == q;
        assert a == [a[0]] && b == [b[0]];
      }
    }
  }

  // ------------------------------------------------------------ sorted members

  lemma {:induction false} LessIrreflexive(a: Text)
    ensures !Less(a, a)
  {
    if a != [] { LessIrreflexive(a[1..]); }
  }

  lemma {:induction false} LessTransitive(a: Text, b: Text, c: Text)
    requires Less(a, b) && Less(b, c)
    ensures Less(a, c)
  {
    if a != [] && a[0] == b[0] == c[0] { LessTransitive(a[1..], b[1..], c[1..]); }
  }

  lemma {:induction false} LessTotal(a: Text, b: Text)
    requires a != b
    ensures Less(a, b) || Less(b, a)
  {
    if a != [] && b != [] && a[0] == b[0] {
      assert a == [a[0]] + a[1..] && b == [b[0]] + b[1..];
      LessTotal(a[1..], b[1..]);
    }
  }

  predicate Sorted(ms: seq<Member>) {
    forall i, j :: 0 <= i < j < |ms| ==> Less(ms[i].key, ms[j].key)
  }

  lemma {:induction false} InsertKeeps(m: Member, ms: seq<Member>)
    ensures forall x :: x in InsertMember(m, ms) <==> x == m || x in ms
  {
    if ms != [] {
      InsertKeeps(m, ms[1..]);
      assert ms == [ms[0]] + ms[1..];
    }
  }

  lemma {:induction false} InsertSorts(m: Member, ms: seq<Member>)
    requires Sorted(ms) && forall x :: x in ms ==> x.key != m.key
    ensures Sorted(InsertMember(m, ms))
  {
    hide Less;
    if ms != [] {
      var rest := ms[1..];
      assert forall x :: x in rest ==> x in ms;
      InsertKeeps(m, rest);
      if Less(m.key, ms[0].key) {
        forall j | 0 <= j < |ms| ensures Less(m.key, ms[j].key) {
          if j > 0 { LessTransitive(m.key, ms[0].key, ms[j].key); }
        }
      } else {
        assert ms[0] in ms;
        LessTotal(m.key, ms[0].key);
        assert Sorted(rest) by {
          assert forall i :: 0 <= i < |rest| ==> rest[i] == ms[i + 1];
        }
        InsertSorts(m, rest);
        var tail := InsertMember(m, rest);
        forall j | 0 <= j < |tail| ensures Less(ms[0].key, tail[j].key) {
          assert tail[j] in tail;
          if tail[j] != m {
            var k :| 0 <= k < |rest| && rest[k] == tail[j];
            assert ms[k + 1] == tail[j];
          }
        }
        SortedCons(ms[0], tail);
      }
    }
  }

  lemma SortedCons(m: Member, ms: seq<Member>)
    requires Sorted(ms) && forall j :: 0 <= j < |ms| ==> Less(m.key, ms[j].key)
    ensures Sorted([m] + ms)
  {
    hide Less;
  }

  lemma {:induction false} SortKeeps(ms: seq<Member>)
    ensures forall x :: x in SortMembers(ms) <==> x in ms
  {
    hide InsertMember;
    if ms != [] {
      SortKeeps(ms[1..]);
      InsertKeeps(ms[0], SortMembers(ms[1..]));
      assert ms == [ms[0]] + ms[1..];
    }
  }

  lemma {:induction false} SortSorts(ms: seq<Member>)
    requires DistinctKeys(ms)
    ensures Sorted(SortMembers(ms))
  {
    hide InsertMember, Less;
    if ms != [] {
      var rest := ms[1..];
      assert DistinctKeys(rest) by {
        assert forall i :: 0 <= i < |rest| ==> rest[i] == ms[i + 1];
      }
      SortSorts(rest);
      SortKeeps(rest);
      forall x | x in SortMembers(rest) ensures x.key != ms[0].key {
        var k :| 0 <= k < |rest| && rest[k] == x;
        assert ms[k + 1] == x;
      }
      InsertSorts(ms[0], SortMembers(rest));
    }
  }

  lemma SortedHead(a: seq<Member>, b: seq<Member>)
    requires a != [] && b != [] && Sorted(a) && Sorted(b) && forall x :: x in a <==> x in b
    ensures a[0] == b[0]
  {
    hide Less;
    assert a[0] in b && b[0] in a;
    var i :| 0 <= i < |b| && b[i] == a[0];
    var j :| 0 <= j < |a| && a[j] == b[0];
    if i > 0 && j > 0 {
      assert Less(b[0].key, a[0].key) && Less(a[0].key, b[0].key);
      LessTransitive(a[0].key, b[0].key, a[0].key);
      LessIrreflexive(a[0].key);
    }
  }

  lemma SortedTail(a: seq<Member>)
    requires a != [] && Sorted(a)
    ensures Sorted(a[1..]) && a[0] !in a[1..]
  {
    hide Less;
    var rest := a[1..];
    assert forall i :: 0 <= i < |rest| ==> rest[i] == a[i + 1];
    LessIrreflexive(a[0].key);
  }

  /** A sorted member list is determined by the members in it. */
  lemma {:induction false} SortedUnique(a: seq<Member>, b: seq<Member>)
    requires Sorted(a) && Sorted(b) && forall x :: x in a <==> x in b
    ensures a == b
  {
    hide Sorted;
    assert a != [] ==> a[0] in a;
    assert b != [] ==> b[0] in b;
    if a != [] && b != [] {
      SortedHead(a, b);
      SortedTail(a);
      SortedTail(b);
      assert a == [a[0]] + a[1..] && b == [b[0]] + b[1..];
      forall x ensures x in a[1..] <==> x in b[1..] {
        assert x in a <==> x == a[0] || x in a[1..];
        assert x in b <==> x == b[0] || x in b[1..];
      }
      SortedUnique(a[1..], b[1..]);
    }
  }

  // ------------------------------------------------------ canonical = equivalent

  lemma {:induction false} CanonHasNoUndefined(v: Json)
    ensures NoUndefined(Canon(v))
  {
    match v
    case Arr(items) =>
      forall i | 0 <= i < |items| ensures NoUndefined(CanonItems(items)[i]) { CanonHasNoUndefined(items[i]); }
    case Obj(members) =>
      var ms := CanonMembers(members);
      SortKeeps(ms);
      forall i | 0 <= i < |ms| ensures NoUndefined(ms[i].value) { CanonHasNoUndefined(members[i].value); }
      forall x | x in SortMembers(ms) ensures NoUndefined(x.value) {
        var k :| 0 <= k < |ms| && ms[k] == x;
      }
    case _ =>
  }

  lemma CanonKeysDistinct(ms: seq<Member>)
    requires DistinctKeys(ms)
    ensures DistinctKeys(CanonMembers(ms)) && Sorted(SortMembers(CanonMembers(ms)))
  {
    SortSorts(CanonMembers(ms));
  }

  /** The members of `xs`, made canonical, are among those of `ys`. */
  lemma MembersIncluded(xs: seq<Member>, ys: seq<Member>)
    requires forall i :: 0 <= i < |xs| ==> HasKey(ys, xs[i].key)
    requires forall i, j :: 0 <= i < |xs| && 0 <= j < |ys| && xs[i].key == ys[j].key ==>
               Canon(xs[i].value) == Canon(ys[j].value)
    ensures forall x :: x in CanonMembers(xs) ==> x in CanonMembers(ys)
  {
    hide Canon;
    forall x | x in CanonMembers(xs) ensures x in CanonMembers(ys) {
      var i :| 0 <= i < |xs| && CanonMembers(xs)[i] == x;
      var j :| 0 <= j < |ys| && ys[j].key == xs[i].key;
      assert CanonMembers(ys)[j] == x;
    }
  }

  lemma MembersFound(xs: seq<Member>, ys: seq<Member>)
    requires DistinctKeys(ys) && forall x :: x in CanonMembers(xs) ==> x in CanonMembers(ys)
    ensures forall i :: 0 <= i < |xs| ==> HasKey(ys, xs[i].key)
    ensures forall i, j :: 0 <= i < |xs| && 0 <= j < |ys| && xs[i].key == ys[j].key ==>
              Canon(xs[i].value) == Canon(ys[j].value)
  {
    hide Canon;
    forall i | 0 <= i < |xs|
      ensures exists j :: 0 <= j < |ys| && ys[j].key == xs[i].key && Canon(ys[j].value) == Canon(xs[i].value)
    {
      assert CanonMembers(xs)[i] in CanonMembers(ys);
      var j :| 0 <= j < |ys| && CanonMembers(ys)[j] == CanonMembers(xs)[i];
    }
  }

  /** Two values have the same canonical form exactly when they are equivalent. */
  lemma {:induction false} CanonIffEquivalent(a: Json, b: Json)
    requires WellFormed(a) && WellFormed(b)
    ensures Canon(a) == Canon(b) <==> Equivalent(a, b)
    decreases a
  {
    hide SortMembers, CanonItems, CanonMembers;
    match (a, b)
    case (Arr(xs), Arr(ys)) =>
      if |xs| == |ys| {
        forall i | 0 <= i < |xs| ensures Canon(xs[i]) == Canon(ys[i]) <==> Equivalent(xs[i], ys[i]) {
          CanonIffEquivalent(xs[i], ys[i]);
        }
        ItemsAlike(xs, ys);
      }
    case (Obj(xs), Obj(ys)) =>
      forall i, j | 0 <= i < |xs| && 0 <= j < |ys|
        ensures Canon(xs[i].value) == Canon(ys[j].value) <==> Equivalent(xs[i].value, ys[j].value)
      {
        CanonIffEquivalent(xs[i].value, ys[j].value);
      }
      ObjectsAlike(xs, ys);
    case _ =>
  }

  lemma ItemsAlike(xs: seq<Json>, ys: seq<Json>)
    requires |xs| == |ys|
    ensures CanonItems(xs) == CanonItems(ys) <==> forall i :: 0 <= i < |xs| ==> Canon(xs[i]) == Canon(ys[i])
  {
    hide Canon;
    if CanonItems(xs) == CanonItems(ys) {
      forall i | 0 <= i < |xs| ensures Canon(xs[i]) == Canon(ys[i]) {
        assert CanonItems(xs)[i] == CanonItems(ys)[i];
      }
    }
  }

  predicate SameValues(xs: seq<Member>, ys: seq<Member>) {
    (forall i :: 0 <= i < |xs| ==> HasKey(ys, xs[i].key)) &&
    (forall j :: 0 <= j < |ys| ==> HasKey(xs, ys[j].key)) &&
    (forall i, j :: 0 <= i < |xs| && 0 <= j < |ys| && xs[i].key == ys[j].key ==>
      Canon(xs[i].value) == Canon(ys[j].value))
  }

  lemma ObjectsAlike(xs: seq<Member>, ys: seq<Member>)
    requires DistinctKeys(xs) && DistinctKeys(ys)
    ensures SortMembers(CanonMembers(xs)) == SortMembers(CanonMembers(ys)) <==> SameValues(xs, ys)
  {
    hide Canon, SortMembers, Sorted, Less;
    var a, b := CanonMembers(xs), CanonMembers(ys);
    CanonKeysDistinct(xs);
    CanonKeysDistinct(ys);
    SortKeeps(a);
    SortKeeps(b);
    if SortMembers(a) == SortMembers(b) {
      MembersFound(xs, ys);
      MembersFound(ys, xs);
    }
    if SameValues(xs, ys) {
      MembersIncluded(xs, ys);
      MembersIncluded(ys, xs);
      SortedUnique(SortMembers(a), SortMembers(b));
    }
  }

  /** `stable` gives equal texts exactly for values equal up to key order. */
  lemma StableIffEquivalent(a: Json, b: Json)
    requires WellFormed(a) && WellFormed(b)
    ensures Stable(a) == Stable(b) <==> Equivalent(a, b)
  {
    hide Print, Stable, Canon;
    StablePrintsCanon(a);
    StablePrintsCanon(b);
    CanonHasNoUndefined(a);
    CanonHasNoUndefined(b);
    CanonIffEquivalent(a, b);
    if Stable(a) == Stable(b) {
      PrintCancels(Canon(a), Canon(b), EcmaScript, EcmaScript, [], []);
    }
  }

  /** `stable` never emits a raw newline. */
  lemma StableHasNoNewline(v: Json)
    ensures NEWLINE !in Stable(v)
  {
    hide Print, Stable, Canon;
    StablePrintsCanon(v);
  }
}
