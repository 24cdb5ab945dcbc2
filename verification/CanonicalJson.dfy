/** The canonical text that devices sign
    (services/risk-engine/src/device-auth.ts:34-39), over UTF-16 code units: JSON
    (RFC 8259 sections 4-7) with object keys sorted by code unit. */
module CanonicalJson {
  import opened Decimals
  import opened Fractions

  newtype Unit = x: int | 0 <= x < 0x1_0000
  type Text = seq<Unit>

  datatype Member = Member(key: Text, value: Json)

  datatype Json =
    | Undefined
    | Null
    | Bool(b: bool)
    /** A whole number that is written as a plain integer. */
    | Number(n: int)
    | Fractional(x: Fraction)
    | Str(s: Text)
    | Arr(items: seq<Json>)
    | Obj(members: seq<Member>)

  const QUOTE: Unit := 34
  const COMMA: Unit := 44
  const COLON: Unit := 58
  const LBRACK: Unit := 91
  const BACKSLASH: Unit := 92
  const RBRACK: Unit := 93
  const LBRACE: Unit := 123
  const RBRACE: Unit := 125
  const NEWLINE: Unit := 10

  // --------------------------------------------------------------- strings

  predicate IsHigh(u: Unit) { 0xD800 <= u < 0xDC00 }
  predicate IsLow(u: Unit) { 0xDC00 <= u < 0xE000 }

  function HexDigit(d: Unit): Unit
    requires d < 16
  {
    if d < 10 then 48 + d else 87 + d
  }

  function Hex4(u: Unit): Text {
    [HexDigit(u / 4096), HexDigit(u / 256 % 16), HexDigit(u / 16 % 16), HexDigit(u % 16)]
  }

  /** A code unit outside a surrogate pair, as `JSON.stringify` writes it. */
  function EscapeUnit(u: Unit): Text {
    if u == QUOTE || u == BACKSLASH then [BACKSLASH, u]
    else if u == 8 then [BACKSLASH, 98]
    else if u == 9 then [BACKSLASH, 116]
    else if u == 10 then [BACKSLASH, 110]
    else if u == 12 then [BACKSLASH, 102]
    else if u == 13 then [BACKSLASH, 114]
    else if u < 32 || IsHigh(u) || IsLow(u) then [BACKSLASH, 117] + Hex4(u)
    else [u]
  }

  /** Length of the first character: a surrogate pair counts as one. */
  function FirstLength(s: Text): nat
    requires s != []
  {
    if |s| > 1 && IsHigh(s[0]) && IsLow(s[1]) then 2 else 1
  }

  function EscapeFirst(s: Text): (t: Text)
    requires s != []
    ensures t != [] && t[0] != QUOTE && NEWLINE !in t
  {
    if FirstLength(s) == 2 then [s[0], s[1]] else EscapeUnit(s[0])
  }

  function Escape(s: Text): (t: Text)
    ensures NEWLINE !in t
  {
    if s == [] then [] else EscapeFirst(s) + Escape(s[FirstLength(s)..])
  }

  function Quote(s: Text): (t: Text)
    ensures t != [] && t[0] == QUOTE && NEWLINE !in t
  {
    [QUOTE] + (Escape(s) + [QUOTE])
  }

  // ---------------------------------------------------------------- sorting

  /** Order of JavaScript's default sort: code unit by code unit. */
  predicate Less(a: Text, b: Text) {
    if b == [] then false
    else if a == [] then true
    else a[0] < b[0] || (a[0] == b[0] && Less(a[1..], b[1..]))
  }

  function InsertMember(m: Member, sorted: seq<Member>): seq<Member> {
    if sorted == [] then [m]
    else if Less(m.key, sorted[0].key) then [m] + sorted
    else [sorted[0]] + InsertMember(m, sorted[1..])
  }

  function SortMembers(ms: seq<Member>): seq<Member> {
    if ms == [] then [] else InsertMember(ms[0], SortMembers(ms[1..]))
  }

  // --------------------------------------------------------------- printing

  predicate IsNumberUnit(u: Unit) {
    48 <= u <= 57 || u == 45 || u == 43 || u == 46 || u == 101
  }

  function NumberText(n: int): (t: Text)
    ensures t != [] && forall i :: 0 <= i < |t| ==> 48 <= t[i] <= 57 || t[i] == 45
  {
    Ascii(Integer(n))
  }

  function Ascii(s: string): (t: Text)
    requires forall i :: 0 <= i < |s| ==> s[i] < '\U{80}'
    ensures |t| == |s| && forall i :: 0 <= i < |s| ==> t[i] == (s[i] as int) as Unit
  {
    seq(|s|, i requires 0 <= i < |s| => (s[i] as int) as Unit)
  }

  function FractionText(x: Fraction, s: Spelling): (t: Text)
    ensures t != [] && (48 <= t[0] <= 57 || t[0] == 45) && forall i :: 0 <= i < |t| ==> IsNumberUnit(t[i])
  {
    SpellUnits(x, s);
    hide Spell;
    Ascii(Spell(x, s))
  }

  /** JSON text with members in the order given, numbers as one language writes them. */
  function Print(v: Json, s: Spelling): (t: Text)
    ensures t != [] && NEWLINE !in t
    decreases v, 1
  {
    match v
    case Undefined => [110, 117, 108, 108]
    case Null => [110, 117, 108, 108]
    case Bool(b) => if b then [116, 114, 117, 101] else [102, 97, 108, 115, 101]
    case Number(n) => NumberText(n)
    case Fractional(x) => FractionText(x, s)
    case Str(t) => Quote(t)
    case Arr(items) => [LBRACK] + (PrintItems(items, s) + [RBRACK])
    case Obj(members) => [LBRACE] + (PrintMembers(members, s) + [RBRACE])
  }

  function PrintItems(items: seq<Json>, s: Spelling): (t: Text)
    ensures NEWLINE !in t
    decreases items, 0
  {
    if items == [] then []
    else if |items| == 1 then Print(items[0], s)
    else Print(items[0], s) + ([COMMA] + PrintItems(items[1..], s))
  }

  function PrintMember(m: Member, s: Spelling): (t: Text)
    ensures t != [] && t[0] == QUOTE && NEWLINE !in t
    decreases m, 0
  {
    Quote(m.key) + ([COLON] + Print(m.value, s))
  }

  function PrintMembers(ms: seq<Member>, s: Spelling): (t: Text)
    ensures NEWLINE !in t
    decreases ms, 0
  {
    if ms == [] then []
    else if |ms| == 1 then PrintMember(ms[0], s)
    else PrintMember(ms[0], s) + ([COMMA] + PrintMembers(ms[1..], s))
  }

  /** The value with every object's keys sorted and every undefined value null: what
      `stable` in effect prints. */
  function Canon(v: Json): Json
    decreases v, 1
  {
    match v
    case Undefined => Null
    case Arr(items) => Arr(CanonItems(items))
    case Obj(members) => Obj(SortMembers(CanonMembers(members)))
    case _ => v
  }

  function CanonItems(items: seq<Json>): (r: seq<Json>)
    ensures |r| == |items| && forall i :: 0 <= i < |items| ==> r[i] == Canon(items[i])
    decreases items, 0
  {
    if items == [] then [] else [Canon(items[0])] + CanonItems(items[1..])
  }

  function CanonMembers(ms: seq<Member>): (r: seq<Member>)
    ensures |r| == |ms|
    ensures forall i :: 0 <= i < |ms| ==> r[i] == Member(ms[i].key, Canon(ms[i].value))
    decreases ms, 0
  {
    if ms == [] then [] else [Member(ms[0].key, Canon(ms[0].value))] + CanonMembers(ms[1..])
  }

  /** `stable` as written: the keys are sorted, and each member's value is rendered
      in turn. */
  function Stable(v: Json): (t: Text)
    decreases v, 1
  {
    match v
    case Arr(items) => [LBRACK] + (Join(StableItems(items)) + [RBRACK])
    case Obj(members) => [LBRACE] + (Join(StableSorted(members)) + [RBRACE])
    case _ => Print(v, EcmaScript)
  }

  function StableItems(items: seq<Json>): (r: seq<Text>)
    ensures |r| == |items| && forall i :: 0 <= i < |items| ==> r[i] == Stable(items[i])
    decreases items, 0
  {
    if items == [] then [] else [Stable(items[0])] + StableItems(items[1..])
  }

  /** A key with the text of its member: sorted by key, then the keys are dropped. */
  datatype Piece = Piece(key: Text, text: Text)

  function Pieces(ms: seq<Member>): (r: seq<Piece>)
    ensures |r| == |ms|
    ensures forall i :: 0 <= i < |ms| ==> r[i] == Piece(ms[i].key, Quote(ms[i].key) + ([COLON] + Stable(ms[i].value)))
    decreases ms, 0
  {
    if ms == [] then []
    else [Piece(ms[0].key, Quote(ms[0].key) + ([COLON] + Stable(ms[0].value)))] + Pieces(ms[1..])
  }

  function StableSorted(ms: seq<Member>): seq<Text>
    decreases ms, 1
  {
    Texts(SortPieces(Pieces(ms)))
  }

  function InsertPiece(m: Piece, sorted: seq<Piece>): seq<Piece> {
    if sorted == [] then [m]
    else if Less(m.key, sorted[0].key) then [m] + sorted
    else [sorted[0]] + InsertPiece(m, sorted[1..])
  }

  function SortPieces(ps: seq<Piece>): seq<Piece> {
    if ps == [] then [] else InsertPiece(ps[0], SortPieces(ps[1..]))
  }

  function Texts(ps: seq<Piece>): seq<Text> {
    if ps == [] then [] else [ps[0].text] + Texts(ps[1..])
  }

  /** `join(',')`. */
  function Join(ts: seq<Text>): Text {
    if ts == [] then [] else if |ts| == 1 then ts[0] else ts[0] + ([COMMA] + Join(ts[1..]))
  }

  // ------------------------------------------------------------- equivalence

  predicate DistinctKeys(ms: seq<Member>) {
    forall i, j :: 0 <= i < j < |ms| ==> ms[i].key != ms[j].key
  }

  /** Objects hold each key once, as JavaScript's do. */
  predicate WellFormed(v: Json) {
    match v
    case Arr(items) => forall i :: 0 <= i < |items| ==> WellFormed(items[i])
    case Obj(members) => DistinctKeys(members) && forall i :: 0 <= i < |members| ==> WellFormed(members[i].value)
    case _ => true
  }

  predicate HasKey(ms: seq<Member>, key: Text) {
    exists i :: 0 <= i < |ms| && ms[i].key == key
  }

  /** Equal up to the order of object keys, undefined standing for null. */
  predicate Equivalent(a: Json, b: Json)
    decreases a
  {
    match (a, b)
    case (Arr(xs), Arr(ys)) => |xs| == |ys| && forall i :: 0 <= i < |xs| ==> Equivalent(xs[i], ys[i])
    case (Obj(xs), Obj(ys)) =>
      (forall i :: 0 <= i < |xs| ==> HasKey(ys, xs[i].key)) &&
      (forall j :: 0 <= j < |ys| ==> HasKey(xs, ys[j].key)) &&
      (forall i, j :: 0 <= i < |xs| && 0 <= j < |ys| && xs[i].key == ys[j].key ==> Equivalent(xs[i].value, ys[j].value))
    case _ => a == b || ((a.Null? || a.Undefined?) && (b.Null? || b.Undefined?))
  }
}
