/** A decoder of UTF-8 written from section 3 of RFC 3629, with nothing in common with the
    encoder: what it makes of the bytes that are signed
    (services/risk-engine/src/device-auth.ts:46-51). */
module Utf8Reader {
  import opened Collections
  import opened CanonicalJson
  import opened Utf8

  predicate Continues(b: Octet) {
    0x80 <= b <= 0xBF
  }

  /** The code point of the first sequence of bytes, with its length. Overlong forms,
      surrogates and points past the last are no UTF-8. */
  function FirstOf(bytes: Octets): (r: Option<(int, nat)>)
    requires bytes != []
    ensures r.Some? ==> 1 <= r.value.1 <= |bytes|
  {
    var a := bytes[0] as int;
    if a < 0x80 then Some((a, 1))
    else if |bytes| < 2 || !Continues(bytes[1]) then None
    else
      var b := bytes[1] as int - 0x80;
      if 0xC2 <= a <= 0xDF then Some((0x40 * (a - 0xC0) + b, 2))
      else if |bytes| < 3 || !Continues(bytes[2]) then None
      else
        var c := bytes[2] as int - 0x80;
        if 0xE0 <= a <= 0xEF then
          var point := 0x1000 * (a - 0xE0) + 0x40 * b + c;
          if point < 0x800 || 0xD800 <= point <= 0xDFFF then None else Some((point, 3))
        else if |bytes| < 4 || !Continues(bytes[3]) then None
        else
          var point := 0x4_0000 * (a - 0xF0) + 0x1000 * b + 0x40 * c + (bytes[3] as int - 0x80);
          if point < 0x1_0000 || point > 0x10_FFFF || a < 0xF0 then None else Some((point, 4))
  }

  /** A code point in UTF-16 (section 2.1 of RFC 2781). */
  function Utf16(point: int): Text
    requires 0 <= point <= 0x10_FFFF
  {
    if point < 0x1_0000 then [point as Unit]
    else
      var rest := point - 0x1_0000;
      [(0xD800 + rest / 0x400) as Unit, (0xDC00 + rest % 0x400) as Unit]
  }

  lemma PointInRange(bytes: Octets)
    requires bytes != [] && FirstOf(bytes).Some?
    ensures 0 <= FirstOf(bytes).value.0 <= 0x10_FFFF
  {
  }

  function Decode(bytes: Octets): Option<Text> {
    if bytes == [] then Some([])
    else
      match FirstOf(bytes)
      case None => None
      case Some((point, n)) =>
        PointInRange(bytes);
        var rest := Decode(bytes[n..]);
        if rest.None? then None else Some(Utf16(point) + rest.value)
  }

  lemma Digits64(point: int)
    requires 0 <= point
    ensures point == 0x40 * (point / 64) + point % 64
    ensures point / 64 == 0x40 * (point / 4096) + point / 64 % 64
    ensures point / 4096 == 0x40 * (point / 262144) + point / 4096 % 64
  {
    assert point / 64 / 64 == point / 4096 && point / 4096 / 64 == point / 262144;
  }

  lemma PointReadsBack(point: int, rest: Octets)
    requires 0 <= point < 0x11_0000 && !(0xD800 <= point <= 0xDFFF)
    ensures var bytes := EncodePoint(point) + rest;
            FirstOf(bytes) == Some((point, |EncodePoint(point)|)) && bytes[|EncodePoint(point)|..] == rest
  {
    var e := EncodePoint(point);
    var bytes := e + rest;
    Digits64(point);
    assert bytes[0] == e[0] && (|e| > 1 ==> bytes[1] == e[1]) && (|e| > 2 ==> bytes[2] == e[2]) &&
           (|e| > 3 ==> bytes[3] == e[3]);
  }

  /** The code point that the first character is encoded as, and what it reads back to. */
  lemma FirstMended(s: Text)
    requires s != []
    ensures var point := if FirstLength(s) == 1 && IsSurrogate(s[0]) then REPLACEMENT as int else FirstPoint(s);
            0 <= point <= 0x10_FFFF && !(0xD800 <= point <= 0xDFFF) && EncodeFirst(s) == EncodePoint(point) &&
            Utf16(point) == MendFirst(s)
  {
    hide EncodePoint;
    if FirstLength(s) == 2 {
      assert s[..2] == [s[0], s[1]];
    } else {
      assert s[..1] == [s[0]];
    }
  }

  /** The bytes are UTF-8 for the text with its unpaired surrogates replaced. */
  lemma {:induction false} EncodeReadsBack(s: Text)
    ensures Decode(Encode(s)) == Some(Mend(s))
  {
    if s != [] {
      hide EncodePoint, EncodeFirst, MendFirst, FirstOf, Utf16;
      var rest := s[FirstLength(s)..];
      FirstMended(s);
      var point := if FirstLength(s) == 1 && IsSurrogate(s[0]) then REPLACEMENT as int else FirstPoint(s);
      PointReadsBack(point, Encode(rest));
      EncodeReadsBack(rest);
    }
  }

  /** What an unpaired surrogate is encoded as: the bytes of U+FFFD. */
  lemma LoneSurrogateBytes(u: Unit)
    requires 0xD800 <= u < 0xE000
    ensures Encode([u]) == [0xEF, 0xBF, 0xBD] && Decode(Encode([u])) == Some([0xFFFD])
  {
    EncodeReadsBack([u]);
    assert [u][1..] == [] && [u][..1] == [u];
    assert Encode([u]) == EncodeFirst([u]) + Encode([]);
    assert Mend([u]) == MendFirst([u]) + Mend([]) == [REPLACEMENT];
  }
}
