/** The bytes that are signed (services/risk-engine/src/device-auth.ts:46-51): the
    payload texts in UTF-8. */
module DeviceBytes {
  import opened Collections
  import opened CanonicalJson
  import opened CanonicalJsonProofs
  import opened DevicePayloads
  import opened Fractions
  import opened Utf8

  const LINE_BYTE: Octet := 10

  lemma {:induction false} EncodeHasNoLine(s: Text)
    requires NEWLINE !in s
    ensures LINE_BYTE !in Encode(s)
  {
    if s != [] {
      assert s[0] in s;
      PointHasNoLine(if FirstLength(s) == 1 && IsSurrogate(s[0]) then REPLACEMENT as int else FirstPoint(s));
      assert forall u :: u in s[FirstLength(s)..] ==> u in s;
      EncodeHasNoLine(s[FirstLength(s)..]);
    }
  }

  lemma PointHasNoLine(point: int)
    requires 0 <= point < 0x11_0000 && point != 10
    ensures LINE_BYTE !in EncodePoint(point)
  {
  }

  lemma EncodeLine(s: Text)
    ensures Encode(LINE + s) == [LINE_BYTE] + Encode(s)
  {
    assert (LINE + s)[1..] == s;
  }

  /** A text encodes as its part before a newline, the newline, and the rest. */
  lemma EncodeAroundLine(a: Text, b: Text)
    ensures Encode(a + (LINE + b)) == Encode(a) + ([LINE_BYTE] + Encode(b))
  {
    assert (LINE + b)[0] == NEWLINE;
    EncodeConcat(a, LINE + b);
    EncodeLine(b);
  }

  lemma StablePaired(v: Json)
    ensures Paired(Stable(v)) && Stable(v) != [] && !IsLow(Stable(v)[0])
  {
    hide Print, Stable, Canon;
    StablePrintsCanon(v);
    PrintPaired(Canon(v), EcmaScript);
  }

  // ------------------------------------------------------------------- packets

  function PacketBytes(p: Packet, keyId: Text): Octets {
    Encode(PacketPayload(p, keyId))
  }

  /** What precedes the newline before the key id. */
  function PacketFront(p: Packet): Text {
    Ascii("KINGMAST-EDGE-V1") + (LINE + p.deviceId)
  }

  lemma HeadBytes(p: Packet, keyId: Text)
    ensures Encode(PacketHead(p, keyId)) ==
            Encode(PacketFront(p)) + (([LINE_BYTE] + Encode(keyId)) + Encode(PacketTail(p)))
  {
    hide Ascii, Encode, NumberText;
    var tail := PacketTail(p);
    assert tail[0] == NEWLINE;
    assert PacketHead(p, keyId) == PacketFront(p) + (LINE + (keyId + tail));
    EncodeAroundLine(PacketFront(p), keyId + tail);
    EncodeConcat(keyId, tail);
    ConcatAssociative([LINE_BYTE], Encode(keyId), Encode(tail));
  }

  /** The bytes of two packet payloads are equal exactly when the packets are, up to key
      order, and the key ids are once mended, whatever the ids hold. */
  lemma PacketBytesDetermine(p: Packet, q: Packet, keyId: Text, keyId': Text)
    requires IsPacket(p) && IsPacket(q)
    ensures PacketBytes(p, keyId) == PacketBytes(q, keyId') <==>
            Equivalent(p.json, q.json) && Mend(keyId) == Mend(keyId')
  {
    hide Stable, PacketHead, Equivalent, IsPacket, Paired, Encode, PacketFront, PacketTail, Mend;
    StablePaired(p.json);
    StablePaired(q.json);
    EncodeAroundLine(PacketHead(p, keyId), Stable(p.json));
    EncodeAroundLine(PacketHead(q, keyId'), Stable(q.json));
    HeadBytes(p, keyId);
    HeadBytes(q, keyId');
    SameBytesIff(keyId, keyId');
    if PacketBytes(p, keyId) == PacketBytes(q, keyId') {
      StableHasNoNewline(p.json);
      StableHasNoNewline(q.json);
      EncodeHasNoLine(Stable(p.json));
      EncodeHasNoLine(Stable(q.json));
      LastSplit(LINE_BYTE, Encode(PacketHead(p, keyId)), Encode(PacketHead(q, keyId')),
                Encode(Stable(p.json)), Encode(Stable(q.json)));
      EncodeInjective(Stable(p.json), Stable(q.json));
      SamePacket(p, q);
      SameMiddle(Encode(PacketFront(p)), [LINE_BYTE] + Encode(keyId), [LINE_BYTE] + Encode(keyId'),
                 Encode(PacketTail(p)));
      SameAfter([LINE_BYTE], Encode(keyId), Encode(keyId'));
    } else if Equivalent(p.json, q.json) && Mend(keyId) == Mend(keyId') {
      StableIffEquivalentPackets(p, q);
      SamePacket(p, q);
    }
  }

  lemma StableIffEquivalentPackets(p: Packet, q: Packet)
    requires IsPacket(p) && IsPacket(q)
    ensures Stable(p.json) == Stable(q.json) <==> Equivalent(p.json, q.json)
  {
    hide Stable, Equivalent, HasField;
    StableIffEquivalent(p.json, q.json);
  }

  lemma SamePacket(p: Packet, q: Packet)
    requires IsPacket(p) && IsPacket(q) && Stable(p.json) == Stable(q.json)
    ensures Equivalent(p.json, q.json) && PacketFront(p) == PacketFront(q) && PacketTail(p) == PacketTail(q)
  {
    hide Stable, Equivalent, HasField;
    StableIffEquivalent(p.json, q.json);
    SamePacketFields(p, q);
    SameTail(p, q);
  }

  // ------------------------------------------------------------------- ingress

  function IngressBytes(scope: Scope, deviceId: Text, keyId: Text, timestampMs: int, payload: Json): Octets {
    Encode(IngressPayload(scope, deviceId, keyId, timestampMs, payload))
  }

  /** What precedes the newline before the device id. */
  function IngressFront(scope: Scope): Text {
    Ascii("KINGMAST-INGRESS-V1") + (LINE + ScopeText(scope))
  }

  function IngressHeadBytes(scope: Scope, deviceId: Text): Octets {
    Encode(IngressFront(scope)) + ([LINE_BYTE] + Encode(deviceId))
  }

  /** The bytes, line by line. */
  lemma IngressBytesUnfold(scope: Scope, deviceId: Text, keyId: Text, timestampMs: int, payload: Json)
    ensures IngressBytes(scope, deviceId, keyId, timestampMs, payload) ==
            ((IngressHeadBytes(scope, deviceId) + ([LINE_BYTE] + Encode(keyId))) +
             ([LINE_BYTE] + Encode(NumberText(timestampMs)))) + ([LINE_BYTE] + Encode(Stable(payload)))
  {
    hide Encode, Stable, NumberText, ScopeText, Ascii;
    var start := IngressStart(scope, deviceId);
    assert start == IngressFront(scope) + (LINE + deviceId);
    EncodeAroundLine(IngressFront(scope), deviceId);
    EncodeAroundLine(start, keyId);
    EncodeAroundLine(start + (LINE + keyId), NumberText(timestampMs));
    EncodeAroundLine((start + (LINE + keyId)) + (LINE + NumberText(timestampMs)), Stable(payload));
  }

  lemma FrontBytes(scope: Scope)
    ensures Encode(IngressFront(scope)) ==
            Encode(Ascii("KINGMAST-INGRESS-V1")) + ([LINE_BYTE] + Encode(ScopeText(scope)))
    ensures LINE_BYTE !in Encode(ScopeText(scope))
  {
    hide Encode, ScopeText, Ascii;
    EncodeAroundLine(Ascii("KINGMAST-INGRESS-V1"), ScopeText(scope));
    ScopesDiffer(scope, scope);
    EncodeHasNoLine(ScopeText(scope));
  }

  lemma FrontDetermines(scope: Scope, scope': Scope, deviceId: Text, deviceId': Text)
    requires IngressHeadBytes(scope, deviceId) == IngressHeadBytes(scope', deviceId')
    ensures scope == scope' && Encode(deviceId) == Encode(deviceId')
  {
    hide Encode, ScopeText, Ascii, Paired;
    FrontBytes(scope);
    FrontBytes(scope');
    var head := Encode(Ascii("KINGMAST-INGRESS-V1"));
    var x, y := Encode(ScopeText(scope)), Encode(ScopeText(scope'));
    var a, b := x + ([LINE_BYTE] + Encode(deviceId)), y + ([LINE_BYTE] + Encode(deviceId'));
    RegroupHead(head, x, Encode(deviceId));
    RegroupHead(head, y, Encode(deviceId'));
    SameAfter(head + [LINE_BYTE], a, b);
    FirstSplit(LINE_BYTE, x, y, Encode(deviceId), Encode(deviceId'));
    ScopePaired(scope);
    ScopePaired(scope');
    EncodeInjective(ScopeText(scope), ScopeText(scope'));
    ScopesDiffer(scope, scope');
  }

  lemma RegroupHead(head: Octets, x: Octets, device: Octets)
    ensures (head + ([LINE_BYTE] + x)) + ([LINE_BYTE] + device) ==
            (head + [LINE_BYTE]) + (x + ([LINE_BYTE] + device))
  {
  }

  lemma ScopePaired(scope: Scope)
    ensures Paired(ScopeText(scope))
  {
    PlainPaired(ScopeText(scope));
  }

  /** The last two lines can be split off the bytes, whatever precedes them. */
  lemma SameEnding(a: Octets, b: Octets, timestampMs: int, timestampMs': int, payload: Json, payload': Json)
    requires WellFormed(payload) && WellFormed(payload')
    requires (a + ([LINE_BYTE] + Encode(NumberText(timestampMs)))) + ([LINE_BYTE] + Encode(Stable(payload))) ==
             (b + ([LINE_BYTE] + Encode(NumberText(timestampMs')))) + ([LINE_BYTE] + Encode(Stable(payload')))
    ensures a == b && timestampMs == timestampMs' && Equivalent(payload, payload')
  {
    hide Encode, Stable, NumberText, Equivalent, WellFormed, Paired;
    var x, y := Encode(NumberText(timestampMs)), Encode(NumberText(timestampMs'));
    StableHasNoNewline(payload);
    StableHasNoNewline(payload');
    EncodeHasNoLine(Stable(payload));
    EncodeHasNoLine(Stable(payload'));
    LastSplit(LINE_BYTE, a + ([LINE_BYTE] + x), b + ([LINE_BYTE] + y),
              Encode(Stable(payload)), Encode(Stable(payload')));
    StablePaired(payload);
    StablePaired(payload');
    EncodeInjective(Stable(payload), Stable(payload'));
    StableIffEquivalent(payload, payload');
    NumbersHaveNoNewline(timestampMs);
    NumbersHaveNoNewline(timestampMs');
    EncodeHasNoLine(NumberText(timestampMs));
    EncodeHasNoLine(NumberText(timestampMs'));
    LastSplit(LINE_BYTE, a, b, x, y);
    NumberPaired(timestampMs);
    NumberPaired(timestampMs');
    EncodeInjective(NumberText(timestampMs), NumberText(timestampMs'));
    NumberTextInjective(timestampMs, timestampMs');
  }

  lemma ValidKeyIdText(keyId: Text)
    requires ValidKeyId(keyId)
    ensures Paired(keyId) && NEWLINE !in keyId && REPLACEMENT !in keyId && LINE_BYTE !in Encode(keyId)
  {
    hide Encode;
    PlainPaired(keyId);
    KeyIdsHaveNoNewline(keyId);
    EncodeHasNoLine(keyId);
  }

  /** The bytes of two ingress payloads with valid key ids are equal exactly when all they
      are made of is, the device ids once mended. */
  lemma IngressBytesDetermine(scope: Scope, scope': Scope, deviceId: Text, deviceId': Text, keyId: Text, keyId': Text,
                              timestampMs: int, timestampMs': int, payload: Json, payload': Json)
    requires ValidKeyId(keyId) && ValidKeyId(keyId') && WellFormed(payload) && WellFormed(payload')
    ensures IngressBytes(scope, deviceId, keyId, timestampMs, payload)
            == IngressBytes(scope', deviceId', keyId', timestampMs', payload')
      <==> scope == scope' && Mend(deviceId) == Mend(deviceId') && keyId == keyId' && timestampMs == timestampMs' &&
           Equivalent(payload, payload')
  {
    hide Paired, IngressBytes, IngressHeadBytes, Encode, Equivalent, WellFormed, NumberText, Stable, Mend, ValidKeyId;
    IngressBytesUnfold(scope, deviceId, keyId, timestampMs, payload);
    IngressBytesUnfold(scope', deviceId', keyId', timestampMs', payload');
    SameBytesIff(deviceId, deviceId');
    var a, b := IngressHeadBytes(scope, deviceId), IngressHeadBytes(scope', deviceId');
    if IngressBytes(scope, deviceId, keyId, timestampMs, payload)
       == IngressBytes(scope', deviceId', keyId', timestampMs', payload') {
      SameEnding(a + ([LINE_BYTE] + Encode(keyId)), b + ([LINE_BYTE] + Encode(keyId')), timestampMs, timestampMs',
                 payload, payload');
      ValidKeyIdText(keyId);
      ValidKeyIdText(keyId');
      LastSplit(LINE_BYTE, a, b, Encode(keyId), Encode(keyId'));
      EncodeInjective(keyId, keyId');
      FrontDetermines(scope, scope', deviceId, deviceId');
    } else if Mend(deviceId) == Mend(deviceId') && Equivalent(payload, payload') {
      StableIffEquivalent(payload, payload');
      SameHeadBytes(scope, deviceId, deviceId');
    }
  }

  lemma SameHeadBytes(scope: Scope, deviceId: Text, deviceId': Text)
    requires Encode(deviceId) == Encode(deviceId')
    ensures IngressHeadBytes(scope, deviceId) == IngressHeadBytes(scope, deviceId')
  {
  }

  lemma EquivalentToItself(v: Json)
    requires WellFormed(v)
    ensures Equivalent(v, v)
  {
    hide Stable;
    StableIffEquivalent(v, v);
  }

  /** Another device's payload, alike in all else, with the same bytes. */
  predicate SharesBytes(scope: Scope, other: Text, deviceId: Text, keyId: Text, timestampMs: int, payload: Json) {
    other != deviceId &&
    IngressBytes(scope, other, keyId, timestampMs, payload) ==
    IngressBytes(scope, deviceId, keyId, timestampMs, payload)
  }

  lemma SharesBytesIff(scope: Scope, other: Text, deviceId: Text, keyId: Text, timestampMs: int, payload: Json)
    requires ValidKeyId(keyId) && WellFormed(payload)
    ensures SharesBytes(scope, other, deviceId, keyId, timestampMs, payload) <==> SharesEncoding(other, deviceId)
  {
    hide IngressBytes, Encode, Mend, Equivalent, WellFormed, ValidKeyId;
    EquivalentToItself(payload);
    SameBytesIff(other, deviceId);
    IngressBytesDetermine(scope, scope, other, deviceId, keyId, keyId, timestampMs, timestampMs, payload, payload);
  }

  /** So a device id shares the bytes of every payload with another exactly when it holds
      an unpaired surrogate or the character that replaces one. */
  lemma DeviceIdSharedIff(scope: Scope, deviceId: Text, keyId: Text, timestampMs: int, payload: Json)
    requires ValidKeyId(keyId) && WellFormed(payload)
    ensures (exists other :: SharesBytes(scope, other, deviceId, keyId, timestampMs, payload)) <==>
            !Paired(deviceId) || REPLACEMENT in deviceId
  {
    hide SharesBytes, SharesEncoding, Paired, ValidKeyId;
    BytesSharedIff(deviceId);
    forall other { SharesBytesIff(scope, other, deviceId, keyId, timestampMs, payload); }
  }

  /** No ingress payload has the bytes of a packet payload, whatever they hold: what was
      signed as the one never passes for the other. */
  lemma PacketIsNoIngress(p: Packet, key: Text, scope: Scope, deviceId: Text, keyId: Text, timestampMs: int,
                          payload: Json)
    ensures PacketBytes(p, key) != IngressBytes(scope, deviceId, keyId, timestampMs, payload)
  {
    hide Encode, Stable, NumberText, ScopeText, Ascii;
    var edge, ingress := Ascii("KINGMAST-EDGE-V1"), Ascii("KINGMAST-INGRESS-V1");
    var a := (p.deviceId + LINE) + (key + PacketTail(p)) + (LINE + Stable(p.json));
    var b := ScopeText(scope) + (LINE + deviceId) + (LINE + keyId) + (LINE + NumberText(timestampMs)) +
             (LINE + Stable(payload));
    assert PacketPayload(p, key) == edge + (LINE + a);
    assert IngressPayload(scope, deviceId, keyId, timestampMs, payload) == ingress + (LINE + b);
    EncodeAroundLine(edge, a);
    EncodeAroundLine(ingress, b);
    TitlesDiffer("KINGMAST-EDGE-V1", "KINGMAST-INGRESS-V1");
    if Encode(edge) + ([LINE_BYTE] + Encode(a)) == Encode(ingress) + ([LINE_BYTE] + Encode(b)) {
      FirstSplit(LINE_BYTE, Encode(edge), Encode(ingress), Encode(a), Encode(b));
    }
  }

  lemma AsciiLine(s: string)
    requires forall i :: 0 <= i < |s| ==> s[i] < '\U{80}' && s[i] != '\n'
    ensures Paired(Ascii(s)) && LINE_BYTE !in Encode(Ascii(s))
  {
    hide Encode, Paired;
    assert forall u :: u in Ascii(s) ==> u < 128 && u != NEWLINE;
    PlainPaired(Ascii(s));
    EncodeHasNoLine(Ascii(s));
  }

  lemma TitlesDiffer(a: string, b: string)
    requires forall i :: 0 <= i < |a| ==> a[i] < '\U{80}' && a[i] != '\n'
    requires forall i :: 0 <= i < |b| ==> b[i] < '\U{80}' && b[i] != '\n'
    requires |a| != |b|
    ensures var x, y := Encode(Ascii(a)), Encode(Ascii(b)); x != y && LINE_BYTE !in x && LINE_BYTE !in y
  {
    hide Encode, Paired;
    AsciiLine(a);
    AsciiLine(b);
    if Encode(Ascii(a)) == Encode(Ascii(b)) { EncodeInjective(Ascii(a), Ascii(b)); }
  }

  // ---------------------------------------------------------------- key ids

  /** A newline, and a key id of the legal form after it. */
  predicate EndsInKeyId(keyId: Text, front: Text, last: Text) {
    keyId == front + (LINE + last) && ValidKeyId(last)
  }

  lemma {:induction false} LastNewline(s: Text) returns (front: Text, last: Text)
    requires NEWLINE in s
    ensures s == front + (LINE + last) && NEWLINE !in last
  {
    var n := |s| - 1;
    if s[n] == NEWLINE {
      front, last := s[..n], [];
    } else {
      assert s == s[..n] + [s[n]];
      var shorter;
      front, shorter := LastNewline(s[..n]);
      last := shorter + [s[n]];
    }
  }

  /** Bytes that agree after a valid key id's newline: the other key id is that one or
      ends in it. */
  lemma KeyIdOfBytes(a: Octets, b: Octets, keyId: Text, valid: Text)
    requires ValidKeyId(valid) && keyId != valid
    requires a + ([LINE_BYTE] + Encode(keyId)) == b + ([LINE_BYTE] + Encode(valid))
    ensures exists front, last :: EndsInKeyId(keyId, front, last)
  {
    hide Encode, ValidKeyId, Paired;
    ValidKeyIdText(valid);
    if NEWLINE in keyId {
      var front, last := LastNewline(keyId);
      EncodeAroundLine(front, last);
      EncodeHasNoLine(last);
      var c := a + ([LINE_BYTE] + Encode(front));
      assert a + ([LINE_BYTE] + (Encode(front) + ([LINE_BYTE] + Encode(last)))) == c + ([LINE_BYTE] + Encode(last));
      LastSplit(LINE_BYTE, c, b, Encode(last), Encode(valid));
      UnsharedBytes(last, valid);
      assert EndsInKeyId(keyId, front, last);
    } else {
      EncodeHasNoLine(keyId);
      LastSplit(LINE_BYTE, a, b, Encode(keyId), Encode(valid));
      UnsharedBytes(keyId, valid);
      assert false;
    }
  }

  /** A legal key id, and a device id for each, that give the same bytes. */
  predicate PassesFor(scope: Scope, keyId: Text, timestampMs: int, payload: Json,
                      deviceId: Text, deviceId': Text, keyId': Text)
  {
    ValidKeyId(keyId') && keyId' != keyId &&
    IngressBytes(scope, deviceId, keyId, timestampMs, payload) ==
    IngressBytes(scope, deviceId', keyId', timestampMs, payload)
  }

  lemma PassesOnlyAtEnd(scope: Scope, keyId: Text, timestampMs: int, payload: Json,
                        deviceId: Text, deviceId': Text, keyId': Text)
    requires WellFormed(payload) && PassesFor(scope, keyId, timestampMs, payload, deviceId, deviceId', keyId')
    ensures exists front, last :: EndsInKeyId(keyId, front, last)
  {
    hide IngressBytes, IngressHeadBytes, Encode, ValidKeyId, Stable, NumberText, WellFormed, EndsInKeyId;
    IngressBytesUnfold(scope, deviceId, keyId, timestampMs, payload);
    IngressBytesUnfold(scope, deviceId', keyId', timestampMs, payload);
    var a, b := IngressHeadBytes(scope, deviceId), IngressHeadBytes(scope, deviceId');
    SameEnding(a + ([LINE_BYTE] + Encode(keyId)), b + ([LINE_BYTE] + Encode(keyId')), timestampMs, timestampMs,
               payload, payload);
    KeyIdOfBytes(a, b, keyId, keyId');
  }

  lemma EndPasses(scope: Scope, keyId: Text, timestampMs: int, payload: Json, front: Text, last: Text)
    requires EndsInKeyId(keyId, front, last)
    ensures PassesFor(scope, keyId, timestampMs, payload, [], [] + (LINE + front), last) && !ValidKeyId(keyId)
  {
    hide Encode, Stable, NumberText, IngressPayload;
    NewlineInKeyIdCollides(scope, timestampMs, payload, [], front, last);
    assert |keyId| > |last|;
  }

  /** Which key ids, if they were not checked against the pattern, could pass for a legal
      one: exactly those that end in a newline and a legal one. The pattern excludes
      them all. */
  lemma KeyIdConfusedIff(scope: Scope, keyId: Text, timestampMs: int, payload: Json)
    requires WellFormed(payload)
    ensures (exists deviceId, deviceId', keyId' ::
              PassesFor(scope, keyId, timestampMs, payload, deviceId, deviceId', keyId'))
      <==> exists front, last :: EndsInKeyId(keyId, front, last)
    ensures (exists front, last :: EndsInKeyId(keyId, front, last)) ==> !ValidKeyId(keyId)
  {
    hide PassesFor, EndsInKeyId, ValidKeyId, WellFormed;
    if deviceId, deviceId', keyId' :| PassesFor(scope, keyId, timestampMs, payload, deviceId, deviceId', keyId') {
      PassesOnlyAtEnd(scope, keyId, timestampMs, payload, deviceId, deviceId', keyId');
    }
    if front, last :| EndsInKeyId(keyId, front, last) {
      EndPasses(scope, keyId, timestampMs, payload, front, last);
    }
  }
}
