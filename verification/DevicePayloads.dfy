/** The texts devices sign (services/risk-engine/src/device-auth.ts:46-51). What their
    bytes determine is in `DeviceBytes`. */
module DevicePayloads {
  import opened Collections
  import opened CanonicalJson
  import opened CanonicalJsonProofs

  const LINE: Text := [NEWLINE]

  /** A telemetry packet: the JSON object that is signed, and the four fields of it
      that the payload repeats. */
  datatype Packet = Packet(deviceId: Text, bootId: Text, sequence: int, timestampMs: int, json: Json)

  predicate HasField(ms: seq<Member>, name: string, value: Json)
    requires forall i :: 0 <= i < |name| ==> name[i] < '\U{80}'
  {
    exists i :: 0 <= i < |ms| && ms[i] == Member(Ascii(name), value)
  }

  predicate IsPacket(p: Packet) {
    p.json.Obj? && WellFormed(p.json) &&
    HasField(p.json.members, "deviceId", Str(p.deviceId)) && HasField(p.json.members, "bootId", Str(p.bootId)) &&
    HasField(p.json.members, "sequence", Number(p.sequence)) &&
    HasField(p.json.members, "timestampMs", Number(p.timestampMs))
  }

  function PacketTail(p: Packet): Text {
    LINE + (p.bootId + (LINE + (NumberText(p.sequence) + (LINE + NumberText(p.timestampMs)))))
  }

  function PacketHead(p: Packet, keyId: Text): Text {
    (Ascii("KINGMAST-EDGE-V1") + (LINE + (p.deviceId + LINE))) + (keyId + PacketTail(p))
  }

  function PacketPayload(p: Packet, keyId: Text): Text {
    PacketHead(p, keyId) + (LINE + Stable(p.json))
  }

  datatype Scope =
    | PerceptionCamera | PerceptionRadar | EdgeGnss | AssistLane | AssistDms | AssistSurround

  function ScopeText(s: Scope): Text {
    match s
    case PerceptionCamera => Ascii("perception:camera")
    case PerceptionRadar => Ascii("perception:radar")
    case EdgeGnss => Ascii("edge:gnss")
    case AssistLane => Ascii("assist:lane")
    case AssistDms => Ascii("assist:dms")
    case AssistSurround => Ascii("assist:surround")
  }

  function IngressStart(scope: Scope, deviceId: Text): Text {
    (Ascii("KINGMAST-INGRESS-V1") + LINE) + (ScopeText(scope) + (LINE + deviceId))
  }

  function IngressPayload(scope: Scope, deviceId: Text, keyId: Text, timestampMs: int, payload: Json): Text {
    ((IngressStart(scope, deviceId) + (LINE + keyId)) + (LINE + NumberText(timestampMs))) + (LINE + Stable(payload))
  }

  predicate KeyIdUnit(u: Unit) {
    48 <= u <= 57 || 65 <= u <= 90 || 97 <= u <= 122 || u == 46 || u == 95 || u == 58 || u == 45
  }

  /** What every verified key id matches. */
  predicate ValidKeyId(keyId: Text) {
    1 <= |keyId| <= 96 && forall i :: 0 <= i < |keyId| ==> KeyIdUnit(keyId[i])
  }

  // ------------------------------------------------------------ line splitting

  lemma NumbersHaveNoNewline(n: int)
    ensures NEWLINE !in NumberText(n)
  {
  }

  lemma KeyIdsHaveNoNewline(keyId: Text)
    requires ValidKeyId(keyId)
    ensures NEWLINE !in keyId
  {
  }

  lemma ScopesDiffer(s: Scope, t: Scope)
    ensures NEWLINE !in ScopeText(s)
    ensures ScopeText(s) == ScopeText(t) ==> s == t
  {
    var a, b := ScopeText(s), ScopeText(t);
    if a == b {
      assert a[0] == b[0] && a[1] == b[1] && a[7] == b[7];
      assert |a| > 11 && |b| > 11 ==> a[11] == b[11];
    }
  }

  // ------------------------------------------------------- what is determined

  lemma FieldsAgree(xs: seq<Member>, ys: seq<Member>, name: string, a: Json, b: Json)
    requires forall i :: 0 <= i < |name| ==> name[i] < '\U{80}'
    requires HasField(xs, name, a) && HasField(ys, name, b) && Equivalent(Obj(xs), Obj(ys))
    requires a.Str? || a.Number?
    ensures a == b
  {
    hide Ascii;
    var i :| 0 <= i < |xs| && xs[i] == Member(Ascii(name), a);
    var j :| 0 <= j < |ys| && ys[j] == Member(Ascii(name), b);
    assert Equivalent(xs[i].value, ys[j].value);
  }

  lemma SamePacketFields(p: Packet, q: Packet)
    requires IsPacket(p) && IsPacket(q) && Equivalent(p.json, q.json)
    ensures p.deviceId == q.deviceId && p.bootId == q.bootId
    ensures p.sequence == q.sequence && p.timestampMs == q.timestampMs
  {
    hide Equivalent, HasField, Ascii, WellFormed;
    var xs, ys := p.json.members, q.json.members;
    FieldsAgree(xs, ys, "deviceId", Str(p.deviceId), Str(q.deviceId));
    FieldsAgree(xs, ys, "bootId", Str(p.bootId), Str(q.bootId));
    FieldsAgree(xs, ys, "sequence", Number(p.sequence), Number(q.sequence));
    FieldsAgree(xs, ys, "timestampMs", Number(p.timestampMs), Number(q.timestampMs));
  }

  lemma SameTail(p: Packet, q: Packet)
    requires p.bootId == q.bootId && p.sequence == q.sequence && p.timestampMs == q.timestampMs
    ensures PacketTail(p) == PacketTail(q)
  {
  }

  /** The key id test is what the ingress payload relies on: with a newline in a key
      id, two different (device, key) pairs share one payload. */
  lemma NewlineInKeyIdCollides(scope: Scope, timestampMs: int, payload: Json, a: Text, b: Text, c: Text)
    ensures IngressPayload(scope, a + (LINE + b), c, timestampMs, payload)
            == IngressPayload(scope, a, b + (LINE + c), timestampMs, payload)
    ensures a + (LINE + b) != a && !ValidKeyId(b + (LINE + c))
  {
    hide Stable, NumberText, ScopeText, Ascii;
    var front := Ascii("KINGMAST-INGRESS-V1") + LINE;
    var x, y := IngressStart(scope, a + (LINE + b)) + (LINE + c), IngressStart(scope, a) + (LINE + (b + (LINE + c)));
    assert ScopeText(scope) + (LINE + (a + (LINE + b))) == (ScopeText(scope) + (LINE + a)) + (LINE + b);
    assert x == IngressStart(scope, a) + (LINE + b) + (LINE + c);
    assert x == y;
    assert (b + (LINE + c))[|b|] == NEWLINE;
    assert |a + (LINE + b)| > |a|;
  }
}
