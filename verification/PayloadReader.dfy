/** A reader of the signed payloads, line by line, that shares nothing with their
    printers (services/risk-engine/src/device-auth.ts:46-51). */
module PayloadReader {
  import opened Collections
  import opened CanonicalJson
  import CanonicalJsonProofs
  import opened DevicePayloads
  import JsonReader

  /** The text up to the first line feed, and what follows it if there is one. */
  function Next(text: Text): (r: (Text, Option<Text>))
    ensures r.1.Some? ==> |r.1.value| < |text|
  {
    if text == [] then ([], None)
    else if text[0] == 10 then ([], Some(text[1..]))
    else
      var (line, rest) := Next(text[1..]);
      ([text[0]] + line, rest)
  }

  function Lines(text: Text): seq<Text>
    decreases |text|
  {
    var (line, rest) := Next(text);
    if rest.None? then [line] else [line] + Lines(rest.value)
  }

  lemma {:induction false} NextOf(line: Text, rest: Text)
    requires 10 !in line
    ensures Next(line + ([10] + rest)) == (line, Some(rest))
  {
    var text := line + ([10] + rest);
    if line == [] {
      assert text[1..] == rest;
    } else {
      assert text[1..] == line[1..] + ([10] + rest);
      NextOf(line[1..], rest);
      assert [line[0]] + line[1..] == line;
    }
  }

  lemma {:induction false} NextOfLast(line: Text)
    requires 10 !in line
    ensures Next(line) == (line, None)
  {
    if line != [] {
      NextOfLast(line[1..]);
      assert [line[0]] + line[1..] == line;
    }
  }

  /** Lines one after the other, a line feed between each two. */
  function Stacked(lines: seq<Text>): Text
    requires lines != []
  {
    if |lines| == 1 then lines[0] else lines[0] + ([10] + Stacked(lines[1..]))
  }

  predicate WithoutBreaks(lines: seq<Text>) {
    forall i :: 0 <= i < |lines| ==> 10 !in lines[i]
  }

  lemma {:induction false} StackedReadsBack(lines: seq<Text>)
    requires lines != [] && WithoutBreaks(lines)
    ensures Lines(Stacked(lines)) == lines
  {
    hide Next;
    if |lines| == 1 {
      NextOfLast(lines[0]);
    } else {
      assert WithoutBreaks(lines[1..]);
      NextOf(lines[0], Stacked(lines[1..]));
      StackedReadsBack(lines[1..]);
      assert [lines[0]] + lines[1..] == lines;
    }
  }

  lemma StackSix(a: Text, b: Text, c: Text, d: Text, e: Text, f: Text)
    ensures Stacked([a, b, c, d, e, f]) ==
            a + ([10] + (b + ([10] + (c + ([10] + (d + ([10] + (e + ([10] + f)))))))))
  {
    var l1, l2, l3, l4, l5 := [f], [e, f], [d, e, f], [c, d, e, f], [b, c, d, e, f];
    assert l2[1..] == l1 && l3[1..] == l2 && l4[1..] == l3 && l5[1..] == l4 && [a, b, c, d, e, f][1..] == l5;
    assert Stacked(l2) == e + ([10] + Stacked(l1)) && Stacked(l3) == d + ([10] + Stacked(l2));
    assert Stacked(l4) == c + ([10] + Stacked(l3)) && Stacked(l5) == b + ([10] + Stacked(l4));
  }

  /** The lines of a packet's payload. */
  function PacketLines(p: Packet, keyId: Text): seq<Text> {
    [Ascii("KINGMAST-EDGE-V1"), p.deviceId, keyId, p.bootId, NumberText(p.sequence), NumberText(p.timestampMs),
     Stable(p.json)]
  }

  lemma PacketShape(a: Text, b: Text, c: Text, d: Text, e: Text, f: Text, g: Text)
    ensures ((a + ([10] + (b + [10]))) + (c + ([10] + (d + ([10] + (e + ([10] + f))))))) + ([10] + g) ==
            a + ([10] + (b + ([10] + (c + ([10] + (d + ([10] + (e + ([10] + (f + ([10] + g)))))))))))
  {
  }

  lemma PacketStacked(p: Packet, keyId: Text)
    ensures PacketPayload(p, keyId) == Stacked(PacketLines(p, keyId))
  {
    hide Stable, NumberText, Ascii, Stacked;
    var title, s, t := Ascii("KINGMAST-EDGE-V1"), NumberText(p.sequence), NumberText(p.timestampMs);
    var rest := [p.deviceId, keyId, p.bootId, s, t, Stable(p.json)];
    PacketShape(title, p.deviceId, keyId, p.bootId, s, t, Stable(p.json));
    StackSix(p.deviceId, keyId, p.bootId, s, t, Stable(p.json));
    assert PacketLines(p, keyId) == [title] + rest;
    StackCons(title, rest);
  }

  lemma StackCons(line: Text, rest: seq<Text>)
    requires rest != []
    ensures Stacked([line] + rest) == line + ([10] + Stacked(rest))
  {
    assert ([line] + rest)[1..] == rest;
  }

  lemma TitleOneLine()
    ensures 10 !in Ascii("KINGMAST-EDGE-V1") && 10 !in Ascii("KINGMAST-INGRESS-V1")
  {
  }

  function ScopeName(scope: Scope): string {
    match scope
    case PerceptionCamera => "perception:camera"
    case PerceptionRadar => "perception:radar"
    case EdgeGnss => "edge:gnss"
    case AssistLane => "assist:lane"
    case AssistDms => "assist:dms"
    case AssistSurround => "assist:surround"
  }

  lemma ScopeIsName(scope: Scope)
    ensures ScopeText(scope) == Ascii(ScopeName(scope))
  {
  }

  /** The lines of an ingress payload. */
  function IngressLines(scope: Scope, deviceId: Text, keyId: Text, timestampMs: int, payload: Json): seq<Text> {
    [Ascii("KINGMAST-INGRESS-V1"), Ascii(ScopeName(scope)), deviceId, keyId, NumberText(timestampMs), Stable(payload)]
  }

  lemma IngressShape(a: Text, b: Text, c: Text, d: Text, e: Text, f: Text)
    ensures (((a + [10]) + (b + ([10] + c)) + ([10] + d)) + ([10] + e)) + ([10] + f) ==
            a + ([10] + (b + ([10] + (c + ([10] + (d + ([10] + (e + ([10] + f)))))))))
  {
  }

  lemma IngressStacked(scope: Scope, deviceId: Text, keyId: Text, timestampMs: int, payload: Json)
    ensures IngressPayload(scope, deviceId, keyId, timestampMs, payload) ==
            Stacked(IngressLines(scope, deviceId, keyId, timestampMs, payload))
  {
    hide Stable, NumberText, Ascii, Stacked, ScopeText, ScopeName;
    ScopeIsName(scope);
    var title, s, t := Ascii("KINGMAST-INGRESS-V1"), ScopeText(scope), NumberText(timestampMs);
    IngressShape(title, s, deviceId, keyId, t, Stable(payload));
    StackSix(title, s, deviceId, keyId, t, Stable(payload));
  }

  /** A packet's payload, read line by line: the title, the four fields it repeats and
      the key id, then JSON for the packet. */
  lemma PacketReads(p: Packet, keyId: Text) returns (w: Json)
    requires IsPacket(p) && 10 !in keyId && 10 !in p.deviceId && 10 !in p.bootId
    ensures var lines := Lines(PacketPayload(p, keyId));
            |lines| == 7 && lines[..6] == PacketLines(p, keyId)[..6] &&
            JsonReader.Read(lines[6]) == Some(JsonReader.Meaning(w)) && Equivalent(w, p.json)
  {
    hide Stable, NumberText, Ascii, WellFormed, HasField, Lines, Stacked, Equivalent, PacketPayload, JsonReader.Read,
      JsonReader.Meaning;
    w := JsonReader.StableIsJson(p.json);
    TitleOneLine();
    CanonicalJsonProofs.StableHasNoNewline(p.json);
    NumbersHaveNoNewline(p.sequence);
    NumbersHaveNoNewline(p.timestampMs);
    PacketStacked(p, keyId);
    StackedReadsBack(PacketLines(p, keyId));
  }

  /** An ingress payload, read line by line: the title, scope, device, key id and time,
      then JSON for what is sent. */
  lemma IngressReads(scope: Scope, deviceId: Text, keyId: Text, timestampMs: int, payload: Json) returns (w: Json)
    requires WellFormed(payload) && 10 !in keyId && 10 !in deviceId
    ensures var lines := Lines(IngressPayload(scope, deviceId, keyId, timestampMs, payload));
            |lines| == 6 && lines[..5] == IngressLines(scope, deviceId, keyId, timestampMs, payload)[..5] &&
            JsonReader.Read(lines[5]) == Some(JsonReader.Meaning(w)) && Equivalent(w, payload)
  {
    hide Stable, NumberText, Ascii, WellFormed, Lines, Stacked, Equivalent, IngressPayload, ScopeText, ScopeName,
      JsonReader.Read, JsonReader.Meaning;
    w := JsonReader.StableIsJson(payload);
    TitleOneLine();
    ScopeIsName(scope);
    ScopesDiffer(scope, scope);
    CanonicalJsonProofs.StableHasNoNewline(payload);
    NumbersHaveNoNewline(timestampMs);
    IngressStacked(scope, deviceId, keyId, timestampMs, payload);
    StackedReadsBack(IngressLines(scope, deviceId, keyId, timestampMs, payload));
  }

  predicate IsKeyIdCharacter(ch: char) {
    'a' <= ch <= 'z' || 'A' <= ch <= 'Z' || '0' <= ch <= '9' || ch == '.' || ch == '_' || ch == ':' || ch == '-'
  }

  /** The key ids allowed: 1 to 96 letters, digits, dots, underscores, colons, hyphens. */
  lemma KeyIdPattern(s: string)
    requires forall i :: 0 <= i < |s| ==> s[i] < '\U{80}'
    ensures ValidKeyId(Ascii(s)) <==> 1 <= |s| <= 96 && forall i :: 0 <= i < |s| ==> IsKeyIdCharacter(s[i])
  {
    forall i | 0 <= i < |s| ensures KeyIdUnit(Ascii(s)[i]) <==> IsKeyIdCharacter(s[i]) {}
    if ValidKeyId(Ascii(s)) {
      forall i | 0 <= i < |s| ensures IsKeyIdCharacter(s[i]) { assert KeyIdUnit(Ascii(s)[i]); }
    }
  }
}
