/** Viewer session tokens (packages/contracts/src/viewer-session.ts:3-60). The HMAC
    and JavaScript's reading of numbers are parameters; times are whole milliseconds. */
module ViewerSessions {
  import opened Collections
  import opened Decimals
  import opened Texts

  const TTL_S := 600
  const CLOCK_SKEW_S := 30
  const MIN_SECRET_LENGTH := 16
  const VERSION := "v1"
  const SCOPE := "viewer:read"

  /** `sign(secret, payload)` is the HMAC in base64url; `number(text)` is what `Number`
      makes of a text when that is an integer. */
  datatype Codec = Codec(sign: (string, string) -> string, number: string -> Option<int>)

  predicate SafeInteger(n: int) {
    -9_007_199_254_740_991 <= n <= 9_007_199_254_740_991
  }

  predicate IsBase64Url(ch: char) {
    'A' <= ch <= 'Z' || 'a' <= ch <= 'z' || '0' <= ch <= '9' || ch == '-' || ch == '_'
  }

  /** The alphabet of section 5 of RFC 4648, between `low` and `high` characters. */
  predicate Base64Url(s: string, low: nat, high: nat) {
    low <= |s| <= high && forall i :: 0 <= i < |s| ==> IsBase64Url(s[i])
  }

  /** A 32-byte digest is 43 characters; a safe integer reads back from its decimals. */
  ghost predicate Laws(c: Codec) {
    (forall secret, payload :: Base64Url(c.sign(secret, payload), 43, 43)) &&
    (forall n :: SafeInteger(n) ==> c.number(Integer(n)) == Some(n))
  }

  datatype Claims = Claims(issuedAtMs: int, expiresAtMs: int)

  function Payload(issuedRaw: string, expiresRaw: string, nonce: string): string {
    Join([VERSION, SCOPE, issuedRaw, expiresRaw, nonce], '.')
  }

  function Issue(c: Codec, secret: string, nowMs: int, nonce: string): Option<string> {
    if |secret| < MIN_SECRET_LENGTH then None
    else
      var issuedAtS := nowMs / 1000;
      var payload := Payload(Integer(issuedAtS), Integer(issuedAtS + TTL_S), nonce);
      Some(payload + "." + c.sign(secret, payload))
  }

  function Read(c: Codec, token: string, secret: string, nowMs: int): Option<Claims> {
    if |secret| < MIN_SECRET_LENGTH || token == "" then None
    else
      var parts := Split(token, '.');
      if |parts| != 6 then None
      else
        var version, scope, issuedRaw, expiresRaw, nonce, signature :=
          parts[0], parts[1], parts[2], parts[3], parts[4], parts[5];
        if version != VERSION || scope != SCOPE || nonce == "" || signature == "" then None
        else if !Base64Url(nonce, 20, 64) || !Base64Url(signature, 32, 64) then None
        else
          var issued, expires := c.number(issuedRaw), c.number(expiresRaw);
          if issued.None? || !SafeInteger(issued.value) || expires.None? || !SafeInteger(expires.value) then None
          else if expires.value <= issued.value || expires.value - issued.value != TTL_S then None
          else
            var nowS := nowMs / 1000;
            if issued.value > nowS + CLOCK_SKEW_S then None
            else if expires.value < nowS - CLOCK_SKEW_S then None
            else if signature != c.sign(secret, Join([version, scope, issuedRaw, expiresRaw, nonce], '.')) then None
            else Some(Claims(issued.value * 1000, expires.value * 1000))
  }

  // ------------------------------------------------------------------- laws

  predicate InWindow(issuedAtS: int, nowMs: int) {
    issuedAtS - 30 <= nowMs / 1000 <= issuedAtS + 630
  }

  /** The six parts a token must spell, described without reading it. */
  predicate Spells(c: Codec, token: string, secret: string, nowMs: int, claims: Claims,
                   issuedRaw: string, expiresRaw: string, nonce: string, issuedAtS: int)
  {
    '.' !in issuedRaw && '.' !in expiresRaw && Base64Url(nonce, 20, 64) &&
    token == Payload(issuedRaw, expiresRaw, nonce) + "." + c.sign(secret, Payload(issuedRaw, expiresRaw, nonce)) &&
    SafeInteger(issuedAtS) && SafeInteger(issuedAtS + 600) &&
    c.number(issuedRaw) == Some(issuedAtS) && c.number(expiresRaw) == Some(issuedAtS + 600) &&
    InWindow(issuedAtS, nowMs) &&
    claims == Claims(issuedAtS * 1000, (issuedAtS + 600) * 1000)
  }

  lemma NoDot(s: string, low: nat, high: nat)
    requires Base64Url(s, low, high)
    ensures '.' !in s
  {
  }

  lemma Signature(c: Codec, secret: string, payload: string)
    requires Laws(c)
    ensures Base64Url(c.sign(secret, payload), 32, 64) && '.' !in c.sign(secret, payload)
    ensures c.sign(secret, payload) != ""
  {
    assert Base64Url(c.sign(secret, payload), 43, 43);
    NoDot(c.sign(secret, payload), 43, 43);
  }

  lemma PartsOf(issuedRaw: string, expiresRaw: string, nonce: string, signature: string)
    requires '.' !in issuedRaw && '.' !in expiresRaw && '.' !in nonce && '.' !in signature
    ensures Split(Payload(issuedRaw, expiresRaw, nonce) + "." + signature, '.') ==
            [VERSION, SCOPE, issuedRaw, expiresRaw, nonce, signature]
  {
    hide Split, Join;
    var five := [VERSION, SCOPE, issuedRaw, expiresRaw, nonce];
    SplitJoin(five, '.');
    SplitLast(Payload(issuedRaw, expiresRaw, nonce), signature, '.');
    assert "." == ['.'];
    assert five + [signature] == [VERSION, SCOPE, issuedRaw, expiresRaw, nonce, signature];
  }

  lemma TokenOf(token: string) returns (six: seq<string>)
    requires |Split(token, '.')| == 6
    ensures six == Split(token, '.') && (forall p :: p in six ==> '.' !in p)
    ensures token == Join(six[..5], '.') + "." + six[5]
  {
    hide Join, Split;
    six := Split(token, '.');
    PartsHaveNone(token, '.');
    JoinSplit(token, '.');
    JoinLast(six[..5], six[5], '.');
    assert six == six[..5] + [six[5]];
  }

  /** A token is accepted, with the claims it is read as, exactly when it is signed
      under the secret over the version, the scope, two numbers 600 s apart and a
      legal nonce, and the time is within the window. */
  lemma ReadIff(c: Codec, token: string, secret: string, nowMs: int, claims: Claims)
    requires Laws(c)
    ensures Read(c, token, secret, nowMs) == Some(claims) <==>
            |secret| >= 16 &&
            exists issuedRaw, expiresRaw, nonce, issuedAtS ::
              Spells(c, token, secret, nowMs, claims, issuedRaw, expiresRaw, nonce, issuedAtS)
  {
    if Read(c, token, secret, nowMs) == Some(claims) {
      ReadSpells(c, token, secret, nowMs, claims);
    }
    if |secret| >= MIN_SECRET_LENGTH {
      forall issuedRaw, expiresRaw, nonce, issuedAtS |
        Spells(c, token, secret, nowMs, claims, issuedRaw, expiresRaw, nonce, issuedAtS)
        ensures Read(c, token, secret, nowMs) == Some(claims)
      {
        SpeltIsRead(c, token, secret, nowMs, claims, issuedRaw, expiresRaw, nonce, issuedAtS);
      }
    }
  }

  lemma ReadSpells(c: Codec, token: string, secret: string, nowMs: int, claims: Claims)
    requires Read(c, token, secret, nowMs) == Some(claims)
    ensures |secret| >= MIN_SECRET_LENGTH
    ensures exists issuedRaw, expiresRaw, nonce, issuedAtS ::
              Spells(c, token, secret, nowMs, claims, issuedRaw, expiresRaw, nonce, issuedAtS)
  {
    hide Join, Split, Base64Url, SafeInteger;
    var six := TokenOf(token);
    assert six[..5] == [VERSION, SCOPE, six[2], six[3], six[4]];
    assert six[2] in six && six[3] in six;
    assert Spells(c, token, secret, nowMs, claims, six[2], six[3], six[4], c.number(six[2]).value);
  }

  lemma SpeltIsRead(c: Codec, token: string, secret: string, nowMs: int, claims: Claims,
                    issuedRaw: string, expiresRaw: string, nonce: string, issuedAtS: int)
    requires Laws(c) && |secret| >= MIN_SECRET_LENGTH
    requires Spells(c, token, secret, nowMs, claims, issuedRaw, expiresRaw, nonce, issuedAtS)
    ensures Read(c, token, secret, nowMs) == Some(claims)
  {
    hide Join, Split, SafeInteger, Laws;
    var payload := Payload(issuedRaw, expiresRaw, nonce);
    Signature(c, secret, payload);
    NoDot(nonce, 20, 64);
    PartsOf(issuedRaw, expiresRaw, nonce, c.sign(secret, payload));
    assert token != "";
  }

  predicate DateRange(ms: int) {
    -8_640_000_000_000_000 <= ms <= 8_640_000_000_000_000
  }

  lemma IntegerHasNoDot(n: int)
    ensures '.' !in Integer(n)
  {
    var s := Integer(n);
    forall i | 0 <= i < |s| ensures s[i] != '.' { assert IsDigit(s[i]) || s[i] == '-'; }
  }

  /** An issued token reads back its claims exactly from 30 s before its issue to 30 s
      after its expiry, and under another secret only if that secret signs the same. */
  lemma IssuedReadsBack(c: Codec, secret: string, issuedMs: int, nonce: string, reader: string, nowMs: int)
    requires Laws(c) && DateRange(issuedMs) && Base64Url(nonce, 24, 24)
    requires |secret| >= MIN_SECRET_LENGTH && |reader| >= MIN_SECRET_LENGTH
    ensures var issuedAtS := issuedMs / 1000;
            var payload := Payload(Integer(issuedAtS), Integer(issuedAtS + TTL_S), nonce);
            Issue(c, secret, issuedMs, nonce).Some? &&
            Read(c, Issue(c, secret, issuedMs, nonce).value, reader, nowMs) ==
            if InWindow(issuedAtS, nowMs) && c.sign(reader, payload) == c.sign(secret, payload)
            then Some(Claims(issuedAtS * 1000, (issuedAtS + TTL_S) * 1000)) else None
  {
    hide Join, Split;
    var issuedAtS := issuedMs / 1000;
    var issuedRaw, expiresRaw := Integer(issuedAtS), Integer(issuedAtS + TTL_S);
    var payload := Payload(issuedRaw, expiresRaw, nonce);
    assert c.number(issuedRaw) == Some(issuedAtS) && c.number(expiresRaw) == Some(issuedAtS + TTL_S);
    hide Laws;
    Signature(c, secret, payload);
    IntegerHasNoDot(issuedAtS);
    IntegerHasNoDot(issuedAtS + TTL_S);
    NoDot(nonce, 24, 24);
    PartsOf(issuedRaw, expiresRaw, nonce, c.sign(secret, payload));
  }

  /** The part of a token that its signature covers. */
  /** What a token looks like. */
  lemma IssuedText(c: Codec, secret: string, issuedMs: int, nonce: string)
    requires |secret| >= 16
    ensures var s := issuedMs / 1000;
            var text := "v1.viewer:read." + (Integer(s) + ("." + (Integer(s + 600) + ("." + nonce))));
            Issue(c, secret, issuedMs, nonce) == Some(text + ("." + c.sign(secret, text)))
  {
    var issued, expires := Integer(issuedMs / 1000), Integer(issuedMs / 1000 + 600);
    JoinFive("v1", "viewer:read", issued, expires, nonce);
    assert ("v1" + ".") + ("viewer:read" + ".") == "v1.viewer:read.";
    FiveParts("v1", "viewer:read", issued, expires, nonce);
    var text := "v1.viewer:read." + (issued + ("." + (expires + ("." + nonce))));
    assert Payload(issued, expires, nonce) == text;
    assert text + "." + c.sign(secret, text) == text + ("." + c.sign(secret, text));
  }

  lemma JoinFive(a: string, b: string, x: string, y: string, z: string)
    ensures Join([a, b, x, y, z], '.') == a + "." + (b + "." + (x + "." + (y + "." + z)))
  {
    var l3, l2, l1: seq<string> := [x, y, z], [y, z], [z];
    assert l2[1..] == l1 && l3[1..] == l2 && [b, x, y, z][1..] == l3 && [a, b, x, y, z][1..] == [b, x, y, z];
    assert Join(l2, '.') == y + "." + z && Join(l3, '.') == x + "." + Join(l2, '.');
    assert Join([b, x, y, z], '.') == b + "." + Join(l3, '.');
  }

  lemma FiveParts(a: string, b: string, x: string, y: string, z: string)
    ensures a + "." + (b + "." + (x + "." + (y + "." + z))) ==
            ((a + ".") + (b + ".")) + (x + ("." + (y + ("." + z))))
  {
  }

  function SignedPart(token: string): string
    requires |Split(token, '.')| == 6
  {
    Join(Split(token, '.')[..5], '.')
  }

  /** One signature belongs to one accepted token, or else the two payloads collide. */
  lemma SignatureBinds(c: Codec, secret: string, a: string, b: string, nowA: int, nowB: int)
    requires Read(c, a, secret, nowA).Some? && Read(c, b, secret, nowB).Some?
    requires Split(a, '.')[5] == Split(b, '.')[5]
    ensures a == b || (SignedPart(a) != SignedPart(b) && c.sign(secret, SignedPart(a)) == c.sign(secret, SignedPart(b)))
  {
    hide Join, Split, Base64Url, SafeInteger;
    var sixA := TokenOf(a);
    var sixB := TokenOf(b);
    assert sixA[..5] == [VERSION, SCOPE, sixA[2], sixA[3], sixA[4]];
    assert sixB[..5] == [VERSION, SCOPE, sixB[2], sixB[3], sixB[4]];
  }

  // ------------------------------------------------------------ the laws hold of one

  const ANY_DIGEST: string := seq(43, i => 'A')

  ghost function ReadInteger(text: string): Option<int> {
    if exists n :: Integer(n) == text then
      var n :| Integer(n) == text;
      Some(n)
    else None
  }

  /** The laws can be met. */
  lemma LawsCanBeMet() returns (c: Codec)
    ensures Laws(c)
  {
    hide Integer;
    c := Codec((secret, payload) => ANY_DIGEST, text => ReadInteger(text));
    forall n ensures c.number(Integer(n)) == Some(n) {
      forall m | Integer(m) == Integer(n) ensures m == n { IntegerInjective(m, n); }
    }
  }
}
