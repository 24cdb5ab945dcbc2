/** The independent verifier of the hash-chained audit journal
    (services/risk-engine/src/audit-journal.ts:25-58). */
module AuditVerifier {
  import opened Collections
  import opened Fractions
  import opened Texts

  /** A JavaScript number: one written as a plain integer, or one that is not. */
  datatype Numeral = Whole(n: int) | Decimal(x: Fraction)

  datatype EventRecord = EventRecord(
    id: string, timestampMs: Numeral, sequence: Numeral, severity: string, kind: string,
    title: string, message: string, objectId: Option<string>, lat: Numeral, lng: Numeral)

  /** What a line may hold as its record: an event, or any other JSON value that
      JavaScript takes as true, known by its text. */
  datatype Record = Event(event: EventRecord) | OtherRecord(json: string)

  /** What the writer prints. */
  datatype Envelope = Envelope(previousHash: Option<string>, event: EventRecord, entryHash: string)

  /** A JSON field that should hold a hash or null. */
  datatype Field = NullField | Text(text: string) | OtherField

  /** What parsing one line of the journal can give; no record stands for one that is
      missing or taken as false. */
  datatype Parsed =
    | NotJson
    | NotObject
    | LegacyV1
    | Object(schemaIsV2: bool, previousHash: Field, record: Option<Record>, entryHash: Field)

  /** The parts this model does not look into: the digest of a canonical envelope,
      and JSON rendering and parsing. */
  datatype Codec = Codec(
    hash: (Option<string>, Record) -> string,
    render: Envelope -> string,
    parse: string -> Parsed)

  predicate IsHexDigit(ch: char) {
    '0' <= ch <= '9' || 'a' <= ch <= 'f' || 'A' <= ch <= 'F'
  }

  predicate ValidHash(h: string) {
    |h| == 64 && forall i :: 0 <= i < |h| ==> IsHexDigit(h[i])
  }

  // ----------------------------------------------------------------- lines

  predicate IsSpace(ch: char) {
    '\t' <= ch <= '\r' || ch == ' ' || ch == '\U{a0}' || ch == '\U{1680}' || '\U{2000}' <= ch <= '\U{200a}' ||
    ch == '\U{2028}' || ch == '\U{2029}' || ch == '\U{202f}' || ch == '\U{205f}' || ch == '\U{3000}' || ch == '\U{feff}'
  }

  function TrimLeft(s: string): string {
    if s != [] && IsSpace(s[0]) then TrimLeft(s[1..]) else s
  }

  function TrimRight(s: string): string {
    if s != [] && IsSpace(s[|s| - 1]) then TrimRight(s[..|s| - 1]) else s
  }

  function Trim(s: string): string {
    TrimRight(TrimLeft(s))
  }

  predicate Blank(s: string) {
    forall i :: 0 <= i < |s| ==> IsSpace(s[i])
  }

  lemma {:induction false} TrimRightOfBlank(s: string)
    requires TrimRight(s) == []
    ensures Blank(s)
  {
    if s != [] {
      TrimRightOfBlank(s[..|s| - 1]);
    }
  }

  lemma {:induction false} BlankIsSpaces(s: string)
    requires Trim(s) == []
    ensures Blank(s)
  {
    if s != [] && IsSpace(s[0]) {
      BlankIsSpaces(s[1..]);
    } else {
      TrimRightOfBlank(s);
    }
  }

  lemma {:induction false} TrimSpaces(s: string)
    requires Blank(s)
    ensures Trim(s) == []
  {
    if s != [] { TrimSpaces(s[1..]); }
  }

  lemma BlankIff(s: string)
    ensures Trim(s) == [] <==> Blank(s)
  {
    if Trim(s) == [] { BlankIsSpaces(s); } else if Blank(s) { TrimSpaces(s); }
  }

  /** What ECMAScript calls white space or a line terminator, by number. */
  const SPACES := {9, 10, 11, 12, 13, 32, 160, 5760, 8192, 8193, 8194, 8195, 8196, 8197, 8198, 8199, 8200, 8201, 8202,
                   8232, 8233, 8239, 8287, 12288, 65279}

  lemma SpacesAre(ch: char)
    ensures IsSpace(ch) <==> ch as int in SPACES
  {
  }

  /** `t` is `s` without the white space at both its ends. */
  ghost predicate IsTrimmed(s: string, t: string) {
    (t != [] ==> t[0] as int !in SPACES && t[|t| - 1] as int !in SPACES) &&
    exists i, j :: 0 <= i <= j <= |s| && t == s[i..j] &&
      forall k :: 0 <= k < i || j <= k < |s| ==> s[k] as int in SPACES
  }

  lemma {:induction false} TrimLeftCuts(s: string) returns (i: nat)
    ensures i <= |s| && TrimLeft(s) == s[i..] && Blank(s[..i]) && (i < |s| ==> !IsSpace(s[i]))
  {
    i := 0;
    if s != [] && IsSpace(s[0]) {
      var n := TrimLeftCuts(s[1..]);
      i := n + 1;
      assert s[1..][n..] == s[i..] && s[..i] == [s[0]] + s[1..][..n];
    }
  }

  lemma {:induction false} TrimRightCuts(s: string) returns (j: nat)
    ensures j <= |s| && TrimRight(s) == s[..j] && Blank(s[j..]) && (j > 0 ==> !IsSpace(s[j - 1]))
  {
    j := |s|;
    if s != [] && IsSpace(s[|s| - 1]) {
      j := TrimRightCuts(s[..|s| - 1]);
      assert s[..|s| - 1][..j] == s[..j] && s[j..] == s[..|s| - 1][j..] + [s[|s| - 1]];
    }
  }

  lemma TrimCutsBlanks(s: string)
    ensures IsTrimmed(s, Trim(s))
  {
    hide TrimLeft, TrimRight, IsSpace;
    var i := TrimLeftCuts(s);
    var rest := s[i..];
    var n := TrimRightCuts(rest);
    var j := i + n;
    assert rest[..n] == s[i..j] && rest[n..] == s[j..];
    forall k | 0 <= k < i || j <= k < |s| ensures s[k] as int in SPACES {
      SpacesAre(s[k]);
      if k < i { assert s[..i][k] == s[k]; } else { assert s[j..][k - j] == s[k]; }
    }
    if n > 0 {
      SpacesAre(rest[0]);
      SpacesAre(rest[n - 1]);
    }
  }

  function TrimAll(pieces: seq<string>): seq<string> {
    if pieces == [] then []
    else
      var t := Trim(pieces[0]);
      (if t == [] then [] else [t]) + TrimAll(pieces[1..])
  }

  function Lines(text: string): seq<string> {
    TrimAll(Split(text, '\n'))
  }

  predicate Terminated(text: string) {
    text == [] || text[|text| - 1] == '\n'
  }

  predicate CleanLine(line: string) {
    '\n' !in line && line != [] && Trim(line) == line
  }

  lemma SplitStep(piece: string, rest: string, q: seq<string>, last: seq<string>)
    requires '\n' !in piece && Split(rest, '\n') == q + last
    ensures Split(piece + "\n" + rest, '\n') == ([piece] + q) + last
  {
    SplitCons(piece, rest, '\n');
    assert [piece] + (q + last) == ([piece] + q) + last;
  }

  lemma CutAtNewline(a: string, b: string) returns (piece: string, rest: string)
    requires Terminated(a) && a != []
    ensures '\n' !in piece && a == piece + "\n" + rest && a + b == piece + "\n" + (rest + b)
    ensures Terminated(rest)
  {
    var i := IndexOf(a, '\n');
    piece, rest := a[..i], a[i + 1..];
  }

  /** A newline-terminated text splits on its own, leaving one empty piece. */
  lemma {:induction false} SplitTerminated(a: string, b: string) returns (p: seq<string>)
    requires Terminated(a)
    ensures Split(a, '\n') == p + [""] && Split(a + b, '\n') == p + Split(b, '\n')
    decreases |a|
  {
    if a == [] {
      p := [];
      assert a + b == b;
    } else {
      var piece, rest := CutAtNewline(a, b);
      var q := SplitTerminated(rest, b);
      SplitStep(piece, rest, q, [""]);
      SplitStep(piece, rest + b, q, Split(b, '\n'));
      p := [piece] + q;
    }
  }

  lemma {:induction false} TrimAllConcat(a: seq<string>, b: seq<string>)
    ensures TrimAll(a + b) == TrimAll(a) + TrimAll(b)
  {
    if a == [] {
      assert a + b == b;
    } else {
      assert (a + b)[1..] == a[1..] + b;
      TrimAllConcat(a[1..], b);
    }
  }

  /** Newline-terminated texts concatenate line by line. */
  lemma LinesConcat(a: string, b: string)
    requires Terminated(a)
    ensures Lines(a + b) == Lines(a) + Lines(b)
  {
    var p := SplitTerminated(a, b);
    TrimAllConcat(p, Split(b, '\n'));
    TrimAllConcat(p, [[]]);
    assert TrimAll([[]]) == [] + TrimAll([]);
  }

  lemma LineOfClean(line: string)
    requires CleanLine(line)
    ensures Lines(line + "\n") == [line] && Terminated(line + "\n")
  {
    SplitCons(line, "", '\n');
    assert line + "\n" + "" == line + "\n";
    assert Split("", '\n') == [""];
    assert TrimAll([line, []]) == [line] + TrimAll([[]]);
    assert TrimAll([[]]) == [] + TrimAll([]);
  }

  // ---------------------------------------------------------------- verify

  datatype Reason =
    | InvalidJson | InvalidEnvelope | LegacyEntryAfterV2 | InvalidPreviousHash
    | LegacyBoundaryMustResetChain | ChainLinkMismatch | EntryHashMismatch

  datatype Scan = Scan(entries: nat, legacyEntries: nat, lastHash: Option<string>, seenV2: bool)

  datatype Verdict =
    | Accepted(scan: Scan)
    | Rejected(reason: Reason, scan: Scan)

  function AsHash(f: Field): Option<string> {
    if f.Text? then Some(f.text) else None
  }

  /** One turn of the verifier's loop. */
  function CheckLine(c: Codec, scan: Scan, line: string): Verdict {
    match c.parse(line)
    case NotJson => Rejected(InvalidJson, scan)
    case NotObject => Rejected(InvalidEnvelope, scan)
    case LegacyV1 =>
      if scan.seenV2 then Rejected(LegacyEntryAfterV2, scan)
      else Accepted(scan.(legacyEntries := scan.legacyEntries + 1, lastHash := None))
    case Object(v2, prev, record, entryHash) =>
      if !v2 || record.None? || !(entryHash.Text? && ValidHash(entryHash.text)) then Rejected(InvalidEnvelope, scan)
      else if !prev.NullField? && !(prev.Text? && ValidHash(prev.text)) then
        Rejected(InvalidPreviousHash, scan.(seenV2 := true))
      else if scan.entries == 0 && scan.legacyEntries > 0 && !prev.NullField? then
        Rejected(LegacyBoundaryMustResetChain, scan.(seenV2 := true))
      else if scan.entries > 0 && AsHash(prev) != scan.lastHash then
        Rejected(ChainLinkMismatch, scan.(seenV2 := true))
      else if c.hash(AsHash(prev), record.value) != entryHash.text then
        Rejected(EntryHashMismatch, scan.(seenV2 := true))
      else Accepted(Scan(scan.entries + 1, scan.legacyEntries, Some(entryHash.text), true))
  }

  const START := Scan(0, 0, None, false)

  function VerifyLines(c: Codec, lines: seq<string>): Verdict {
    if lines == [] then Accepted(START)
    else
      var before := VerifyLines(c, lines[..|lines| - 1]);
      if before.Rejected? then before else CheckLine(c, before.scan, lines[|lines| - 1])
  }

  lemma {:induction false} RejectionSticks(c: Codec, lines: seq<string>, k: nat)
    requires k <= |lines| && VerifyLines(c, lines[..k]).Rejected?
    ensures VerifyLines(c, lines) == VerifyLines(c, lines[..k])
    decreases |lines|
  {
    if k == |lines| {
      assert lines[..k] == lines;
    } else {
      assert lines[..|lines| - 1][..k] == lines[..k];
      RejectionSticks(c, lines[..|lines| - 1], k);
    }
  }

  method VerifyAuditJournalText(c: Codec, text: string) returns (verdict: Verdict)
    ensures verdict == VerifyLines(c, Lines(text))
  {
    hide CheckLine, Lines;
    var lines := Lines(text);
    var scan := START;
    var i := 0;
    while i < |lines|
      invariant i <= |lines| && VerifyLines(c, lines[..i]) == Accepted(scan)
    {
      assert lines[..i + 1][..i] == lines[..i];
      var step := CheckLine(c, scan, lines[i]);
      if step.Rejected? {
        RejectionSticks(c, lines, i + 1);
        return step;
      }
      scan := step.scan;
      i := i + 1;
    }
    assert lines[..i] == lines;
    return Accepted(scan);
  }

  // -------------------------------------------------------- what it accepts

  predicate IsLegacy(c: Codec, line: string) {
    c.parse(line).LegacyV1?
  }

  /** A v2 line with legal hashes whose entry hash is the digest of its content. */
  predicate IsEntry(c: Codec, line: string) {
    var p := c.parse(line);
    p.Object? && p.schemaIsV2 && p.record.Some? &&
    p.entryHash.Text? && ValidHash(p.entryHash.text) &&
    (p.previousHash.NullField? || (p.previousHash.Text? && ValidHash(p.previousHash.text))) &&
    c.hash(AsHash(p.previousHash), p.record.value) == p.entryHash.text
  }

  function PreviousHash(c: Codec, line: string): Option<string>
    requires IsEntry(c, line)
  {
    AsHash(c.parse(line).previousHash)
  }

  function EntryHash(c: Codec, line: string): string
    requires IsEntry(c, line)
  {
    c.parse(line).entryHash.text
  }

  function RecordOf(c: Codec, line: string): Record
    requires IsEntry(c, line)
  {
    c.parse(line).record.value
  }

  /** How one line of a journal may follow another: v1 after v1 only; the first v2
      entry after v1 names nothing; every later one names the entry before it. */
  predicate Follows(c: Codec, before: string, line: string) {
    (IsLegacy(c, line) ==> IsLegacy(c, before)) &&
    (IsEntry(c, line) ==>
      PreviousHash(c, line) == if IsEntry(c, before) then Some(EntryHash(c, before)) else None)
  }

  /** A chain of v1 lines, then v2 entries. The first line may name an entry that is
      in a rotated file. */
  predicate IsChain(c: Codec, lines: seq<string>) {
    (forall i :: 0 <= i < |lines| ==> IsLegacy(c, lines[i]) || IsEntry(c, lines[i])) &&
    (forall i :: 0 < i < |lines| ==> Follows(c, lines[i - 1], lines[i]))
  }

  /** Hash of the last v2 entry; none when the text ends with a v1 line or is empty. */
  function LastHash(c: Codec, lines: seq<string>): Option<string> {
    if lines != [] && IsEntry(c, lines[|lines| - 1]) then Some(EntryHash(c, lines[|lines| - 1])) else None
  }

  lemma ChainSnoc(c: Codec, lines: seq<string>, line: string)
    ensures IsChain(c, lines + [line]) <==>
      IsChain(c, lines) && (IsLegacy(c, line) || IsEntry(c, line)) &&
      (lines != [] ==> Follows(c, lines[|lines| - 1], line))
  {
    var all := lines + [line];
    assert all[|lines|] == line;
    assert forall i :: 0 <= i < |lines| ==> all[i] == lines[i];
    if IsChain(c, all) {
      forall i | 0 < i < |lines| ensures Follows(c, lines[i - 1], lines[i]) { assert Follows(c, all[i - 1], all[i]); }
      assert lines != [] ==> Follows(c, all[|lines| - 1], all[|lines|]);
    } else if IsChain(c, lines) {
      assert (forall i :: 0 <= i < |all| ==> IsLegacy(c, all[i]) || IsEntry(c, all[i])) ==>
        exists i :: 0 < i < |all| && !Follows(c, all[i - 1], all[i]);
    }
  }

  lemma ChainDrop(c: Codec, lines: seq<string>, k: nat)
    requires IsChain(c, lines) && k <= |lines|
    ensures IsChain(c, lines[k..])
  {
    forall i | 0 < i < |lines[k..]| ensures Follows(c, lines[k..][i - 1], lines[k..][i]) {
      assert Follows(c, lines[k + i - 1], lines[k + i]);
    }
  }

  /** The counters and last hash the verifier holds after a chain. */
  predicate ScanOf(c: Codec, scan: Scan, lines: seq<string>) {
    scan.entries + scan.legacyEntries == |lines| && scan.lastHash == LastHash(c, lines) &&
    (forall i :: 0 <= i < |lines| ==> (IsLegacy(c, lines[i]) <==> i < scan.legacyEntries)) &&
    (scan.seenV2 <==> scan.entries > 0)
  }

  lemma CheckLineDecides(c: Codec, scan: Scan, lines: seq<string>, line: string)
    requires IsChain(c, lines) && ScanOf(c, scan, lines)
    ensures CheckLine(c, scan, line).Accepted? <==>
      (IsLegacy(c, line) || IsEntry(c, line)) && (lines != [] ==> Follows(c, lines[|lines| - 1], line))
    ensures CheckLine(c, scan, line).Accepted? ==> ScanOf(c, CheckLine(c, scan, line).scan, lines + [line])
  {
    if lines != [] {
      var last := lines[|lines| - 1];
      assert IsLegacy(c, last) || IsEntry(c, last);
    }
  }

  /** The verifier accepts exactly the chains, and reports their counts and last hash. */
  lemma {:induction false} VerifierAcceptsChains(c: Codec, lines: seq<string>)
    ensures VerifyLines(c, lines).Accepted? <==> IsChain(c, lines)
    ensures VerifyLines(c, lines).Accepted? ==> ScanOf(c, VerifyLines(c, lines).scan, lines)
    decreases |lines|
  {
    if lines != [] {
      var front, line := lines[..|lines| - 1], lines[|lines| - 1];
      assert lines == front + [line];
      VerifierAcceptsChains(c, front);
      ChainSnoc(c, front, line);
      if IsChain(c, front) {
        CheckLineDecides(c, VerifyLines(c, front).scan, front, line);
      }
    }
  }

  // ------------------------------------------------- the head binds history

  /** What a v2 line says: previous hash and record. */
  datatype Link = Link(previousHash: Option<string>, record: Record)

  function Digest(c: Codec, l: Link): string {
    c.hash(l.previousHash, l.record)
  }

  /** No link of one log has the digest of a different link of the other. */
  predicate NoCollision(c: Codec, a: seq<Link>, b: seq<Link>) {
    forall x, y :: x in a && y in b && Digest(c, x) == Digest(c, y) ==> x == y
  }

  lemma NoCollisionInFronts(c: Codec, a: seq<Link>, b: seq<Link>)
    requires NoCollision(c, a, b) && a != [] && b != []
    ensures NoCollision(c, a[..|a| - 1], b[..|b| - 1])
    ensures Digest(c, a[|a| - 1]) == Digest(c, b[|b| - 1]) ==> a[|a| - 1] == b[|b| - 1]
  {
    forall x | x in a[..|a| - 1] ensures x in a {}
    forall y | y in b[..|b| - 1] ensures y in b {}
  }

  function Links(c: Codec, lines: seq<string>): (links: seq<Link>)
    requires forall i :: 0 <= i < |lines| ==> IsEntry(c, lines[i])
    ensures |links| == |lines|
    ensures forall i :: 0 <= i < |lines| ==> links[i] == Link(PreviousHash(c, lines[i]), RecordOf(c, lines[i]))
  {
    seq(|lines|, i requires 0 <= i < |lines| => Link(PreviousHash(c, lines[i]), RecordOf(c, lines[i])))
  }

  predicate AllEntries(c: Codec, lines: seq<string>) {
    forall i :: 0 <= i < |lines| ==> IsEntry(c, lines[i])
  }

  lemma ChainFront(c: Codec, lines: seq<string>)
    requires IsChain(c, lines) && AllEntries(c, lines) && |lines| >= 2
    ensures var n := |lines| - 1;
            IsChain(c, lines[..n]) && LastHash(c, lines[..n]) == PreviousHash(c, lines[n])
  {
    var n := |lines| - 1;
    assert Follows(c, lines[n - 1], lines[n]);
    forall i | 0 < i < n ensures Follows(c, lines[..n][i - 1], lines[..n][i]) {
      assert Follows(c, lines[i - 1], lines[i]);
    }
  }

  lemma LinksSnoc(c: Codec, lines: seq<string>)
    requires lines != [] && AllEntries(c, lines)
    ensures var front, last := lines[..|lines| - 1], lines[|lines| - 1];
            AllEntries(c, front) &&
            Links(c, lines) == Links(c, front) + [Link(PreviousHash(c, last), RecordOf(c, last))]
  {
  }

  /** Equal last hashes are of equal last links, unless those collide. */
  lemma SameLastLink(c: Codec, a: seq<string>, b: seq<string>)
    requires AllEntries(c, a) && AllEntries(c, b) && NoCollision(c, Links(c, a), Links(c, b))
    requires a != [] && b != [] && LastHash(c, a) == LastHash(c, b)
    ensures var front, last := a[..|a| - 1], b[..|b| - 1];
            AllEntries(c, front) && AllEntries(c, last) && NoCollision(c, Links(c, front), Links(c, last)) &&
            Links(c, a) == Links(c, front) + [Links(c, a)[|a| - 1]] &&
            Links(c, b) == Links(c, last) + [Links(c, a)[|a| - 1]]
    ensures PreviousHash(c, a[|a| - 1]) == PreviousHash(c, b[|b| - 1])
  {
    var n, m := |a| - 1, |b| - 1;
    LinksSnoc(c, a);
    LinksSnoc(c, b);
    NoCollisionInFronts(c, Links(c, a), Links(c, b));
    assert Links(c, a)[..n] == Links(c, a[..n]) && Links(c, b)[..m] == Links(c, b[..m]);
    assert Digest(c, Links(c, a)[n]) == EntryHash(c, a[n]) && Digest(c, Links(c, b)[m]) == EntryHash(c, b[m]);
  }

  /** Two accepted v2 logs with the same last hash, and no colliding entries: the
      shorter is the end of the longer, entry for entry. */
  lemma {:induction false} HeadBindsHistory(c: Codec, a: seq<string>, b: seq<string>)
    requires AllEntries(c, a) && AllEntries(c, b) && NoCollision(c, Links(c, a), Links(c, b))
    requires IsChain(c, a) && IsChain(c, b)
    requires LastHash(c, a) == LastHash(c, b) && |a| <= |b|
    ensures IsSuffix(Links(c, a), Links(c, b))
    decreases |a|
  {
    if a != [] {
      hide NoCollision, IsChain, LastHash, IsSuffix, AllEntries, IsEntry;
      var n, m := |a| - 1, |b| - 1;
      SameLastLink(c, a, b);
      if n > 0 {
        ChainFront(c, a);
        ChainFront(c, b);
        HeadBindsHistory(c, a[..n], b[..m]);
      } else {
        NothingIsSuffix(Links(c, a[..n]), Links(c, b[..m]));
      }
      SuffixExtend(Links(c, a[..n]), Links(c, b[..m]), [Links(c, a)[n]]);
    }
  }

  /** When both logs also start a chain, the last hash determines all of it. */
  lemma HeadDeterminesLog(c: Codec, a: seq<string>, b: seq<string>)
    requires AllEntries(c, a) && AllEntries(c, b) && NoCollision(c, Links(c, a), Links(c, b)) && a != [] && b != []
    requires IsChain(c, a) && IsChain(c, b)
    requires LastHash(c, a) == LastHash(c, b)
    requires PreviousHash(c, a[0]) == None && PreviousHash(c, b[0]) == None
    ensures Links(c, a) == Links(c, b)
  {
    if |a| <= |b| { HeadStartsChain(c, a, b); } else { HeadStartsChain(c, b, a); }
  }

  lemma LaterNamesEarlier(c: Codec, lines: seq<string>, d: nat)
    requires IsChain(c, lines) && AllEntries(c, lines) && 0 < d < |lines|
    ensures PreviousHash(c, lines[d]).Some?
  {
    assert Follows(c, lines[d - 1], lines[d]);
  }

  lemma HeadStartsChain(c: Codec, a: seq<string>, b: seq<string>)
    requires AllEntries(c, a) && AllEntries(c, b) && NoCollision(c, Links(c, a), Links(c, b)) && 0 < |a| <= |b|
    requires IsChain(c, a) && IsChain(c, b)
    requires LastHash(c, a) == LastHash(c, b) && PreviousHash(c, a[0]) == None
    ensures |a| == |b| && Links(c, a) == Links(c, b)
  {
    var d := |b| - |a|;
    if d > 0 { LaterNamesEarlier(c, b, d); }
    HeadBindsHistory(c, a, b);
    assert Links(c, b)[d..][0] == Links(c, a)[0];
    assert Links(c, b)[0..] == Links(c, b);
  }
}
