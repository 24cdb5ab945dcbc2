/** Why the verifier turns a journal down, and where
    (services/risk-engine/src/audit-journal.ts:29-58). */
module AuditReasons {
  import opened Collections
  import opened AuditVerifier

  /** A v2 envelope as far as its own fields tell, hashes not compared. */
  predicate IsEnvelope(c: Codec, line: string) {
    var p := c.parse(line);
    p.Object? && p.schemaIsV2 && p.record.Some? && p.entryHash.Text? && ValidHash(p.entryHash.text)
  }

  predicate NamesPrevious(c: Codec, line: string)
    requires IsEnvelope(c, line)
  {
    var previous := c.parse(line).previousHash;
    previous.NullField? || (previous.Text? && ValidHash(previous.text))
  }

  predicate AfterLegacy(c: Codec, front: seq<string>) {
    front != [] && IsLegacy(c, front[|front| - 1])
  }

  predicate AfterEntry(c: Codec, front: seq<string>) {
    front != [] && IsEntry(c, front[|front| - 1])
  }

  /** An envelope that names what it has to after `front`. */
  predicate Links(c: Codec, front: seq<string>, line: string)
    requires IsEnvelope(c, line)
  {
    (AfterLegacy(c, front) ==> c.parse(line).previousHash.NullField?) &&
    (AfterEntry(c, front) ==> AsHash(c.parse(line).previousHash) == Some(EntryHash(c, front[|front| - 1])))
  }

  /** What each reason says about a line after the lines `front`. */
  predicate Explains(c: Codec, reason: Reason, front: seq<string>, line: string) {
    match reason
    case InvalidJson => c.parse(line).NotJson?
    case InvalidEnvelope => !c.parse(line).NotJson? && !IsLegacy(c, line) && !IsEnvelope(c, line)
    case LegacyEntryAfterV2 => IsLegacy(c, line) && AfterEntry(c, front)
    case InvalidPreviousHash => IsEnvelope(c, line) && !NamesPrevious(c, line)
    case LegacyBoundaryMustResetChain =>
      IsEnvelope(c, line) && NamesPrevious(c, line) && AfterLegacy(c, front) && !Links(c, front, line)
    case ChainLinkMismatch =>
      IsEnvelope(c, line) && NamesPrevious(c, line) && AfterEntry(c, front) && !Links(c, front, line)
    case EntryHashMismatch =>
      IsEnvelope(c, line) && NamesPrevious(c, line) && Links(c, front, line) &&
      var p := c.parse(line);
      c.hash(AsHash(p.previousHash), p.record.value) != p.entryHash.text
  }

  lemma BreakExplained(c: Codec, scan: Scan, front: seq<string>, line: string)
    requires IsChain(c, front) && ScanOf(c, scan, front) && CheckLine(c, scan, line).Rejected?
    ensures var v := CheckLine(c, scan, line);
            Explains(c, v.reason, front, line) && v.scan == scan.(seenV2 := v.scan.seenV2)
  {
    if front != [] {
      assert IsLegacy(c, front[|front| - 1]) || IsEntry(c, front[|front| - 1]);
    }
  }

  /** A line breaks a chain in one way only. */
  lemma OneReason(c: Codec, front: seq<string>, line: string, r: Reason, q: Reason)
    requires Explains(c, r, front, line) && Explains(c, q, front, line)
    ensures r == q
  {
  }

  /** What is not a chain is turned down at its first line that breaks it, for the one
      reason that explains the break, with the counts and the last hash of the lines
      before. */
  lemma {:induction false} RejectedAtFirstBreak(c: Codec, lines: seq<string>) returns (k: nat)
    requires !IsChain(c, lines)
    ensures k < |lines| && IsChain(c, lines[..k]) && !IsChain(c, lines[..k + 1])
    ensures var v := VerifyLines(c, lines);
            v.Rejected? && (forall r :: Explains(c, r, lines[..k], lines[k]) <==> r == v.reason) &&
            v.scan.entries + v.scan.legacyEntries == k && v.scan.lastHash == LastHash(c, lines[..k]) &&
            forall i :: 0 <= i < k ==> (IsLegacy(c, lines[i]) <==> i < v.scan.legacyEntries)
    decreases |lines|
  {
    hide CheckLine, IsLegacy, IsEntry, Explains;
    assert IsChain(c, []);
    var n := |lines| - 1;
    var front, line := lines[..n], lines[n];
    VerifierAcceptsChains(c, front);
    VerifierAcceptsChains(c, lines);
    if IsChain(c, front) {
      k := n;
      assert lines[..n + 1] == lines;
      BreakExplained(c, VerifyLines(c, front).scan, front, line);
      var v := VerifyLines(c, lines);
      forall r | Explains(c, r, front, line) ensures r == v.reason { OneReason(c, front, line, r, v.reason); }
      assert forall i :: 0 <= i < k ==> front[i] == lines[i];
    } else {
      k := RejectedAtFirstBreak(c, front);
      assert front[..k] == lines[..k] && front[..k + 1] == lines[..k + 1] && front[k] == lines[k];
      assert forall i :: 0 <= i < k ==> front[i] == lines[i];
    }
  }
}
