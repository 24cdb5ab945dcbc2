/** What is reported for a key, told from what was reported and named before
    (services/risk-engine/src/alert-stabilizer.ts:18-44). */
module AlertLaws {
  import opened Collections
  import opened Sorting
  import opened AlertStabilizers

  predicate Graver(a: Severity, b: Severity) {
    (a == Critical && b != Critical) || (a == Caution && b == Safe)
  }

  /** Between calls `m` and `n` nothing changed the key's severity. */
  predicate SteadyBetween(calls: seq<Call>, m: nat, n: nat, key: Key)
    requires n <= |calls|
  {
    forall k :: m < k < n ==> !ChangedBy(calls, k, key)
  }

  predicate TrackedBetween(calls: seq<Call>, m: nat, n: nat, key: Key)
    requires n <= |calls|
  {
    forall k :: m < k <= n ==> Reported(calls, k, key).Some?
  }

  /** The entry remembers exactly when the severity last changed. */
  lemma {:induction false} ChangeDated(calls: seq<Call>, from: int, m: nat, n: nat, key: Key)
    requires ValidCalls(from, calls) && m < n <= |calls| && ChangedBy(calls, m, key)
    requires TrackedBetween(calls, m, n, key) && SteadyBetween(calls, m, n, key)
    ensures Reported(calls, n, key).value.severityChangedAtMs == calls[m].nowMs
    decreases n
  {
    hide Reported, Find;
    StepAt(calls, from, n - 1, key);
    if n > m + 1 {
      ChangeDated(calls, from, m, n - 1, key);
      assert !ChangedBy(calls, n - 1, key);
    }
  }

  /** The severity reported for a key that is named: the incoming one, unless that is
      lower and the last change less than 1800 ms old; then the one before. The rest of
      the alert is the incoming one. */
  lemma ReportedWhenNamed(calls: seq<Call>, from: int, m: nat, j: nat, key: Key)
    requires ValidCalls(from, calls) && m < j < |calls| && ChangedBy(calls, m, key)
    requires TrackedBetween(calls, m, j, key) && SteadyBetween(calls, m, j, key)
    requires IncomingOf(calls[j].incoming, key).Some?
    ensures var next := IncomingOf(calls[j].incoming, key).value.alert;
            var before := Reported(calls, j, key).value.alert.severity;
            var held := Graver(before, next.severity) && calls[j].nowMs < calls[m].nowMs + 1800;
            Reported(calls, j + 1, key).Some? &&
            Reported(calls, j + 1, key).value.alert ==
            Alert(key, if held then before else next.severity, next.timestampMs, next.content)
  {
    hide Reported, Find;
    StepAt(calls, from, j, key);
    ChangeDated(calls, from, m, j, key);
    IncomingNamed(calls[j].incoming, key);
  }

  /** A key not tracked appears as it comes in. */
  lemma ReportedWhenNew(calls: seq<Call>, from: int, j: nat, key: Key)
    requires ValidCalls(from, calls) && j < |calls| && Reported(calls, j, key).None?
    ensures Reported(calls, j + 1, key).Some? <==> IncomingOf(calls[j].incoming, key).Some?
    ensures IncomingOf(calls[j].incoming, key).Some? ==>
      Reported(calls, j + 1, key).value.alert == IncomingOf(calls[j].incoming, key).value.alert.(id := key)
  {
    hide Reported, Find;
    StepAt(calls, from, j, key);
    IncomingNamed(calls[j].incoming, key);
  }

  /** The key was last named by call `m`, up to call `n`. */
  predicate LastNamedBy(calls: seq<Call>, m: nat, n: nat, key: Key)
    requires m < n <= |calls|
  {
    IncomingOf(calls[m].incoming, key).Some? && forall k :: m < k < n ==> IncomingOf(calls[k].incoming, key).None?
  }

  lemma {:induction false} SeenDated(calls: seq<Call>, from: int, m: nat, n: nat, key: Key)
    requires ValidCalls(from, calls) && m < n <= |calls| && LastNamedBy(calls, m, n, key)
    requires TrackedBetween(calls, m, n, key)
    ensures Reported(calls, n, key).value.lastSeenAtMs == calls[m].nowMs
    decreases n
  {
    hide Reported, Find;
    StepAt(calls, from, n - 1, key);
    if n > m + 1 { SeenDated(calls, from, m, n - 1, key); }
  }

  /** A tracked key that is not named stays, unchanged, for exactly 1200 ms after it was
      last named. */
  lemma StaysIff(calls: seq<Call>, from: int, m: nat, j: nat, key: Key)
    requires ValidCalls(from, calls) && m < j < |calls| && LastNamedBy(calls, m, j + 1, key)
    requires TrackedBetween(calls, m, j, key)
    ensures Reported(calls, j + 1, key) ==
            if calls[j].nowMs <= calls[m].nowMs + 1200 then Reported(calls, j, key) else None
  {
    hide Reported, Find;
    StepAt(calls, from, j, key);
    SeenDated(calls, from, m, j, key);
  }

  /** In a reply no alert stands behind a less grave one, nor behind an older one of its
      severity. */
  lemma ReplyOrder(active: Actives, i: nat, j: nat)
    requires i < j < |Reply(active)|
    ensures var a, b := Reply(active)[i], Reply(active)[j];
            !Graver(b.severity, a.severity) && (a.severity == b.severity ==> a.timestampMs >= b.timestampMs)
  {
    hide Reply;
    ReplySorted(active, Reply(active)[i]);
    assert Before(Reply(active)[i], Reply(active)[j]);
  }
}
