/** Every answer of the timestamp store, told from the calls it accepted before
    (services/risk-engine/src/bounded-state.ts:62-72). */
module TimestampDecisions {
  import opened Collections
  import opened TimestampStores

  /** The calls of a run that were accepted. */
  function AcceptedCalls(l: Limits, entries: Entries, calls: seq<Call>): seq<Call>
    decreases |calls|
  {
    if calls == [] then []
    else
      var (e', v) := Step(l, entries, calls[0]);
      (if v == Accepted then [calls[0]] else []) + AcceptedCalls(l, e', calls[1..])
  }

  function RunEntries(l: Limits, entries: Entries, calls: seq<Call>): Entries
    decreases |calls|
  {
    if calls == [] then entries else RunEntries(l, Step(l, entries, calls[0]).0, calls[1..])
  }

  /** The last accepted call of a key. */
  function LastCall(accepted: seq<Call>, key: Key): Option<Call>
    decreases |accepted|
  {
    if accepted == [] then None
    else if accepted[|accepted| - 1].key == key then Some(accepted[|accepted| - 1])
    else LastCall(accepted[..|accepted| - 1], key)
  }

  /** The key was accepted less than the time-to-live ago. */
  predicate SeenLately(ttlMs: int, accepted: seq<Call>, key: Key, nowMs: int) {
    var last := LastCall(accepted, key);
    last.Some? && nowMs < last.value.nowMs + ttlMs
  }

  function OthersSeenLately(ttlMs: int, accepted: seq<Call>, key: Key, nowMs: int): set<Key> {
    set i | 0 <= i < |accepted| && accepted[i].key != key && SeenLately(ttlMs, accepted, accepted[i].key, nowMs)
      :: accepted[i].key
  }

  /** What the store answers. Only one thing is not settled by the history: whether a key
      that was not seen lately has been forgotten yet. */
  predicate Answers(l: Limits, accepted: seq<Call>, c: Call, v: Verdict) {
    var last := LastCall(accepted, c.key);
    if c.timestampMs > c.nowMs + l.maxFutureMs || c.timestampMs < c.nowMs - l.maxPastMs then v == Skewed
    else if |OthersSeenLately(l.ttlMs, accepted, c.key, c.nowMs)| >= l.maxKeys then v == NoRoom
    else if last.None? || c.timestampMs > last.value.timestampMs then v == Accepted
    else if SeenLately(l.ttlMs, accepted, c.key, c.nowMs) then v == Replayed
    else v == Replayed || v == Accepted
  }

  // ----------------------------------------------------- table against history

  predicate AgreesAt(l: Limits, accepted: seq<Call>, entries: Entries, nowMs: int, key: Key) {
    var last := LastCall(accepted, key);
    (key in entries ==> last.Some? && entries[key] == Entry(last.value.timestampMs, last.value.nowMs)) &&
    (last.Some? && key !in entries ==> nowMs >= last.value.nowMs + l.ttlMs)
  }

  ghost predicate Agrees(l: Limits, accepted: seq<Call>, entries: Entries, nowMs: int) {
    |entries| <= l.maxKeys && forall key :: AgreesAt(l, accepted, entries, nowMs, key)
  }

  lemma LastCallSnoc(accepted: seq<Call>, c: Call, key: Key)
    ensures LastCall(accepted + [c], key) == if c.key == key then Some(c) else LastCall(accepted, key)
  {
    assert (accepted + [c])[..|accepted|] == accepted;
  }

  lemma StepAgreesAt(l: Limits, accepted: seq<Call>, entries: Entries, c: Call, from: int, key: Key)
    requires ValidLimits(l) && from <= c.nowMs && AgreesAt(l, accepted, entries, from, key)
    ensures var (e', v) := Step(l, entries, c);
            AgreesAt(l, if v == Accepted then accepted + [c] else accepted, e', c.nowMs, key)
  {
    hide Step, LastCall;
    StepAt(l, entries, c, key);
    LastCallSnoc(accepted, c, key);
  }

  lemma StepAgrees(l: Limits, accepted: seq<Call>, entries: Entries, c: Call, from: int)
    requires ValidLimits(l) && from <= c.nowMs && Agrees(l, accepted, entries, from)
    ensures var (e', v) := Step(l, entries, c);
            Agrees(l, if v == Accepted then accepted + [c] else accepted, e', c.nowMs)
  {
    hide Step, AgreesAt;
    var (e', v) := Step(l, entries, c);
    var accepted' := if v == Accepted then accepted + [c] else accepted;
    StepBounded(l, entries, c);
    forall key ensures AgreesAt(l, accepted', e', c.nowMs, key) {
      assert AgreesAt(l, accepted, entries, from, key);
      StepAgreesAt(l, accepted, entries, c, from, key);
    }
  }

  lemma {:induction false} RunAgrees(l: Limits, accepted: seq<Call>, entries: Entries, calls: seq<Call>, from: int)
    returns (all: seq<Call>, last: int)
    requires ValidLimits(l) && ClockFrom(from, calls) && Agrees(l, accepted, entries, from)
    ensures all == accepted + AcceptedCalls(l, entries, calls)
    ensures last == if calls == [] then from else calls[|calls| - 1].nowMs
    ensures Agrees(l, all, RunEntries(l, entries, calls), last)
    decreases |calls|
  {
    hide Step, Agrees;
    if calls == [] {
      all, last := accepted, from;
    } else {
      var (e', v) := Step(l, entries, calls[0]);
      var more := if v == Accepted then [calls[0]] else [];
      StepAgrees(l, accepted, entries, calls[0], from);
      assert accepted + [] == accepted;
      all, last := RunAgrees(l, accepted + more, e', calls[1..], calls[0].nowMs);
      ConcatAssociative(accepted, more, AcceptedCalls(l, e', calls[1..]));
    }
  }

  lemma {:induction false} KeyHasCall(accepted: seq<Call>, key: Key) returns (i: nat)
    requires LastCall(accepted, key).Some?
    ensures i < |accepted| && accepted[i].key == key
    decreases |accepted|
  {
    var n := |accepted| - 1;
    if accepted[n].key == key { i := n; } else { i := KeyHasCall(accepted[..n], key); }
  }

  /** The fresh entries of the table, the key's own aside, are those of the history. */
  lemma FreshKeys(l: Limits, accepted: seq<Call>, entries: Entries, key: Key, nowMs: int)
    requires Agrees(l, accepted, entries, nowMs)
    ensures Fresh(entries, nowMs, l.ttlMs).Keys - {key} == OthersSeenLately(l.ttlMs, accepted, key, nowMs)
  {
    hide LastCall;
    var kept, others := Fresh(entries, nowMs, l.ttlMs).Keys - {key}, OthersSeenLately(l.ttlMs, accepted, key, nowMs);
    forall k | k in kept ensures k in others {
      assert AgreesAt(l, accepted, entries, nowMs, k);
      var i := KeyHasCall(accepted, k);
    }
    forall k | k in others ensures k in kept {
      assert AgreesAt(l, accepted, entries, nowMs, k);
    }
  }

  /** Room is refused exactly when the other fresh entries fill the table. */
  lemma RoomForKey(l: Limits, entries: Entries, key: Key, nowMs: int)
    requires ValidLimits(l) && |entries| <= l.maxKeys
    ensures var kept := if |entries| >= l.maxKeys then Fresh(entries, nowMs, l.ttlMs) else entries;
            |Fresh(entries, nowMs, l.ttlMs).Keys - {key}| >= l.maxKeys <==> key !in entries && |kept| >= l.maxKeys
  {
    var live := Fresh(entries, nowMs, l.ttlMs);
    assert live.Keys <= entries.Keys && |live| == |live.Keys|;
    SizeMonotone(live.Keys, entries.Keys);
    if key in entries {
      assert live.Keys - {key} <= entries.Keys - {key};
      SizeMonotone(live.Keys - {key}, entries.Keys - {key});
    } else {
      assert live.Keys - {key} == live.Keys;
    }
  }

  lemma StepSplit(l: Limits, entries: Entries, c: Call)
    ensures var kept := if |entries| >= l.maxKeys then Fresh(entries, c.nowMs, l.ttlMs) else entries;
            Step(l, entries, c).1 ==
            if c.timestampMs > c.nowMs + l.maxFutureMs || c.timestampMs < c.nowMs - l.maxPastMs then Skewed
            else if c.key in entries then (if c.timestampMs <= entries[c.key].timestampMs then Replayed else Accepted)
            else if |kept| >= l.maxKeys then NoRoom else Accepted
  {
    hide Fresh;
  }

  lemma StepAnswers(l: Limits, accepted: seq<Call>, entries: Entries, c: Call)
    requires ValidLimits(l) && Agrees(l, accepted, entries, c.nowMs)
    ensures Answers(l, accepted, c, Step(l, entries, c).1)
  {
    hide Step, LastCall, OthersSeenLately, Fresh;
    assert AgreesAt(l, accepted, entries, c.nowMs, c.key);
    FreshKeys(l, accepted, entries, c.key, c.nowMs);
    RoomForKey(l, entries, c.key, c.nowMs);
    StepSplit(l, entries, c);
  }

  /** Over every run of a new store with a clock that never goes back, the next answer is
      settled by the calls accepted before, up to whether a key not seen lately has been
      forgotten; room is refused if and only if `maxKeys` other keys were seen lately. */
  lemma AnswersFromHistory(l: Limits, calls: seq<Call>, c: Call)
    requires ValidLimits(l) && ClockFrom((calls + [c])[0].nowMs, calls + [c])
    ensures Answers(l, AcceptedCalls(l, map[], calls), c, Step(l, RunEntries(l, map[], calls), c).1)
  {
    hide Step, LastCall, Answers;
    var from := (calls + [c])[0].nowMs;
    ClockPrefix(from, calls, c);
    EmptyAgrees(l, from);
    var all, last := RunAgrees(l, [], map[], calls, from);
    assert [] + AcceptedCalls(l, map[], calls) == AcceptedCalls(l, map[], calls);
    AgreesLater(l, all, RunEntries(l, map[], calls), last, c.nowMs);
    StepAnswers(l, all, RunEntries(l, map[], calls), c);
  }

  lemma AgreesLater(l: Limits, accepted: seq<Call>, entries: Entries, from: int, nowMs: int)
    requires Agrees(l, accepted, entries, from) && from <= nowMs
    ensures Agrees(l, accepted, entries, nowMs)
  {
    hide LastCall;
    forall key ensures AgreesAt(l, accepted, entries, nowMs, key) {
      assert AgreesAt(l, accepted, entries, from, key);
    }
  }

  lemma ClockPrefix(from: int, calls: seq<Call>, c: Call)
    requires ClockFrom(from, calls + [c])
    ensures ClockFrom(from, calls)
    ensures (if calls == [] then from else calls[|calls| - 1].nowMs) <= c.nowMs
  {
    var all := calls + [c];
    assert forall i :: 0 <= i < |calls| ==> all[i] == calls[i];
    assert all[|calls|] == c;
  }

  lemma EmptyAgrees(l: Limits, from: int)
    ensures Agrees(l, [], map[], from)
  {
  }
}
