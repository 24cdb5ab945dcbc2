/** Every answer of the bounded limiter, told from the calls it accepted before
    (services/risk-engine/src/bounded-state.ts:23-41). */
module RateDecisions {
  import opened Collections
  import opened RateLimits

  /** The calls of a run that were let through. */
  function Accepted(r: Rate, windows: Windows, calls: seq<Call>): seq<Call>
    decreases |calls|
  {
    if calls == [] then []
    else
      var (w', d) := Step(r, windows, calls[0]);
      (if d.allowed then [calls[0]] else []) + Accepted(r, w', calls[1..])
  }

  /** The key's last window: it opens with an accepted call, takes in the accepted calls
      less than a window length later, and then another one opens. */
  function LastWindow(windowMs: int, accepted: seq<Call>, key: Key): Option<Window>
    decreases |accepted|
  {
    if accepted == [] then None
    else
      var last := accepted[|accepted| - 1];
      var before := LastWindow(windowMs, accepted[..|accepted| - 1], key);
      if last.key != key then before
      else if before.Some? && last.nowMs < before.value.startedAtMs + windowMs
      then Some(Window(before.value.startedAtMs, before.value.count + 1))
      else Some(Window(last.nowMs, 1))
  }

  /** A window of the key was opened less than `windowMs` ago. */
  predicate OpenAt(windowMs: int, accepted: seq<Call>, key: Key, nowMs: int) {
    var w := LastWindow(windowMs, accepted, key);
    w.Some? && nowMs < w.value.startedAtMs + windowMs
  }

  /** The other keys with such a window. */
  function OthersOpen(windowMs: int, accepted: seq<Call>, key: Key, nowMs: int): set<Key> {
    set i | 0 <= i < |accepted| && accepted[i].key != key && OpenAt(windowMs, accepted, accepted[i].key, nowMs)
      :: accepted[i].key
  }

  // ----------------------------------------------------- table against history

  /** The table holds last windows only, and all that have not run out. */
  predicate AgreesAt(r: Rate, accepted: seq<Call>, windows: Windows, nowMs: int, key: Key) {
    var w := LastWindow(r.windowMs, accepted, key);
    (key in windows ==> w == Some(windows[key])) &&
    (w.Some? && key !in windows ==> nowMs >= w.value.startedAtMs + r.windowMs)
  }

  ghost predicate Agrees(r: Rate, accepted: seq<Call>, windows: Windows, nowMs: int) {
    forall key :: AgreesAt(r, accepted, windows, nowMs, key)
  }

  lemma LastWindowSnoc(windowMs: int, accepted: seq<Call>, c: Call, key: Key)
    ensures LastWindow(windowMs, accepted + [c], key) ==
            var before := LastWindow(windowMs, accepted, key);
            if c.key != key then before
            else if before.Some? && c.nowMs < before.value.startedAtMs + windowMs
            then Some(Window(before.value.startedAtMs, before.value.count + 1))
            else Some(Window(c.nowMs, 1))
  {
    assert (accepted + [c])[..|accepted|] == accepted;
  }

  lemma StepAgreesAt(r: Rate, accepted: seq<Call>, windows: Windows, c: Call, from: int, key: Key)
    requires ValidRate(r) && from <= c.nowMs
    requires AgreesAt(r, accepted, windows, from, key) && AgreesAt(r, accepted, windows, from, c.key)
    ensures var (w', d) := Step(r, windows, c);
            AgreesAt(r, if d.allowed then accepted + [c] else accepted, w', c.nowMs, key)
  {
    hide Step, LastWindow;
    StepAt(r, windows, c, key);
    StepAt(r, windows, c, c.key);
    LastWindowSnoc(r.windowMs, accepted, c, key);
  }

  lemma StepAgrees(r: Rate, accepted: seq<Call>, windows: Windows, c: Call, from: int)
    requires ValidRate(r) && from <= c.nowMs && Agrees(r, accepted, windows, from)
    ensures var (w', d) := Step(r, windows, c);
            Agrees(r, if d.allowed then accepted + [c] else accepted, w', c.nowMs)
  {
    hide Step, AgreesAt;
    var (w', d) := Step(r, windows, c);
    var accepted' := if d.allowed then accepted + [c] else accepted;
    forall key ensures AgreesAt(r, accepted', w', c.nowMs, key) {
      assert AgreesAt(r, accepted, windows, from, key) && AgreesAt(r, accepted, windows, from, c.key);
      StepAgreesAt(r, accepted, windows, c, from, key);
    }
  }

  lemma {:induction false} RunAgrees(r: Rate, accepted: seq<Call>, windows: Windows, calls: seq<Call>, from: int)
    returns (all: seq<Call>, last: int)
    requires ValidRate(r) && ClockFrom(from, calls) && Agrees(r, accepted, windows, from)
    ensures all == accepted + Accepted(r, windows, calls)
    ensures last == if calls == [] then from else calls[|calls| - 1].nowMs
    ensures Agrees(r, all, RunWindows(r, windows, calls), last)
    decreases |calls|
  {
    hide Step, Agrees;
    if calls == [] {
      all, last := accepted, from;
    } else {
      var (w', d) := Step(r, windows, calls[0]);
      var more := if d.allowed then [calls[0]] else [];
      StepAgrees(r, accepted, windows, calls[0], from);
      assert accepted + [] == accepted;
      all, last := RunAgrees(r, accepted + more, w', calls[1..], calls[0].nowMs);
      ConcatAssociative(accepted, more, Accepted(r, w', calls[1..]));
    }
  }

  lemma AgreesLater(r: Rate, accepted: seq<Call>, windows: Windows, from: int, nowMs: int)
    requires Agrees(r, accepted, windows, from) && from <= nowMs
    ensures Agrees(r, accepted, windows, nowMs)
  {
    hide LastWindow;
    forall key ensures AgreesAt(r, accepted, windows, nowMs, key) {
      assert AgreesAt(r, accepted, windows, from, key);
    }
  }

  lemma {:induction false} WindowHasCall(windowMs: int, accepted: seq<Call>, key: Key) returns (i: nat)
    requires LastWindow(windowMs, accepted, key).Some?
    ensures i < |accepted| && accepted[i].key == key
    decreases |accepted|
  {
    var n := |accepted| - 1;
    if accepted[n].key == key { i := n; } else { i := WindowHasCall(windowMs, accepted[..n], key); }
  }

  /** The live windows in the table, the key's own aside, are those of the history. */
  lemma LiveKeys(r: Rate, accepted: seq<Call>, windows: Windows, key: Key, nowMs: int)
    requires Agrees(r, accepted, windows, nowMs)
    ensures Live(windows - {key}, nowMs, r.windowMs).Keys == OthersOpen(r.windowMs, accepted, key, nowMs)
  {
    hide LastWindow;
    var live, open := Live(windows - {key}, nowMs, r.windowMs), OthersOpen(r.windowMs, accepted, key, nowMs);
    forall k | k in live ensures k in open {
      assert AgreesAt(r, accepted, windows, nowMs, k);
      var i := WindowHasCall(r.windowMs, accepted, k);
    }
    forall k | k in open ensures k in live {
      assert AgreesAt(r, accepted, windows, nowMs, k);
    }
  }

  lemma LiveWithin(windows: Windows, nowMs: int, windowMs: int)
    ensures |Live(windows, nowMs, windowMs)| <= |windows|
  {
    assert Live(windows, nowMs, windowMs).Keys <= windows.Keys;
    SizeMonotone(Live(windows, nowMs, windowMs).Keys, windows.Keys);
  }

  // --------------------------------------------------------------- the answers

  /** What the limiter answers, told from the calls accepted before. */
  predicate Answers(r: Rate, accepted: seq<Call>, c: Call, d: Decision) {
    if OpenAt(r.windowMs, accepted, c.key, c.nowMs) then
      var w := LastWindow(r.windowMs, accepted, c.key).value;
      if w.count < r.limit then d == Decision(true, 0, Allowed)
      else
        !d.allowed && d.reason == Limit &&
        c.nowMs + 1000 * (d.retryAfterS - 1) < w.startedAtMs + r.windowMs <= c.nowMs + 1000 * d.retryAfterS
    else if |OthersOpen(r.windowMs, accepted, c.key, c.nowMs)| >= r.maxKeys then d == Decision(false, 1, Capacity)
    else d == Decision(true, 0, Allowed)
  }

  lemma RetryIsLeast(remainingMs: int)
    requires remainingMs >= 1
    ensures 1000 * (RetryAfterS(remainingMs) - 1) < remainingMs <= 1000 * RetryAfterS(remainingMs)
  {
  }

  lemma OpenAnswer(r: Rate, windows: Windows, c: Call)
    requires c.key in windows && c.nowMs - windows[c.key].startedAtMs < r.windowMs
    ensures var w := windows[c.key];
            Step(r, windows, c).1 ==
            if w.count < r.limit then Decision(true, 0, Allowed)
            else Decision(false, RetryAfterS(r.windowMs - (c.nowMs - w.startedAtMs)), Limit)
  {
    hide RetryAfterS;
  }

  lemma OtherAnswer(r: Rate, windows: Windows, c: Call)
    requires c.key in windows ==> c.nowMs - windows[c.key].startedAtMs >= r.windowMs
    ensures Step(r, windows, c).1 ==
            if |Live(windows - {c.key}, c.nowMs, r.windowMs).Keys| >= r.maxKeys then Decision(false, 1, Capacity)
            else Decision(true, 0, Allowed)
  {
    hide Live;
    var others := windows - {c.key};
    LiveWithin(others, c.nowMs, r.windowMs);
    assert |Live(others, c.nowMs, r.windowMs)| == |Live(others, c.nowMs, r.windowMs).Keys|;
  }

  lemma StepAnswers(r: Rate, accepted: seq<Call>, windows: Windows, c: Call)
    requires ValidRate(r) && Agrees(r, accepted, windows, c.nowMs)
    ensures Answers(r, accepted, c, Step(r, windows, c).1)
  {
    hide LastWindow, OthersOpen, RetryAfterS, Step, Live;
    assert AgreesAt(r, accepted, windows, c.nowMs, c.key);
    if OpenAt(r.windowMs, accepted, c.key, c.nowMs) {
      OpenAnswer(r, windows, c);
      RetryIsLeast(r.windowMs - (c.nowMs - windows[c.key].startedAtMs));
    } else {
      OtherAnswer(r, windows, c);
      LiveKeys(r, accepted, windows, c.key, c.nowMs);
    }
  }

  /** Over every run of a fresh limiter with a clock that never goes back, the next answer
      is settled by the calls accepted before: a key with an open window is let through up
      to the limit and else told the least whole seconds after which its window has run
      out; any other key is turned away if and only if `maxKeys` other keys have an open
      window. */
  lemma AnswersFromHistory(r: Rate, calls: seq<Call>, c: Call)
    requires ValidRate(r) && ClockFrom((calls + [c])[0].nowMs, calls + [c])
    ensures Answers(r, Accepted(r, map[], calls), c, Step(r, RunWindows(r, map[], calls), c).1)
  {
    hide Step, LastWindow, Answers;
    var from := (calls + [c])[0].nowMs;
    assert ClockFrom(from, calls) by { ClockPrefix(from, calls, c); }
    EmptyAgrees(r, from);
    var all, last := RunAgrees(r, [], map[], calls, from);
    assert [] + Accepted(r, map[], calls) == Accepted(r, map[], calls);
    ClockPrefix(from, calls, c);
    AgreesLater(r, all, RunWindows(r, map[], calls), last, c.nowMs);
    StepAnswers(r, all, RunWindows(r, map[], calls), c);
  }

  lemma EmptyAgrees(r: Rate, from: int)
    ensures Agrees(r, [], map[], from)
  {
  }

  lemma ClockPrefix(from: int, calls: seq<Call>, c: Call)
    requires ClockFrom(from, calls + [c])
    ensures ClockFrom(from, calls)
    ensures (if calls == [] then from else calls[|calls| - 1].nowMs) <= c.nowMs
  {
    var all := calls + [c];
    assert forall i :: 0 <= i < |calls| ==> all[i] == calls[i];
    assert all[|calls|] == c;
  }

  /** The capacity answer by itself: given exactly to a key without an open window while at
      least `maxKeys` other keys have one. */
  lemma CapacityIff(r: Rate, calls: seq<Call>, c: Call)
    requires ValidRate(r) && ClockFrom((calls + [c])[0].nowMs, calls + [c])
    ensures var accepted := Accepted(r, map[], calls);
            Step(r, RunWindows(r, map[], calls), c).1.reason == Capacity <==>
            !OpenAt(r.windowMs, accepted, c.key, c.nowMs) &&
            |OthersOpen(r.windowMs, accepted, c.key, c.nowMs)| >= r.maxKeys
  {
    hide Step, LastWindow, OthersOpen, RunWindows, Accepted;
    AnswersFromHistory(r, calls, c);
  }
}
