/** Fixed-window rate limiting over a bounded table of keys
    (services/risk-engine/src/bounded-state.ts:1-46). Times are whole milliseconds. */
module RateLimits {
  import opened Collections

  datatype Window = Window(startedAtMs: int, count: nat)
  type Windows = map<Key, Window>

  datatype Reason = Allowed | Limit | Capacity
  datatype Decision = Decision(allowed: bool, retryAfterS: int, reason: Reason)
  datatype BadCall = BadLimit | BadWindow

  function Live(windows: Windows, nowMs: int, windowMs: int): Windows {
    map key | key in windows && nowMs - windows[key].startedAtMs < windowMs :: windows[key]
  }

  function RetryAfterS(remainingMs: int): int {
    var s := (remainingMs + 999) / 1000;
    if s < 1 then 1 else s
  }

  /** A decision that looks only at the key's own window: the limiter with room for
      every key. */
  function ConsumeUnbounded(windows: Windows, key: Key, limit: int, nowMs: int, windowMs: int): (Windows, Decision) {
    if key in windows && nowMs - windows[key].startedAtMs < windowMs then
      var current := windows[key];
      if current.count >= limit then
        (windows, Decision(false, RetryAfterS(windowMs - (nowMs - current.startedAtMs)), Limit))
      else (windows[key := Window(current.startedAtMs, current.count + 1)], Decision(true, 0, Allowed))
    else (windows[key := Window(nowMs, 1)], Decision(true, 0, Allowed))
  }

  /** The limiter itself: a new window needs a free place, pruning expired windows
      when there is none. */
  function ConsumeBounded(maxKeys: nat, windows: Windows, key: Key, limit: int, nowMs: int, windowMs: int)
    : (Windows, Decision)
  {
    if key in windows && nowMs - windows[key].startedAtMs < windowMs then
      ConsumeUnbounded(windows, key, limit, nowMs, windowMs)
    else
      var others := windows - {key};
      var kept := if |others| >= maxKeys then Live(others, nowMs, windowMs) else others;
      if |kept| >= maxKeys then (kept, Decision(false, 1, Capacity))
      else (kept[key := Window(nowMs, 1)], Decision(true, 0, Allowed))
  }

  class BoundedFixedWindowRateLimiter {
    const maxKeys: nat
    var windows: Windows
    var rejected: nat
    var capacityRejected: nat

    constructor (maxKeys: nat)
      requires maxKeys >= 1
      ensures this.maxKeys == maxKeys && windows == map[] && rejected == 0 && capacityRejected == 0
    {
      this.maxKeys := maxKeys;
      windows, rejected, capacityRejected := map[], 0, 0;
    }

    /** Construction as callers see it: fewer than one key is refused. */
    static method Open(maxKeys: int) returns (r: Option<BoundedFixedWindowRateLimiter>)
      ensures r.Some? <==> maxKeys >= 1
      ensures r.Some? ==>
        fresh(r.value) && r.value.maxKeys == maxKeys && r.value.windows == map[] &&
        r.value.rejected == 0 && r.value.capacityRejected == 0
    {
      if maxKeys < 1 { return None; }
      var limiter := new BoundedFixedWindowRateLimiter(maxKeys);
      return Some(limiter);
    }

    method Prune(nowMs: int, windowMs: int)
      modifies this`windows
      ensures windows == Live(old(windows), nowMs, windowMs)
    {
      var keys := windows.Keys;
      while keys != {}
        invariant keys <= windows.Keys <= old(windows).Keys
        invariant forall k :: k in windows ==> windows[k] == old(windows)[k]
        invariant forall k :: k in old(windows) && k !in keys ==>
          (k in windows <==> nowMs - old(windows)[k].startedAtMs < windowMs)
        decreases keys
      {
        var key :| key in keys;
        if nowMs - windows[key].startedAtMs >= windowMs { windows := windows - {key}; }
        keys := keys - {key};
      }
    }

    method Consume(key: Key, limit: int, nowMs: int, windowMs: int) returns (r: Result<Decision, BadCall>)
      modifies this
      ensures limit < 1 ==> r == Err(BadLimit)
      ensures limit >= 1 && windowMs < 1000 ==> r == Err(BadWindow)
      ensures r.Err? ==>
        windows == old(windows) && rejected == old(rejected) && capacityRejected == old(capacityRejected)
      ensures limit >= 1 && windowMs >= 1000 ==>
        r.Ok? && (windows, r.value) == ConsumeBounded(maxKeys, old(windows), key, limit, nowMs, windowMs) &&
        rejected == old(rejected) + (if r.value.allowed then 0 else 1) &&
        capacityRejected == old(capacityRejected) + (if r.value.reason == Capacity then 1 else 0)
    {
      if limit < 1 { return Err(BadLimit); }
      if windowMs < 1000 { return Err(BadWindow); }
      if key in windows && nowMs - windows[key].startedAtMs < windowMs {
        var current := windows[key];
        if current.count >= limit {
          rejected := rejected + 1;
          return Ok(Decision(false, RetryAfterS(windowMs - (nowMs - current.startedAtMs)), Limit));
        }
        windows := windows[key := Window(current.startedAtMs, current.count + 1)];
        return Ok(Decision(true, 0, Allowed));
      }
      if key in windows { windows := windows - {key}; }
      assert windows == old(windows) - {key};
      if |windows| >= maxKeys { Prune(nowMs, windowMs); }
      if |windows| >= maxKeys {
        rejected := rejected + 1;
        capacityRejected := capacityRejected + 1;
        return Ok(Decision(false, 1, Capacity));
      }
      windows := windows[key := Window(nowMs, 1)];
      return Ok(Decision(true, 0, Allowed));
    }
  }

  // ------------------------------------------------------------------ runs

  datatype Call = Call(key: Key, nowMs: int)
  datatype Rate = Rate(maxKeys: nat, limit: int, windowMs: int)

  predicate ValidRate(r: Rate) {
    r.maxKeys >= 1 && r.limit >= 1 && r.windowMs >= 1000
  }

  function Step(r: Rate, windows: Windows, c: Call): (Windows, Decision) {
    ConsumeBounded(r.maxKeys, windows, c.key, r.limit, c.nowMs, r.windowMs)
  }

  function StepUnbounded(r: Rate, windows: Windows, c: Call): (Windows, Decision) {
    ConsumeUnbounded(windows, c.key, r.limit, c.nowMs, r.windowMs)
  }

  /** A clock that never goes back, starting no earlier than `from`. */
  predicate ClockFrom(from: int, calls: seq<Call>) {
    (calls != [] ==> from <= calls[0].nowMs) &&
    forall i :: 0 < i < |calls| ==> calls[i - 1].nowMs <= calls[i].nowMs
  }

  function RunWindows(r: Rate, windows: Windows, calls: seq<Call>): Windows
    decreases |calls|
  {
    if calls == [] then windows else RunWindows(r, Step(r, windows, calls[0]).0, calls[1..])
  }

  /** Live keys never exceed `maxKeys`, whatever the clock does. */
  lemma {:induction false} KeysBounded(r: Rate, windows: Windows, calls: seq<Call>)
    requires ValidRate(r) && |windows| <= r.maxKeys
    ensures |RunWindows(r, windows, calls)| <= r.maxKeys
    decreases |calls|
  {
    if calls != [] {
      StepBounded(r, windows, calls[0]);
      KeysBounded(r, Step(r, windows, calls[0]).0, calls[1..]);
    }
  }

  lemma StepBounded(r: Rate, windows: Windows, c: Call)
    requires ValidRate(r) && |windows| <= r.maxKeys
    ensures |Step(r, windows, c).0| <= r.maxKeys
  {
    hide RetryAfterS;
    if c.key in windows && c.nowMs - windows[c.key].startedAtMs < r.windowMs {
      assert Step(r, windows, c).0.Keys == windows.Keys;
      assert |Step(r, windows, c).0| == |windows.Keys|;
    } else {
      var others := windows - {c.key};
      var live := Live(others, c.nowMs, r.windowMs);
      var kept := if |others| >= r.maxKeys then live else others;
      assert kept.Keys <= others.Keys <= windows.Keys;
      SizeMonotone(kept.Keys, windows.Keys);
      KeyAdded(kept, c.key, Window(c.nowMs, 1));
    }
  }

  lemma KeyAdded(windows: Windows, key: Key, w: Window)
    ensures |windows[key := w]| <= |windows| + 1
  {
    assert windows[key := w].Keys == windows.Keys + {key};
  }

  /** The bounded table against one that never forgets, at one key: equal while the
      window lives, and missing only when it has expired. */
  predicate TracksAt(r: Rate, windows: Windows, all: Windows, nowMs: int, k: Key) {
    (k in windows ==> k in all && all[k] == windows[k]) &&
    (k in all && k !in windows ==> nowMs - all[k].startedAtMs >= r.windowMs)
  }

  ghost predicate Tracks(r: Rate, windows: Windows, all: Windows, nowMs: int) {
    forall k :: TracksAt(r, windows, all, nowMs, k)
  }

  lemma StepOther(r: Rate, windows: Windows, c: Call, key: Key)
    requires key != c.key
    ensures var w' := Step(r, windows, c).0;
            (key in w' ==> key in windows && w'[key] == windows[key]) &&
            (key in windows && key !in w' ==> c.nowMs - windows[key].startedAtMs >= r.windowMs)
  {
    hide RetryAfterS;
  }

  lemma StepLive(r: Rate, windows: Windows, c: Call)
    requires c.key in windows && c.nowMs - windows[c.key].startedAtMs < r.windowMs
    ensures var (w', d) := Step(r, windows, c);
            var w := windows[c.key];
            c.key in w' && d.allowed == (w.count < r.limit) && d.reason != Capacity &&
            w'[c.key] == if d.allowed then Window(w.startedAtMs, w.count + 1) else w
  {
    hide RetryAfterS;
  }

  lemma StepOpens(r: Rate, windows: Windows, c: Call)
    requires c.key in windows ==> c.nowMs - windows[c.key].startedAtMs >= r.windowMs
    ensures var (w', d) := Step(r, windows, c);
            if d.reason == Capacity then !d.allowed && c.key !in w'
            else d == Decision(true, 0, Allowed) && c.key in w' && w'[c.key] == Window(c.nowMs, 1)
  {
    hide RetryAfterS;
  }

  /** What one call does to the window of any key. */
  lemma StepAt(r: Rate, windows: Windows, c: Call, key: Key)
    requires ValidRate(r)
    ensures var (w', d) := Step(r, windows, c);
            if key != c.key then
              (key in w' ==> key in windows && w'[key] == windows[key]) &&
              (key in windows && key !in w' ==> c.nowMs - windows[key].startedAtMs >= r.windowMs)
            else if key in windows && c.nowMs - windows[key].startedAtMs < r.windowMs then
              key in w' && d.allowed == (windows[key].count < r.limit) && d.reason != Capacity &&
              w'[key] == if d.allowed then Window(windows[key].startedAtMs, windows[key].count + 1) else windows[key]
            else if d.reason == Capacity then !d.allowed && key !in w'
            else d == Decision(true, 0, Allowed) && key in w' && w'[key] == Window(c.nowMs, 1)
  {
    hide Step;
    if key != c.key {
      StepOther(r, windows, c, key);
    } else if key in windows && c.nowMs - windows[key].startedAtMs < r.windowMs {
      StepLive(r, windows, c);
    } else {
      StepOpens(r, windows, c);
    }
  }

  lemma StepTracksAt(r: Rate, windows: Windows, all: Windows, c: Call, from: int, k: Key)
    requires ValidRate(r) && from <= c.nowMs
    requires TracksAt(r, windows, all, from, c.key) && TracksAt(r, windows, all, from, k)
    ensures var (w', d) := Step(r, windows, c);
            var (a', e) := StepUnbounded(r, all, c);
            if d.reason == Capacity then TracksAt(r, w', all, c.nowMs, k)
            else d == e && TracksAt(r, w', a', c.nowMs, k)
  {
    StepAt(r, windows, c, c.key);
    StepAt(r, windows, c, k);
  }

  /** Decisions of the bounded limiter beside those of the unbounded one, which is
      not shown the calls the bounded one turned away for lack of room. */
  function Decisions(r: Rate, windows: Windows, all: Windows, calls: seq<Call>): seq<(Decision, Decision)>
    decreases |calls|
  {
    if calls == [] then []
    else
      var (w', d) := Step(r, windows, calls[0]);
      var (a', e) := StepUnbounded(r, all, calls[0]);
      [(d, e)] + Decisions(r, w', if d.reason == Capacity then all else a', calls[1..])
  }

  lemma DecisionsUnfold(r: Rate, windows: Windows, all: Windows, calls: seq<Call>)
    requires calls != []
    ensures var (w', d) := Step(r, windows, calls[0]);
            var (a', e) := StepUnbounded(r, all, calls[0]);
            Decisions(r, windows, all, calls) ==
            [(d, e)] + Decisions(r, w', if d.reason == Capacity then all else a', calls[1..])
  {
  }

  lemma BothStep(r: Rate, windows: Windows, all: Windows, c: Call, from: int)
    returns (w': Windows, a': Windows, d: Decision, e: Decision)
    requires ValidRate(r) && Tracks(r, windows, all, from) && from <= c.nowMs
    ensures (w', d) == Step(r, windows, c) && e == StepUnbounded(r, all, c).1
    ensures a' == if d.reason == Capacity then all else StepUnbounded(r, all, c).0
    ensures (d.reason == Capacity || d == e) && Tracks(r, w', a', c.nowMs)
  {
    w', d := Step(r, windows, c).0, Step(r, windows, c).1;
    e := StepUnbounded(r, all, c).1;
    a' := if d.reason == Capacity then all else StepUnbounded(r, all, c).0;
    assert TracksAt(r, windows, all, from, c.key);
    StepTracksAt(r, windows, all, c, from, c.key);
    forall k ensures TracksAt(r, w', a', c.nowMs, k) {
      assert TracksAt(r, windows, all, from, k);
      StepTracksAt(r, windows, all, c, from, k);
    }
  }

  /** Pairwise the same decision, except where the bounded limiter had no room. */
  predicate SameButCapacity(ds: seq<(Decision, Decision)>) {
    forall i :: 0 <= i < |ds| ==> ds[i].0.reason == Capacity || ds[i].0 == ds[i].1
  }

  lemma SameCons(d: (Decision, Decision), ds: seq<(Decision, Decision)>)
    requires SameButCapacity(ds) && (d.0.reason == Capacity || d.0 == d.1)
    ensures SameButCapacity([d] + ds)
  {
  }

  /** Pruning changes no decision other than the capacity ones, over every run. */
  lemma {:induction false} PruningInvisible(r: Rate, windows: Windows, all: Windows, from: int, calls: seq<Call>)
    returns (ds: seq<(Decision, Decision)>)
    requires ValidRate(r) && Tracks(r, windows, all, from) && ClockFrom(from, calls)
    ensures ds == Decisions(r, windows, all, calls) && |ds| == |calls| && SameButCapacity(ds)
    decreases |calls|
  {
    if calls == [] {
      ds := [];
    } else {
      var w', a', d, e := BothStep(r, windows, all, calls[0], from);
      var rest := PruningInvisible(r, w', a', calls[0].nowMs, calls[1..]);
      DecisionsUnfold(r, windows, all, calls);
      SameCons((d, e), rest);
      ds := [(d, e)] + rest;
    }
  }

  // ------------------------------------------------------------ rate bound

  /** An accepted call of one key: when, in the window opened when, and as which
      call of that window. */
  datatype Grant = Grant(at: int, start: int, nth: int)

  function GrantOf(r: Rate, windows: Windows, c: Call, key: Key): seq<Grant> {
    var (w', d) := Step(r, windows, c);
    if c.key == key && d.allowed && key in w'
    then [Grant(c.nowMs, w'[key].startedAtMs, w'[key].count)] else []
  }

  /** The accepted calls of `key`, in order. */
  function Grants(r: Rate, windows: Windows, calls: seq<Call>, key: Key): seq<Grant>
    decreases |calls|
  {
    if calls == [] then []
    else GrantOf(r, windows, calls[0], key) + Grants(r, Step(r, windows, calls[0]).0, calls[1..], key)
  }

  predicate Proper(r: Rate, g: Grant) {
    g.start <= g.at < g.start + r.windowMs && 1 <= g.nth <= r.limit && (g.nth == 1 ==> g.at == g.start)
  }

  /** The next accepted call is in the same window, or opens one after it. */
  predicate Next(r: Rate, g: Grant, h: Grant) {
    g.at <= h.at &&
    ((h.start == g.start && h.nth == g.nth + 1) || (h.nth == 1 && h.start >= g.start + r.windowMs))
  }

  predicate Paced(r: Rate, gs: seq<Grant>) {
    (forall i :: 0 <= i < |gs| ==> Proper(r, gs[i])) &&
    (forall i :: 0 < i < |gs| ==> Next(r, gs[i - 1], gs[i]))
  }

  /** The key's window against the last accepted call. */
  predicate Matches(r: Rate, gs: seq<Grant>, windows: Windows, key: Key, nowMs: int) {
    (gs != [] ==> gs[|gs| - 1].at <= nowMs) &&
    if key in windows then
      gs != [] && gs[|gs| - 1].start == windows[key].startedAtMs && gs[|gs| - 1].nth == windows[key].count
    else gs != [] ==> gs[|gs| - 1].start + r.windowMs <= nowMs
  }

  lemma PacedSnoc(r: Rate, gs: seq<Grant>, g: Grant)
    requires Paced(r, gs) && Proper(r, g) && (gs != [] ==> Next(r, gs[|gs| - 1], g))
    ensures Paced(r, gs + [g])
  {
  }

  lemma LastProper(r: Rate, gs: seq<Grant>)
    requires Paced(r, gs) && gs != []
    ensures Proper(r, gs[|gs| - 1])
  {
  }

  lemma StepPaced(r: Rate, windows: Windows, gs: seq<Grant>, key: Key, c: Call, from: int)
    requires ValidRate(r) && Paced(r, gs) && Matches(r, gs, windows, key, from) && from <= c.nowMs
    ensures var gs' := gs + GrantOf(r, windows, c, key);
            Paced(r, gs') && Matches(r, gs', Step(r, windows, c).0, key, c.nowMs)
  {
    hide Step, Paced;
    if gs != [] { LastProper(r, gs); }
    var (w', d) := Step(r, windows, c);
    StepAt(r, windows, c, key);
    if c.key == key && d.allowed {
      PacedSnoc(r, gs, Grant(c.nowMs, w'[key].startedAtMs, w'[key].count));
    } else {
      assert gs + [] == gs;
    }
  }

  lemma {:induction false} RunPaced(r: Rate, windows: Windows, gs: seq<Grant>, key: Key, calls: seq<Call>, from: int)
    returns (all: seq<Grant>)
    requires ValidRate(r) && Paced(r, gs) && Matches(r, gs, windows, key, from) && ClockFrom(from, calls)
    ensures all == gs + Grants(r, windows, calls, key) && Paced(r, all)
    decreases |calls|
  {
    if calls == [] {
      all := gs;
    } else {
      var c := calls[0];
      var more := GrantOf(r, windows, c, key);
      StepPaced(r, windows, gs, key, c, from);
      all := RunPaced(r, Step(r, windows, c).0, gs + more, key, calls[1..], c.nowMs);
      ConcatAssociative(gs, more, Grants(r, Step(r, windows, c).0, calls[1..], key));
    }
  }

  lemma {:induction false} TimesOrdered(r: Rate, gs: seq<Grant>, i: nat, j: nat)
    requires Paced(r, gs) && i <= j < |gs|
    ensures gs[i].at <= gs[j].at
    decreases j - i
  {
    if i < j {
      assert Next(r, gs[j - 1], gs[j]);
      TimesOrdered(r, gs, i, j - 1);
    }
  }

  /** A window runs out: at most `limit - nth` accepted calls after one of its calls,
      another window has opened. */
  lemma {:induction false} NextWindow(r: Rate, gs: seq<Grant>, i: nat) returns (m: nat)
    requires ValidRate(r) && Paced(r, gs) && i < |gs| && i + (r.limit - gs[i].nth) + 1 < |gs|
    ensures i < m <= i + (r.limit - gs[i].nth) + 1
    ensures gs[m].nth == 1 && gs[m].at == gs[m].start >= gs[i].start + r.windowMs
    decreases |gs| - i
  {
    assert Proper(r, gs[i]) && Proper(r, gs[i + 1]) && Next(r, gs[i], gs[i + 1]);
    if gs[i + 1].nth == 1 {
      m := i + 1;
    } else {
      m := NextWindow(r, gs, i + 1);
    }
  }

  /** Any 2 * limit accepted calls in a row span a whole window. */
  lemma PacedSpan(r: Rate, gs: seq<Grant>, i: nat)
    requires ValidRate(r) && Paced(r, gs) && i + 2 * r.limit - 1 < |gs|
    ensures gs[i + 2 * r.limit - 1].at >= gs[i].at + r.windowMs
  {
    assert Proper(r, gs[i]);
    var m := NextWindow(r, gs, i);
    if gs[i].nth == 1 {
      TimesOrdered(r, gs, m, i + 2 * r.limit - 1);
    } else {
      var n := NextWindow(r, gs, m);
      TimesOrdered(r, gs, i, m);
      TimesOrdered(r, gs, n, i + 2 * r.limit - 1);
    }
  }

  /** The accepted calls of the key in the half-open interval [lo, lo + length). */
  function Within(gs: seq<Grant>, lo: int, length: int): set<nat> {
    set i: nat | i < |gs| && lo <= gs[i].at < lo + length
  }

  function Range(lo: nat, n: nat): (s: set<nat>)
    ensures forall i :: i in s <==> lo <= i < lo + n
    ensures |s| == n
  {
    if n == 0 then {} else Range(lo, n - 1) + {lo + n - 1}
  }

  lemma {:induction false} SmallestOf(s: set<nat>) returns (f: nat)
    requires s != {}
    ensures f in s && forall i :: i in s ==> f <= i
  {
    f :| f in s;
    if s - {f} != {} {
      var g := SmallestOf(s - {f});
      assert forall i :: i in s ==> i == f || i in s - {f};
      f := if g < f then g else f;
    } else {
      assert forall i :: i in s ==> i == f || i in s - {f};
    }
  }

  lemma PacedBound(r: Rate, gs: seq<Grant>, lo: int)
    requires ValidRate(r) && Paced(r, gs)
    ensures |Within(gs, lo, r.windowMs)| <= 2 * r.limit - 1
  {
    var inside := Within(gs, lo, r.windowMs);
    if inside != {} {
      var f := SmallestOf(inside);
      var room := Range(f, 2 * r.limit - 1);
      forall i | i in inside ensures i in room {
        if i >= f + 2 * r.limit - 1 {
          PacedSpan(r, gs, f);
          TimesOrdered(r, gs, f + 2 * r.limit - 1, i);
        }
      }
      SizeMonotone(inside, room);
    }
  }

  /** Over every run of a fresh limiter with a clock that never goes back, any
      half-open interval of length `windowMs` holds fewer than 2 * limit accepted
      calls of a key: two windows can meet it, and the older one opened before it. */
  lemma RateBound(r: Rate, calls: seq<Call>, key: Key, lo: int)
    requires ValidRate(r) && calls != [] && ClockFrom(calls[0].nowMs, calls)
    ensures |Within(Grants(r, map[], calls, key), lo, r.windowMs)| <= 2 * r.limit - 1
  {
    var gs := RunPaced(r, map[], [], key, calls, calls[0].nowMs);
    assert gs == Grants(r, map[], calls, key);
    PacedBound(r, gs, lo);
  }

  // ------------------------------------------------------ the bound is sharp

  function Burst(key: Key, at: int, n: nat): (calls: seq<Call>)
    ensures |calls| == n && forall i :: 0 <= i < n ==> calls[i] == Call(key, at)
  {
    if n == 0 then [] else [Call(key, at)] + Burst(key, at, n - 1)
  }

  function BurstGrants(at: int, start: int, count: nat, n: nat): (gs: seq<Grant>)
    ensures |gs| == n && forall i :: 0 <= i < n ==> gs[i] == Grant(at, start, count + i + 1)
    decreases n
  {
    if n == 0 then [] else [Grant(at, start, count + 1)] + BurstGrants(at, start, count + 1, n - 1)
  }

  lemma {:induction false} GrantsConcat(r: Rate, windows: Windows, a: seq<Call>, b: seq<Call>, key: Key)
    ensures Grants(r, windows, a + b, key) == Grants(r, windows, a, key) + Grants(r, RunWindows(r, windows, a), b, key)
    decreases |a|
  {
    hide GrantOf, Step, ConsumeBounded;
    if a == [] {
      assert a + b == b;
    } else {
      var w', g := Step(r, windows, a[0]).0, GrantOf(r, windows, a[0], key);
      assert (a + b)[1..] == a[1..] + b;
      GrantsConcat(r, w', a[1..], b, key);
      ConcatAssociative(g, Grants(r, w', a[1..], key), Grants(r, RunWindows(r, w', a[1..]), b, key));
    }
  }

  lemma BurstStep(r: Rate, key: Key, at: int, start: int, count: nat)
    requires ValidRate(r) && 0 <= at - start < r.windowMs && count < r.limit
    ensures Step(r, map[key := Window(start, count)], Call(key, at)) ==
            (map[key := Window(start, count + 1)], Decision(true, 0, Allowed))
    ensures GrantOf(r, map[key := Window(start, count)], Call(key, at), key) == [Grant(at, start, count + 1)]
  {
    var w := map[key := Window(start, count)];
    assert w[key := Window(start, count + 1)] == map[key := Window(start, count + 1)];
  }

  /** Calls in a live window are accepted until the limit. */
  lemma {:induction false} BurstAccepted(r: Rate, key: Key, at: int, start: int, count: nat, n: nat)
    requires ValidRate(r) && 0 <= at - start < r.windowMs && count + n <= r.limit
    ensures var w := map[key := Window(start, count)];
            Grants(r, w, Burst(key, at, n), key) == BurstGrants(at, start, count, n) &&
            RunWindows(r, w, Burst(key, at, n)) == map[key := Window(start, count + n)]
    decreases n
  {
    hide GrantOf, Step, ConsumeBounded;
    if n > 0 {
      BurstStep(r, key, at, start, count);
      BurstAccepted(r, key, at, start, count + 1, n - 1);
      RunCons(r, map[key := Window(start, count)], Call(key, at), Burst(key, at, n - 1), key);
    }
  }

  lemma RunCons(r: Rate, windows: Windows, c: Call, calls: seq<Call>, key: Key)
    ensures Grants(r, windows, [c] + calls, key) ==
            GrantOf(r, windows, c, key) + Grants(r, Step(r, windows, c).0, calls, key)
    ensures RunWindows(r, windows, [c] + calls) == RunWindows(r, Step(r, windows, c).0, calls)
  {
    assert ([c] + calls)[1..] == calls;
  }

  lemma OpenWindow(r: Rate, windows: Windows, key: Key, at: int)
    requires ValidRate(r) && windows.Keys <= {key}
    requires key in windows ==> at - windows[key].startedAtMs >= r.windowMs
    ensures Grants(r, windows, [Call(key, at)], key) == [Grant(at, at, 1)]
    ensures RunWindows(r, windows, [Call(key, at)]) == map[key := Window(at, 1)]
  {
    var c := Call(key, at);
    assert windows - {key} == map[];
    assert Step(r, windows, c) == (map[key := Window(at, 1)], Decision(true, 0, Allowed));
    assert [c][1..] == [];
    assert Grants(r, windows, [c], key) == GrantOf(r, windows, c, key) + Grants(r, Step(r, windows, c).0, [], key);
  }

  /** One call opens a window, the rest of it is used at its last millisecond, and a
      whole next window right after. */
  function SharpGrants(end: int, n: nat): seq<Grant> {
    [Grant(0, 0, 1)] +
    (BurstGrants(end, 0, 1, n) + ([Grant(end + 1, end + 1, 1)] + BurstGrants(end + 1, end + 1, 1, n)))
  }

  lemma SharpWithin(end: int, n: nat)
    requires end > 0
    ensures |Within(SharpGrants(end, n), end, end + 1)| == 2 * n + 1
  {
    var gs := SharpGrants(end, n);
    assert |gs| == 2 * n + 2;
    assert gs[0].at == 0;
    assert forall i :: 1 <= i < |gs| ==> end <= gs[i].at <= end + 1;
    assert Within(gs, end, end + 1) == Range(1, 2 * n + 1);
  }

  /** Opening a window and then using the rest of it `later`. */
  lemma OpenAndFill(r: Rate, windows: Windows, key: Key, at: int, later: int, rest: seq<Call>)
    requires ValidRate(r) && windows.Keys <= {key} && 0 <= later - at < r.windowMs
    requires key in windows ==> at - windows[key].startedAtMs >= r.windowMs
    ensures var n := r.limit - 1;
            Grants(r, windows, [Call(key, at)] + (Burst(key, later, n) + rest), key) ==
            [Grant(at, at, 1)] + (BurstGrants(later, at, 1, n) + Grants(r, map[key := Window(at, r.limit)], rest, key))
  {
    hide Grants, RunWindows, GrantOf, Step, ConsumeBounded;
    var n, w := r.limit - 1, map[key := Window(at, 1)];
    OpenWindow(r, windows, key, at);
    GrantsConcat(r, windows, [Call(key, at)], Burst(key, later, n) + rest, key);
    BurstAccepted(r, key, later, at, 1, n);
    GrantsConcat(r, w, Burst(key, later, n), rest, key);
  }

  lemma NoCallsNoGrants(r: Rate, windows: Windows, key: Key)
    ensures Grants(r, windows, [], key) == []
  {
  }

  lemma SharpRun(r: Rate, key: Key) returns (calls: seq<Call>)
    requires ValidRate(r)
    ensures ClockFrom(0, calls)
    ensures Grants(r, map[], calls, key) == SharpGrants(r.windowMs - 1, r.limit - 1)
  {
    hide Grants, RunWindows, GrantOf, Step, ConsumeBounded;
    var end, n := r.windowMs - 1, r.limit - 1;
    NoCallsNoGrants(r, map[key := Window(end + 1, r.limit)], key);
    var second := [Call(key, end + 1)] + (Burst(key, end + 1, n) + []);
    calls := [Call(key, 0)] + (Burst(key, end, n) + second);
    OpenAndFill(r, map[], key, 0, end, second);
    OpenAndFill(r, map[key := Window(0, r.limit)], key, end + 1, end + 1, []);
    assert BurstGrants(end + 1, end + 1, 1, n) + [] == BurstGrants(end + 1, end + 1, 1, n);
  }

  /** For every limit and window some run has 2 * limit - 1 accepted calls within
      one window length. */
  lemma BoundIsReached(r: Rate, key: Key) returns (calls: seq<Call>, lo: int)
    requires ValidRate(r)
    ensures ClockFrom(0, calls)
    ensures |Within(Grants(r, map[], calls, key), lo, r.windowMs)| == 2 * r.limit - 1
  {
    hide Grants, SharpGrants;
    lo := r.windowMs - 1;
    calls := SharpRun(r, key);
    SharpWithin(lo, r.limit - 1);
  }
}
