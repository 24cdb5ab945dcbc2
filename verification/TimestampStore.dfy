/** Replay protection by a bounded table of last-seen timestamps
    (services/risk-engine/src/bounded-state.ts:48-73). Times are whole milliseconds. */
module TimestampStores {
  import opened Collections

  datatype Entry = Entry(timestampMs: int, lastSeenAtMs: int)
  type Entries = map<Key, Entry>

  datatype Verdict = Accepted | Skewed | Replayed | NoRoom

  predicate InSkew(timestampMs: int, nowMs: int, maxPastMs: int, maxFutureMs: int) {
    timestampMs <= nowMs + maxFutureMs && nowMs - timestampMs <= maxPastMs
  }

  function Fresh(entries: Entries, nowMs: int, ttlMs: int): Entries {
    map key | key in entries && nowMs - entries[key].lastSeenAtMs < ttlMs :: entries[key]
  }

  /** The store with room for every key: it never forgets. */
  function AcceptUnbounded(entries: Entries, key: Key, timestampMs: int, nowMs: int, maxPastMs: int, maxFutureMs: int)
    : (Entries, Verdict)
  {
    if !InSkew(timestampMs, nowMs, maxPastMs, maxFutureMs) then (entries, Skewed)
    else if key in entries && timestampMs <= entries[key].timestampMs then (entries, Replayed)
    else (entries[key := Entry(timestampMs, nowMs)], Accepted)
  }

  /** The store itself: a new key needs a free place, and entries unseen for `ttlMs`
      are pruned when there is none. */
  function AcceptBounded(maxKeys: nat, ttlMs: int, entries: Entries, key: Key, timestampMs: int, nowMs: int,
                         maxPastMs: int, maxFutureMs: int): (Entries, Verdict)
  {
    if !InSkew(timestampMs, nowMs, maxPastMs, maxFutureMs) then (entries, Skewed)
    else if key in entries then AcceptUnbounded(entries, key, timestampMs, nowMs, maxPastMs, maxFutureMs)
    else
      var kept := if |entries| >= maxKeys then Fresh(entries, nowMs, ttlMs) else entries;
      if |kept| >= maxKeys then (kept, NoRoom)
      else (kept[key := Entry(timestampMs, nowMs)], Accepted)
  }

  class BoundedMonotonicTimestampStore {
    const maxKeys: nat
    const ttlMs: int
    var entries: Entries
    var rejected: nat
    var capacityRejected: nat

    constructor (maxKeys: nat, ttlMs: int)
      requires maxKeys >= 1 && ttlMs >= 1000
      ensures this.maxKeys == maxKeys && this.ttlMs == ttlMs
      ensures entries == map[] && rejected == 0 && capacityRejected == 0
    {
      this.maxKeys, this.ttlMs := maxKeys, ttlMs;
      entries, rejected, capacityRejected := map[], 0, 0;
    }

    /** Construction as callers see it: settings out of range are refused. */
    static method Open(maxKeys: int, ttlMs: int) returns (r: Option<BoundedMonotonicTimestampStore>)
      ensures r.Some? <==> maxKeys >= 1 && ttlMs >= 1000
      ensures r.Some? ==>
        fresh(r.value) && r.value.maxKeys == maxKeys && r.value.ttlMs == ttlMs && r.value.entries == map[] &&
        r.value.rejected == 0 && r.value.capacityRejected == 0
    {
      if maxKeys < 1 || ttlMs < 1000 { return None; }
      var store := new BoundedMonotonicTimestampStore(maxKeys, ttlMs);
      return Some(store);
    }

    method Prune(nowMs: int)
      modifies this`entries
      ensures entries == Fresh(old(entries), nowMs, ttlMs)
    {
      var keys := entries.Keys;
      while keys != {}
        invariant keys <= entries.Keys <= old(entries).Keys
        invariant forall k :: k in entries ==> entries[k] == old(entries)[k]
        invariant forall k :: k in old(entries) && k !in keys ==>
          (k in entries <==> nowMs - old(entries)[k].lastSeenAtMs < ttlMs)
        decreases keys
      {
        var key :| key in keys;
        if nowMs - entries[key].lastSeenAtMs >= ttlMs { entries := entries - {key}; }
        keys := keys - {key};
      }
    }

    method Accept(key: Key, timestampMs: int, nowMs: int, maxPastMs: int, maxFutureMs: int) returns (ok: bool)
      modifies this
      ensures var (entries', verdict) :=
                AcceptBounded(maxKeys, ttlMs, old(entries), key, timestampMs, nowMs, maxPastMs, maxFutureMs);
              entries == entries' && ok == verdict.Accepted? &&
              rejected == old(rejected) + (if ok then 0 else 1) &&
              capacityRejected == old(capacityRejected) + (if verdict == NoRoom then 1 else 0)
    {
      if timestampMs > nowMs + maxFutureMs || nowMs - timestampMs > maxPastMs {
        rejected := rejected + 1;
        return false;
      }
      if key in entries && timestampMs <= entries[key].timestampMs {
        rejected := rejected + 1;
        return false;
      }
      var known := key in entries;
      if !known && |entries| >= maxKeys { Prune(nowMs); }
      if !known && |entries| >= maxKeys {
        rejected := rejected + 1;
        capacityRejected := capacityRejected + 1;
        return false;
      }
      entries := entries[key := Entry(timestampMs, nowMs)];
      return true;
    }
  }

  // ------------------------------------------------------------------ runs

  datatype Limits = Limits(maxKeys: nat, ttlMs: int, maxPastMs: int, maxFutureMs: int)
  datatype Call = Call(key: Key, timestampMs: int, nowMs: int)

  predicate ValidLimits(l: Limits) {
    l.maxKeys >= 1 && l.ttlMs >= 1
  }

  function Step(l: Limits, entries: Entries, c: Call): (Entries, Verdict) {
    AcceptBounded(l.maxKeys, l.ttlMs, entries, c.key, c.timestampMs, c.nowMs, l.maxPastMs, l.maxFutureMs)
  }

  function StepUnbounded(l: Limits, entries: Entries, c: Call): (Entries, Verdict) {
    AcceptUnbounded(entries, c.key, c.timestampMs, c.nowMs, l.maxPastMs, l.maxFutureMs)
  }

  predicate ClockFrom(from: int, calls: seq<Call>) {
    (calls != [] ==> from <= calls[0].nowMs) &&
    forall i :: 0 < i < |calls| ==> calls[i - 1].nowMs <= calls[i].nowMs
  }

  function Verdicts(l: Limits, entries: Entries, calls: seq<Call>): (vs: seq<Verdict>)
    ensures |vs| == |calls|
    decreases |calls|
  {
    if calls == [] then [] else [Step(l, entries, calls[0]).1] + Verdicts(l, Step(l, entries, calls[0]).0, calls[1..])
  }

  /** Accepted timestamps of one key strictly increase along the run. */
  predicate Increasing(calls: seq<Call>, vs: seq<Verdict>)
    requires |vs| == |calls|
  {
    forall i, j :: 0 <= i < j < |calls| && vs[i] == Accepted && vs[j] == Accepted && calls[i].key == calls[j].key ==>
      calls[i].timestampMs < calls[j].timestampMs
  }

  /** How long a key stays protected after it was last seen: until another key has
      taken its place, and, in a store of one key, has itself gone stale. */
  function ProtectionMs(l: Limits): int {
    if l.maxKeys == 1 then 2 * l.ttlMs else l.ttlMs
  }

  predicate LongEnough(l: Limits) {
    ProtectionMs(l) > l.maxPastMs + l.maxFutureMs
  }

  /** The bounded store against one that never forgets, at one key. A forgotten key
      has been unseen for the time-to-live; in a store of one key, so long before
      the key that replaced it was last seen. */
  predicate TracksAt(l: Limits, entries: Entries, all: Entries, nowMs: int, k: Key) {
    (k in entries ==> k in all && all[k] == entries[k]) &&
    (k in all ==> all[k].timestampMs <= all[k].lastSeenAtMs + l.maxFutureMs && all[k].lastSeenAtMs <= nowMs) &&
    (k in all && k !in entries ==>
      nowMs - all[k].lastSeenAtMs >= l.ttlMs &&
      (l.maxKeys == 1 ==>
        entries != map[] && forall other :: other in entries ==>
          entries[other].lastSeenAtMs - all[k].lastSeenAtMs >= l.ttlMs))
  }

  ghost predicate Tracks(l: Limits, entries: Entries, all: Entries, nowMs: int) {
    |entries| <= l.maxKeys && forall k :: TracksAt(l, entries, all, nowMs, k)
  }

  /** What one call does to the entry of any key. */
  lemma StepAt(l: Limits, entries: Entries, c: Call, k: Key)
    requires ValidLimits(l)
    ensures var (e', v) := Step(l, entries, c);
            if k == c.key && v == Accepted then
              k in e' && e'[k] == Entry(c.timestampMs, c.nowMs)
            else
              (k in e' ==> k in entries && e'[k] == entries[k]) &&
              (k in entries && k !in e' ==>
                k != c.key && c.nowMs - entries[k].lastSeenAtMs >= l.ttlMs && c.key !in entries)
  {
  }

  lemma KeyAdded(entries: Entries, key: Key, e: Entry)
    ensures |entries[key := e]| == |entries| + (if key in entries then 0 else 1)
  {
    assert entries[key := e].Keys == entries.Keys + {key};
  }

  lemma StepBounded(l: Limits, entries: Entries, c: Call)
    requires ValidLimits(l) && |entries| <= l.maxKeys
    ensures |Step(l, entries, c).0| <= l.maxKeys
  {
    var kept := if |entries| >= l.maxKeys then Fresh(entries, c.nowMs, l.ttlMs) else entries;
    assert kept.Keys <= entries.Keys;
    SizeMonotone(kept.Keys, entries.Keys);
    KeyAdded(kept, c.key, Entry(c.timestampMs, c.nowMs));
    KeyAdded(entries, c.key, Entry(c.timestampMs, c.nowMs));
  }

  lemma {:induction false} OnlyKey(entries: Entries, a: Key, b: Key)
    requires |entries| <= 1 && a in entries && b in entries
    ensures a == b
  {
    SizeMonotone({a, b}, entries.Keys);
    assert a != b ==> |{a, b}| == 2;
  }

  /** In a store of one key, an accepted call leaves only its own key. */
  lemma OnlyCaller(l: Limits, entries: Entries, c: Call, k: Key)
    requires ValidLimits(l) && l.maxKeys == 1 && |entries| <= 1
    requires Step(l, entries, c).1 == Accepted && k in Step(l, entries, c).0
    ensures k == c.key
  {
    StepBounded(l, entries, c);
    OnlyKey(Step(l, entries, c).0, k, c.key);
  }

  /** A forgotten key that is accepted again comes with a newer timestamp. */
  lemma ForgottenIsOld(l: Limits, entries: Entries, all: Entries, c: Call, from: int)
    requires ValidLimits(l) && LongEnough(l) && from <= c.nowMs && |entries| <= l.maxKeys
    requires TracksAt(l, entries, all, from, c.key)
    requires c.key in all && c.key !in entries && Step(l, entries, c).1 == Accepted
    ensures c.timestampMs > all[c.key].timestampMs
  {
    if l.maxKeys == 1 {
      var other :| other in entries;
      OneEntrySize(entries, other);
      assert |Fresh(entries, c.nowMs, l.ttlMs)| == 0;
      assert other !in Fresh(entries, c.nowMs, l.ttlMs);
    }
  }

  lemma OneEntrySize(entries: Entries, k: Key)
    requires k in entries
    ensures |entries| >= 1
  {
    SizeMonotone({k}, entries.Keys);
  }

  lemma SameVerdict(l: Limits, entries: Entries, all: Entries, c: Call, from: int)
    requires ValidLimits(l) && LongEnough(l) && from <= c.nowMs && |entries| <= l.maxKeys
    requires TracksAt(l, entries, all, from, c.key)
    ensures Step(l, entries, c).1 != NoRoom ==> Step(l, entries, c).1 == StepUnbounded(l, all, c).1
  {
    if c.key in all && c.key !in entries && Step(l, entries, c).1 == Accepted {
      ForgottenIsOld(l, entries, all, c, from);
    }
  }

  /** The unbounded store after a call the bounded one answered with `v`. */
  function AllAfter(l: Limits, all: Entries, c: Call, v: Verdict): Entries {
    if v == NoRoom then all else StepUnbounded(l, all, c).0
  }

  lemma TracksOther(l: Limits, entries: Entries, all: Entries, c: Call, from: int, k: Key)
    requires ValidLimits(l) && from <= c.nowMs && |entries| <= l.maxKeys && k != c.key
    requires TracksAt(l, entries, all, from, k) && TracksAt(l, entries, all, from, c.key)
    requires var v := Step(l, entries, c).1; v != NoRoom ==> v == StepUnbounded(l, all, c).1
    ensures var (e', v) := Step(l, entries, c); TracksAt(l, e', AllAfter(l, all, c, v), c.nowMs, k)
  {
    var (e', v) := Step(l, entries, c);
    var a' := AllAfter(l, all, c, v);
    StepAt(l, entries, c, k);
    StepAt(l, entries, c, c.key);
    assert k in a' <==> k in all;
    if k in a' && k !in e' && l.maxKeys == 1 {
      if v == Accepted {
        forall other | other in e' ensures e'[other].lastSeenAtMs - a'[k].lastSeenAtMs >= l.ttlMs {
          OnlyCaller(l, entries, c, other);
          if k !in entries && c.key in entries {
            assert entries[c.key].lastSeenAtMs - all[k].lastSeenAtMs >= l.ttlMs;
          }
        }
      } else {
        UnchangedUnlessRoom(l, entries, c);
      }
    }
  }

  lemma UnchangedUnlessRoom(l: Limits, entries: Entries, c: Call)
    requires ValidLimits(l) && l.maxKeys == 1 && |entries| <= 1 && Step(l, entries, c).1 != Accepted
    ensures Step(l, entries, c).0 == entries
  {
    var (e', v) := Step(l, entries, c);
    if v == NoRoom {
      assert e'.Keys <= entries.Keys && |e'| >= 1;
      forall k | k in entries ensures k in e' {
        var x :| x in e';
        OnlyKey(entries, x, k);
      }
    }
  }

  lemma BothStep(l: Limits, entries: Entries, all: Entries, c: Call, from: int)
    returns (e': Entries, a': Entries, v: Verdict, u: Verdict)
    requires ValidLimits(l) && LongEnough(l) && Tracks(l, entries, all, from) && from <= c.nowMs
    ensures (e', v) == Step(l, entries, c) && u == StepUnbounded(l, all, c).1 && a' == AllAfter(l, all, c, v)
    ensures (v == NoRoom || v == u) && Tracks(l, e', a', c.nowMs)
  {
    e', v := Step(l, entries, c).0, Step(l, entries, c).1;
    u, a' := StepUnbounded(l, all, c).1, AllAfter(l, all, c, v);
    assert TracksAt(l, entries, all, from, c.key);
    SameVerdict(l, entries, all, c, from);
    StepBounded(l, entries, c);
    forall k ensures TracksAt(l, e', a', c.nowMs, k) {
      assert TracksAt(l, entries, all, from, k);
      if k != c.key {
        TracksOther(l, entries, all, c, from, k);
      } else {
        TracksSelf(l, entries, all, c, from);
      }
    }
  }

  lemma TracksSelf(l: Limits, entries: Entries, all: Entries, c: Call, from: int)
    requires ValidLimits(l) && from <= c.nowMs && |entries| <= l.maxKeys
    requires TracksAt(l, entries, all, from, c.key)
    requires var v := Step(l, entries, c).1; v != NoRoom ==> v == StepUnbounded(l, all, c).1
    ensures var (e', v) := Step(l, entries, c); TracksAt(l, e', AllAfter(l, all, c, v), c.nowMs, c.key)
  {
    var (e', v) := Step(l, entries, c);
    StepAt(l, entries, c, c.key);
    if v != Accepted && l.maxKeys == 1 { UnchangedUnlessRoom(l, entries, c); }
  }

  /** Answers of the bounded store beside those of the unbounded one, which is not
      shown the calls turned away for lack of room. */
  function Answers(l: Limits, entries: Entries, all: Entries, calls: seq<Call>): (r: seq<(Verdict, Verdict)>)
    ensures |r| == |calls|
    decreases |calls|
  {
    if calls == [] then []
    else
      var (e', v) := Step(l, entries, calls[0]);
      [(v, StepUnbounded(l, all, calls[0]).1)] + Answers(l, e', AllAfter(l, all, calls[0], v), calls[1..])
  }

  predicate SameButCapacity(answers: seq<(Verdict, Verdict)>) {
    forall i :: 0 <= i < |answers| ==> answers[i].0 == NoRoom || answers[i].0 == answers[i].1
  }

  /** Accepted timestamps to come are newer than what the unbounded store remembers. */
  predicate NewerThan(all: Entries, calls: seq<Call>, vs: seq<Verdict>)
    requires |vs| == |calls|
  {
    forall i :: 0 <= i < |calls| && vs[i] == Accepted && calls[i].key in all ==>
      calls[i].timestampMs > all[calls[i].key].timestampMs
  }

  lemma AnswersUnfold(l: Limits, entries: Entries, all: Entries, calls: seq<Call>)
    requires calls != []
    ensures var (e', v) := Step(l, entries, calls[0]);
            var u := StepUnbounded(l, all, calls[0]).1;
            Answers(l, entries, all, calls) == [(v, u)] + Answers(l, e', AllAfter(l, all, calls[0], v), calls[1..]) &&
            Verdicts(l, entries, calls) == [v] + Verdicts(l, e', calls[1..])
  {
  }

  lemma NewerCons(l: Limits, all: Entries, a': Entries, calls: seq<Call>, v: Verdict, vs: seq<Verdict>)
    requires calls != [] && |vs| == |calls| - 1
    requires a' == AllAfter(l, all, calls[0], v) && (v != NoRoom ==> v == StepUnbounded(l, all, calls[0]).1)
    requires NewerThan(a', calls[1..], vs) && Increasing(calls[1..], vs)
    ensures NewerThan(all, calls, [v] + vs) && Increasing(calls, [v] + vs)
  {
    var all2 := [v] + vs;
    assert forall i :: 0 < i < |calls| ==> calls[i] == calls[1..][i - 1] && all2[i] == vs[i - 1];
    forall i | 0 <= i < |calls| && all2[i] == Accepted && calls[i].key in all
      ensures calls[i].timestampMs > all[calls[i].key].timestampMs
    {
      if i > 0 { assert calls[1..][i - 1].key in a'; }
    }
    forall i, j | 0 <= i < j < |calls| && all2[i] == Accepted && all2[j] == Accepted && calls[i].key == calls[j].key
      ensures calls[i].timestampMs < calls[j].timestampMs
    {
      assert vs[j - 1] == Accepted;
      if i == 0 { assert calls[1..][j - 1].key in a'; } else { assert vs[i - 1] == Accepted; }
    }
  }

  /** Over every run: apart from the answers for lack of room the store answers as
      one that never forgets, and accepted timestamps of a key strictly increase. */
  lemma {:induction false} NoReadmission(l: Limits, entries: Entries, all: Entries, from: int, calls: seq<Call>)
    returns (vs: seq<Verdict>)
    requires ValidLimits(l) && LongEnough(l) && Tracks(l, entries, all, from) && ClockFrom(from, calls)
    ensures vs == Verdicts(l, entries, calls) && Increasing(calls, vs) && NewerThan(all, calls, vs)
    ensures SameButCapacity(Answers(l, entries, all, calls))
    decreases |calls|
  {
    if calls == [] {
      vs := [];
    } else {
      var e', a', v, u := BothStep(l, entries, all, calls[0], from);
      var rest := NoReadmission(l, e', a', calls[0].nowMs, calls[1..]);
      AnswersUnfold(l, entries, all, calls);
      NewerCons(l, all, a', calls, v, rest);
      vs := [v] + rest;
    }
  }

  // -------------------------------------------------- exactly when it is safe

  /** No run of a fresh store re-admits a timestamp. */
  ghost predicate Safe(l: Limits) {
    forall from, calls :: ClockFrom(from, calls) ==> Increasing(calls, Verdicts(l, map[], calls))
  }

  function Filler(n: nat): Key {
    Key(seq(n, _ => 'k'))
  }

  /** `n` different keys, all seen at time 0. */
  function Fill(future: int, n: nat): (calls: seq<Call>)
    ensures |calls| == n
    ensures forall i :: 0 <= i < n ==> calls[i] == Call(Filler(i), future, 0)
  {
    if n == 0 then [] else Fill(future, n - 1) + [Call(Filler(n - 1), future, 0)]
  }

  function Filled(future: int, n: nat): Entries {
    if n == 0 then map[] else Filled(future, n - 1)[Filler(n - 1) := Entry(future, 0)]
  }

  function RunEntries(l: Limits, entries: Entries, calls: seq<Call>): Entries
    decreases |calls|
  {
    if calls == [] then entries else RunEntries(l, Step(l, entries, calls[0]).0, calls[1..])
  }

  lemma {:induction false} RunSnoc(l: Limits, entries: Entries, calls: seq<Call>, c: Call)
    ensures var e := RunEntries(l, entries, calls);
            RunEntries(l, entries, calls + [c]) == Step(l, e, c).0 &&
            Verdicts(l, entries, calls + [c]) == Verdicts(l, entries, calls) + [Step(l, e, c).1]
    decreases |calls|
  {
    hide Step;
    if calls == [] {
      assert [c][1..] == [];
      assert calls + [c] == [c];
    } else {
      assert (calls + [c])[1..] == calls[1..] + [c];
      RunSnoc(l, Step(l, entries, calls[0]).0, calls[1..], c);
    }
  }

  lemma FillerDiffers(i: nat, j: nat)
    requires i != j
    ensures Filler(i) != Filler(j)
  {
    assert |Filler(i).text| == i && |Filler(j).text| == j;
  }

  predicate IsFilled(entries: Entries, future: int, n: nat) {
    |entries| == n &&
    forall k :: k in entries ==> entries[k] == Entry(future, 0) && k == Filler(|k.text|) && |k.text| < n
  }

  lemma {:induction false} FillRun(l: Limits, n: nat)
    requires ValidLimits(l) && n <= l.maxKeys && l.maxPastMs + l.maxFutureMs >= 0
    ensures var calls := Fill(l.maxFutureMs, n);
            IsFilled(RunEntries(l, map[], calls), l.maxFutureMs, n) &&
            Verdicts(l, map[], calls) == seq(n, _ => Accepted)
  {
    if n > 0 {
      var calls, c := Fill(l.maxFutureMs, n - 1), Call(Filler(n - 1), l.maxFutureMs, 0);
      var e := RunEntries(l, map[], calls);
      FillRun(l, n - 1);
      RunSnoc(l, map[], calls, c);
      assert c.key !in e;
      KeyAdded(e, c.key, Entry(l.maxFutureMs, 0));
      assert Step(l, e, c) == (e[c.key := Entry(l.maxFutureMs, 0)], Accepted);
      assert seq(n - 1, _ => Accepted) + [Accepted] == seq(n, _ => Accepted);
    }
  }

  /** A full store whose entries have all gone stale forgets them all for one new key. */
  lemma NewcomerClears(l: Limits, e: Entries, c: Call, n: nat)
    requires ValidLimits(l) && n == l.maxKeys && IsFilled(e, l.maxFutureMs, n)
    requires c == Call(Filler(n), l.ttlMs + l.maxFutureMs, l.ttlMs) && l.maxPastMs + l.maxFutureMs >= 0
    ensures Step(l, e, c) == (map[c.key := Entry(c.timestampMs, c.nowMs)], Accepted)
  {
    assert |c.key.text| == n;
    assert c.key !in e;
    assert Fresh(e, c.nowMs, l.ttlMs) == map[];
  }

  /** The run that re-admits: fill the store at time 0, let a newcomer clear it, send
      the first call again as soon as there is room. */
  lemma Readmits(l: Limits) returns (calls: seq<Call>)
    requires ValidLimits(l) && !LongEnough(l)
    ensures ClockFrom(0, calls) && !Increasing(calls, Verdicts(l, map[], calls))
  {
    var n, future := l.maxKeys, l.maxFutureMs;
    var fill := Fill(future, n);
    var newcomer := Call(Filler(n), l.ttlMs + future, l.ttlMs);
    var again := Call(Filler(0), future, ProtectionMs(l));
    FillRun(l, n);
    NewcomerClears(l, RunEntries(l, map[], fill), newcomer, n);
    RunSnoc(l, map[], fill, newcomer);
    RunSnoc(l, map[], fill + [newcomer], again);
    FillerDiffers(0, n);
    var e := map[newcomer.key := Entry(newcomer.timestampMs, newcomer.nowMs)];
    AgainAccepted(l, e, newcomer, again);
    calls := fill + [newcomer] + [again];
    var vs := Verdicts(l, map[], calls);
    assert vs[0] == Accepted && vs[n + 1] == Accepted && calls[0] == Call(Filler(0), future, 0) &&
      calls[n + 1] == again;
  }

  lemma AgainAccepted(l: Limits, e: Entries, newcomer: Call, again: Call)
    requires ValidLimits(l) && !LongEnough(l) && newcomer.key != again.key
    requires newcomer.nowMs == l.ttlMs && again.timestampMs == l.maxFutureMs && again.nowMs == ProtectionMs(l)
    requires e == map[newcomer.key := Entry(newcomer.timestampMs, newcomer.nowMs)]
    ensures Step(l, e, again).1 == Accepted
  {
    if l.maxKeys == 1 {
      assert Fresh(e, again.nowMs, l.ttlMs) == map[];
    }
    assert |e| == 1;
  }

  /** With at least one key and a positive time-to-live, no run with a clock that
      never goes back re-admits a timestamp if and only if the time-to-live (twice
      it, for a store of one key) exceeds the accepted clock skew. */
  lemma SafeIff(l: Limits)
    requires ValidLimits(l)
    ensures Safe(l) <==> LongEnough(l)
  {
    if LongEnough(l) {
      forall from, calls | ClockFrom(from, calls) ensures Increasing(calls, Verdicts(l, map[], calls)) {
        var vs := NoReadmission(l, map[], map[], from, calls);
      }
    } else {
      var calls := Readmits(l);
    }
  }
}
