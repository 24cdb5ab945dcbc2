/** Hysteresis of location alerts
    (services/risk-engine/src/alert-stabilizer.ts). Times are whole milliseconds. */
module AlertStabilizers {
  import opened Collections
  import opened Sorting

  const HOLD_MS := 1_200
  const DOWNGRADE_HOLD_MS := 1_800

  datatype Severity = Safe | Caution | Critical

  function Rank(s: Severity): int {
    match s
    case Safe => 1
    case Caution => 2
    case Critical => 3
  }

  /** `content` is everything an alert carries besides id, severity and time. */
  datatype Alert = Alert(id: Key, severity: Severity, timestampMs: int, content: string)

  /** An incoming alert with its stable key. */
  datatype Incoming = Incoming(key: Key, alert: Alert)

  datatype Active = Active(key: Key, alert: Alert, lastSeenAtMs: int, severityChangedAtMs: int)

  /** The active alerts as a map in insertion order: one entry a key. */
  type Actives = seq<Active>

  function Find(active: Actives, key: Key): (r: Option<Active>)
    ensures r.Some? ==> r.value in active && r.value.key == key
    ensures r.None? ==> forall e :: e in active ==> e.key != key
  {
    if active == [] then None
    else if active[0].key == key then Some(active[0])
    else Find(active[1..], key)
  }

  /** Setting a key keeps its place; a new key goes last. */
  function Put(active: Actives, e: Active): Actives {
    if active == [] then [e]
    else if active[0].key == e.key then [e] + active[1..]
    else [active[0]] + Put(active[1..], e)
  }

  /** The entry an incoming alert leaves. */
  function Entry(previous: Option<Active>, next: Incoming, nowMs: int): Active {
    var held := previous.Some? && Rank(next.alert.severity) < Rank(previous.value.alert.severity) &&
                nowMs - previous.value.severityChangedAtMs < DOWNGRADE_HOLD_MS;
    var severity := if held then previous.value.alert.severity else next.alert.severity;
    var changedAt := if previous.None? || (!held && next.alert.severity != previous.value.alert.severity)
                     then nowMs else previous.value.severityChangedAtMs;
    Active(next.key, next.alert.(id := next.key, severity := severity), nowMs, changedAt)
  }

  function Absorb(active: Actives, incoming: seq<Incoming>, nowMs: int): Actives
    decreases |incoming|
  {
    if incoming == [] then active
    else Absorb(Put(active, Entry(Find(active, incoming[0].key), incoming[0], nowMs)), incoming[1..], nowMs)
  }

  predicate Named(incoming: seq<Incoming>, key: Key) {
    exists i :: 0 <= i < |incoming| && incoming[i].key == key
  }

  function Unexpired(active: Actives, incoming: seq<Incoming>, nowMs: int): Actives {
    if active == [] then []
    else
      var rest := Unexpired(active[1..], incoming, nowMs);
      if !Named(incoming, active[0].key) && nowMs - active[0].lastSeenAtMs > HOLD_MS then rest else [active[0]] + rest
  }

  /** What one call leaves active. */
  function Next(active: Actives, incoming: seq<Incoming>, nowMs: int): Actives {
    Unexpired(Absorb(active, incoming, nowMs), incoming, nowMs)
  }

  function AlertsOf(active: Actives): seq<Alert> {
    if active == [] then [] else [active[0].alert] + AlertsOf(active[1..])
  }

  /** Most severe first, then newest first. */
  predicate Before(a: Alert, b: Alert) {
    Rank(a.severity) > Rank(b.severity) ||
    (Rank(a.severity) == Rank(b.severity) && a.timestampMs >= b.timestampMs)
  }

  /** The reply of one call. */
  function Reply(active: Actives): seq<Alert> {
    SortBy(AlertsOf(active), Before)
  }

  method Evaluate(active: Actives, incoming: seq<Incoming>, nowMs: int) returns (active': Actives, alerts: seq<Alert>)
    ensures active' == Next(active, incoming, nowMs) && alerts == Reply(active')
  {
    var current := active;
    var seen: set<Key> := {};
    var i := 0;
    while i < |incoming|
      invariant i <= |incoming|
      invariant Absorb(current, incoming[i..], nowMs) == Absorb(active, incoming, nowMs)
      invariant forall k :: k in seen <==> Named(incoming[..i], k)
    {
      var next := incoming[i];
      assert incoming[i..][0] == next && incoming[i..][1..] == incoming[i + 1..];
      NamedSnoc(incoming, i);
      seen := seen + {next.key};
      var previous := Find(current, next.key);
      var severity := next.alert.severity;
      var changedAt := if previous.Some? then previous.value.severityChangedAtMs else nowMs;
      if previous.Some? {
        if Rank(next.alert.severity) < Rank(previous.value.alert.severity) &&
           nowMs - previous.value.severityChangedAtMs < DOWNGRADE_HOLD_MS {
          severity := previous.value.alert.severity;
        } else if next.alert.severity != previous.value.alert.severity {
          changedAt := nowMs;
        }
      }
      current := Put(current, Active(next.key, next.alert.(id := next.key, severity := severity), nowMs, changedAt));
      i := i + 1;
    }
    assert incoming[..i] == incoming && incoming[i..] == [];
    assert current == Absorb(active, incoming, nowMs);
    active' := [];
    var j := 0;
    while j < |current|
      invariant j <= |current|
      invariant active' + Unexpired(current[j..], incoming, nowMs) == Unexpired(current, incoming, nowMs)
    {
      assert current[j..][0] == current[j] && current[j..][1..] == current[j + 1..];
      if current[j].key in seen || nowMs - current[j].lastSeenAtMs <= HOLD_MS {
        assert active' + ([current[j]] + Unexpired(current[j + 1..], incoming, nowMs))
          == (active' + [current[j]]) + Unexpired(current[j + 1..], incoming, nowMs);
        active' := active' + [current[j]];
      }
      j := j + 1;
    }
    assert active' + [] == active' && current[j..] == [];
    alerts := SortBy(AlertsOf(active'), Before);
  }

  lemma NamedSnoc(incoming: seq<Incoming>, i: nat)
    requires i < |incoming|
    ensures forall k :: Named(incoming[..i + 1], k) <==> Named(incoming[..i], k) || k == incoming[i].key
  {
    forall k ensures Named(incoming[..i + 1], k) <==> Named(incoming[..i], k) || k == incoming[i].key {
      if Named(incoming[..i], k) {
        var x :| 0 <= x < i && incoming[..i][x].key == k;
        assert incoming[..i + 1][x].key == k;
      }
      if k == incoming[i].key { assert incoming[..i + 1][i].key == k; }
      if Named(incoming[..i + 1], k) {
        var x :| 0 <= x < i + 1 && incoming[..i + 1][x].key == k;
        if x < i { assert incoming[..i][x].key == k; }
      }
    }
  }

  class AlertStabilizer {
    var active: Actives

    constructor ()
      ensures active == []
    {
      active := [];
    }

    method Update(incoming: seq<Incoming>, nowMs: int) returns (alerts: seq<Alert>)
      modifies this
      ensures active == Next(old(active), incoming, nowMs) && alerts == Reply(active)
    {
      active, alerts := Evaluate(active, incoming, nowMs);
    }

    /** The reply `Update` would give; nothing changes. */
    method Preview(incoming: seq<Incoming>, nowMs: int) returns (alerts: seq<Alert>)
      ensures alerts == Reply(Next(active, incoming, nowMs))
    {
      var snapshot: Actives := [];
      var i := 0;
      while i < |active|
        invariant i <= |active| && snapshot == active[..i]
      {
        snapshot := snapshot + [active[i]];
        i := i + 1;
      }
      assert snapshot == active;
      var discarded;
      discarded, alerts := Evaluate(snapshot, incoming, nowMs);
    }
  }

  // ------------------------------------------------------------- replies

  lemma BeforeIsOrder()
    ensures TotalPreorder(Before)
  {
  }

  /** A reply lists exactly the active alerts, most severe and then newest first;
      alerts that tie keep the order in which they became active. */
  lemma ReplySorted(active: Actives, tie: Alert)
    ensures multiset(Reply(active)) == multiset(AlertsOf(active)) && SortedBy(Reply(active), Before)
    ensures Peers(Reply(active), tie, Before) == Peers(AlertsOf(active), tie, Before)
  {
    BeforeIsOrder();
    SortKeeps(AlertsOf(active), Before);
    SortSorts(AlertsOf(active), Before);
    SortStable(AlertsOf(active), tie, Before);
  }

  // ----------------------------------------------------------- one call

  predicate DistinctActive(active: Actives) {
    forall i, j :: 0 <= i < j < |active| ==> active[i].key != active[j].key
  }

  predicate DistinctIncoming(incoming: seq<Incoming>) {
    forall i, j :: 0 <= i < j < |incoming| ==> incoming[i].key != incoming[j].key
  }

  lemma DistinctTail(active: Actives)
    requires DistinctActive(active) && active != []
    ensures DistinctActive(active[1..]) && forall x :: x in active[1..] ==> x in active && x.key != active[0].key
  {
    var rest := active[1..];
    forall i, j | 0 <= i < j < |rest| ensures rest[i].key != rest[j].key {
      assert active[i + 1].key != active[j + 1].key;
    }
  }

  lemma DistinctIncomingTail(incoming: seq<Incoming>)
    requires DistinctIncoming(incoming) && incoming != []
    ensures DistinctIncoming(incoming[1..]) && !Named(incoming[1..], incoming[0].key)
  {
    var rest := incoming[1..];
    forall i, j | 0 <= i < j < |rest| ensures rest[i].key != rest[j].key {
      assert incoming[i + 1].key != incoming[j + 1].key;
    }
    forall x | 0 <= x < |rest| ensures rest[x].key != incoming[0].key { assert incoming[x + 1].key != incoming[0].key; }
  }

  lemma {:induction false} FindAfterPut(active: Actives, e: Active, key: Key)
    ensures Find(Put(active, e), key) == if key == e.key then Some(e) else Find(active, key)
  {
    if active != [] {
      FindAfterPut(active[1..], e, key);
      assert ([e] + active[1..])[1..] == active[1..];
      assert ([active[0]] + Put(active[1..], e))[1..] == Put(active[1..], e);
    }
  }

  lemma {:induction false} PutDistinct(active: Actives, e: Active)
    requires DistinctActive(active)
    ensures DistinctActive(Put(active, e))
    ensures forall x :: x in Put(active, e) ==> x == e || x in active
  {
    if active != [] {
      var rest := active[1..];
      DistinctTail(active);
      PutDistinct(rest, e);
    }
  }

  /** The incoming alert of a key, when there is exactly one. */
  function IncomingOf(incoming: seq<Incoming>, key: Key): Option<Incoming> {
    if incoming == [] then None
    else if incoming[0].key == key then Some(incoming[0])
    else IncomingOf(incoming[1..], key)
  }

  lemma {:induction false} IncomingNamed(incoming: seq<Incoming>, key: Key)
    ensures IncomingOf(incoming, key).Some? <==> Named(incoming, key)
    ensures IncomingOf(incoming, key).Some? ==> IncomingOf(incoming, key).value.key == key
  {
    if incoming != [] {
      IncomingNamed(incoming[1..], key);
      if Named(incoming[1..], key) {
        var x :| 0 <= x < |incoming[1..]| && incoming[1..][x].key == key;
        assert incoming[x + 1].key == key;
      }
      if Named(incoming, key) && incoming[0].key != key {
        var x :| 0 <= x < |incoming| && incoming[x].key == key;
        assert incoming[1..][x - 1].key == key;
      }
    }
  }

  lemma {:induction false} AbsorbFinds(active: Actives, incoming: seq<Incoming>, nowMs: int, key: Key)
    requires DistinctIncoming(incoming) && DistinctActive(active)
    ensures DistinctActive(Absorb(active, incoming, nowMs))
    ensures Find(Absorb(active, incoming, nowMs), key) ==
            match IncomingOf(incoming, key)
            case None => Find(active, key)
            case Some(next) => Some(Entry(Find(active, key), next, nowMs))
    decreases |incoming|
  {
    hide Entry;
    if incoming != [] {
      var first, rest := incoming[0], incoming[1..];
      var e := Entry(Find(active, first.key), first, nowMs);
      EntryKey(Find(active, first.key), first, nowMs);
      DistinctIncomingTail(incoming);
      PutDistinct(active, e);
      FindAfterPut(active, e, key);
      AbsorbFinds(Put(active, e), rest, nowMs, key);
      if first.key == key {
        IncomingNamed(rest, key);
      }
    }
  }

  lemma EntryKey(previous: Option<Active>, next: Incoming, nowMs: int)
    ensures Entry(previous, next, nowMs).key == next.key
  {
  }

  lemma {:induction false} UnexpiredFinds(active: Actives, incoming: seq<Incoming>, nowMs: int, key: Key)
    requires DistinctActive(active)
    ensures DistinctActive(Unexpired(active, incoming, nowMs))
    ensures forall x :: x in Unexpired(active, incoming, nowMs) ==> x in active
    ensures var found := Find(active, key);
            Find(Unexpired(active, incoming, nowMs), key) ==
            if found.Some? && (Named(incoming, key) || nowMs - found.value.lastSeenAtMs <= HOLD_MS) then found else None
  {
    hide Named;
    if active != [] {
      var rest := active[1..];
      DistinctTail(active);
      UnexpiredFinds(rest, incoming, nowMs, key);
      var kept := Unexpired(rest, incoming, nowMs);
      assert ([active[0]] + kept)[1..] == kept;
    }
  }

  /** What one call with distinct keys does to the entry of any key. */
  lemma NextAt(active: Actives, incoming: seq<Incoming>, nowMs: int, key: Key)
    requires DistinctIncoming(incoming) && DistinctActive(active)
    ensures DistinctActive(Next(active, incoming, nowMs))
    ensures var before := Find(active, key);
            Find(Next(active, incoming, nowMs), key) ==
            match IncomingOf(incoming, key)
            case Some(next) => Some(Entry(before, next, nowMs))
            case None => if before.Some? && nowMs - before.value.lastSeenAtMs <= HOLD_MS then before else None
  {
    hide Entry, Absorb, Unexpired, Named, DistinctActive;
    AbsorbFinds(active, incoming, nowMs, key);
    UnexpiredFinds(Absorb(active, incoming, nowMs), incoming, nowMs, key);
    IncomingNamed(incoming, key);
    if IncomingOf(incoming, key).Some? {
      EntrySeen(Find(active, key), IncomingOf(incoming, key).value, nowMs);
    }
  }

  lemma EntrySeen(previous: Option<Active>, next: Incoming, nowMs: int)
    ensures Entry(previous, next, nowMs).lastSeenAtMs == nowMs
  {
  }

  // ------------------------------------------------------------------ runs

  datatype Call = Call(incoming: seq<Incoming>, nowMs: int)

  predicate ValidCalls(from: int, calls: seq<Call>) {
    (forall i :: 0 <= i < |calls| ==> DistinctIncoming(calls[i].incoming)) &&
    (calls != [] ==> from <= calls[0].nowMs) &&
    forall i :: 0 < i < |calls| ==> calls[i - 1].nowMs <= calls[i].nowMs
  }

  /** The active alerts after the first `n` calls. */
  function StateAfter(calls: seq<Call>, n: nat): Actives
    requires n <= |calls|
  {
    if n == 0 then [] else Next(StateAfter(calls, n - 1), calls[n - 1].incoming, calls[n - 1].nowMs)
  }

  function Reported(calls: seq<Call>, n: nat, key: Key): Option<Active>
    requires n <= |calls|
  {
    Find(StateAfter(calls, n), key)
  }

  lemma {:induction false} StatesDistinct(calls: seq<Call>, from: int, n: nat)
    requires ValidCalls(from, calls) && n <= |calls|
    ensures DistinctActive(StateAfter(calls, n))
  {
    hide Next;
    if n > 0 {
      StatesDistinct(calls, from, n - 1);
      NextAt(StateAfter(calls, n - 1), calls[n - 1].incoming, calls[n - 1].nowMs, Key(""));
    }
  }

  /** One call, seen from one key. */
  lemma StepAt(calls: seq<Call>, from: int, n: nat, key: Key)
    requires ValidCalls(from, calls) && n < |calls|
    ensures var before := Reported(calls, n, key);
            Reported(calls, n + 1, key) ==
            match IncomingOf(calls[n].incoming, key)
            case Some(next) => Some(Entry(before, next, calls[n].nowMs))
            case None => if before.Some? && calls[n].nowMs - before.value.lastSeenAtMs <= HOLD_MS then before else None
  {
    hide Next, Entry;
    StatesDistinct(calls, from, n);
    NextAt(StateAfter(calls, n), calls[n].incoming, calls[n].nowMs, key);
  }

  lemma {:induction false} ClockOrdered(calls: seq<Call>, from: int, i: nat, j: nat)
    requires ValidCalls(from, calls) && i <= j < |calls|
    ensures calls[i].nowMs <= calls[j].nowMs
    decreases j - i
  {
    if i < j { ClockOrdered(calls, from, i, j - 1); }
  }

  /** Call `m` made the key appear or changed its reported severity. */
  predicate ChangedBy(calls: seq<Call>, m: nat, key: Key)
    requires m < |calls|
  {
    Reported(calls, m + 1, key).Some? &&
    (Reported(calls, m, key).None? ||
     Reported(calls, m, key).value.alert.severity != Reported(calls, m + 1, key).value.alert.severity)
  }

  /** While the key is tracked, its entry remembers a time no earlier than its last
      change, and no later than the last call that named it. */
  lemma {:induction false} ChangeRemembered(calls: seq<Call>, from: int, m: nat, n: nat, key: Key)
    requires ValidCalls(from, calls) && m < n <= |calls| && ChangedBy(calls, m, key)
    requires forall k :: m < k <= n ==> Reported(calls, k, key).Some?
    ensures Reported(calls, n, key).value.severityChangedAtMs >= calls[m].nowMs
    decreases n
  {
    hide Reported, Find;
    StepAt(calls, from, n - 1, key);
    if n > m + 1 {
      ChangeRemembered(calls, from, m, n - 1, key);
      ClockOrdered(calls, from, m, n - 1);
    }
  }

  /** Over every run with distinct keys a call and a clock that never goes back: while a
      key stays tracked its reported severity drops only 1800 ms or more after its
      last change (or appearance), and is never below an incoming one. */
  lemma DowngradeHeld(calls: seq<Call>, from: int, m: nat, j: nat, key: Key)
    requires ValidCalls(from, calls) && m < j < |calls| && ChangedBy(calls, m, key)
    requires forall k :: m < k <= j + 1 ==> Reported(calls, k, key).Some?
    requires Rank(Reported(calls, j + 1, key).value.alert.severity) < Rank(Reported(calls, j, key).value.alert.severity)
    ensures calls[j].nowMs - calls[m].nowMs >= DOWNGRADE_HOLD_MS
  {
    hide Reported, Find;
    StepAt(calls, from, j, key);
    ChangeRemembered(calls, from, m, j, key);
  }

  lemma NeverBelowIncoming(calls: seq<Call>, from: int, j: nat, key: Key)
    requires ValidCalls(from, calls) && j < |calls| && IncomingOf(calls[j].incoming, key).Some?
    ensures Reported(calls, j + 1, key).Some?
    ensures Rank(Reported(calls, j + 1, key).value.alert.severity) >=
            Rank(IncomingOf(calls[j].incoming, key).value.alert.severity)
  {
    hide Reported, Find;
    StepAt(calls, from, j, key);
  }

  lemma {:induction false} SeenRemembered(calls: seq<Call>, from: int, m: nat, n: nat, key: Key)
    requires ValidCalls(from, calls) && m < n <= |calls| && IncomingOf(calls[m].incoming, key).Some?
    requires forall k :: m < k <= n ==> Reported(calls, k, key).Some?
    ensures Reported(calls, n, key).value.lastSeenAtMs >= calls[m].nowMs
    decreases n
  {
    hide Reported, Find;
    StepAt(calls, from, n - 1, key);
    if n > m + 1 {
      SeenRemembered(calls, from, m, n - 1, key);
      ClockOrdered(calls, from, m, n - 1);
    }
  }

  /** A key that was named leaves only after more than 1200 ms without being named. */
  lemma LeavesOnlyUnseen(calls: seq<Call>, from: int, m: nat, j: nat, key: Key)
    requires ValidCalls(from, calls) && m < j < |calls| && IncomingOf(calls[m].incoming, key).Some?
    requires forall k :: m < k <= j ==> Reported(calls, k, key).Some?
    requires Reported(calls, j + 1, key).None?
    ensures calls[j].nowMs - calls[m].nowMs > HOLD_MS && IncomingOf(calls[j].incoming, key).None?
  {
    hide Reported, Find;
    StepAt(calls, from, j, key);
    SeenRemembered(calls, from, m, j, key);
  }
}
