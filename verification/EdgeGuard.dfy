/** Replay guard for edge telemetry packets
    (services/risk-engine/src/edge-guard.ts:1-86). Times are whole milliseconds. */
module EdgeGuards {
  import opened Collections

  const MAX_PAST_SKEW_MS := 30_000
  const MAX_FUTURE_SKEW_MS := 5_000
  const MAX_GNSS_SKEW_MS := 5_000
  const CLOCK_REGRESSION_MS := 2_000
  const MAX_PRUNE_INTERVAL_MS := 60_000
  const DEFAULT_MAX_SESSIONS := 2_048
  const DEFAULT_SESSION_TTL_MS := 24 * 60 * 60 * 1_000

  datatype Packet = Packet(
    protocolVersion: int, deviceId: Key, bootId: Key, sequence: int, timestampMs: int, gnssTimestampMs: int)

  datatype Session = Session(bootId: Key, lastSequence: int, lastTimestampMs: int, lastSeenAtMs: int)
  type Sessions = map<Key, Session>

  datatype Verdict =
    | Accepted | UnsupportedProtocol | ClockSkew | GnssClockMismatch
    | SequenceReplay | ClockRegression | SessionCapacity

  datatype Options = Options(maxSessions: int, sessionTtlMs: int)

  function Clamp(x: int, lo: int, hi: int): int {
    if x < lo then lo else if x > hi then hi else x
  }

  datatype State = State(sessions: Sessions, lastPruneAtMs: int)

  function Unexpired(sessions: Sessions, nowMs: int, ttlMs: int): Sessions {
    map d | d in sessions && nowMs - sessions[d].lastSeenAtMs <= ttlMs :: sessions[d]
  }

  predicate PruneDue(o: Options, s: State, nowMs: int) {
    |s.sessions| >= o.maxSessions ||
    nowMs - s.lastPruneAtMs >= (if o.sessionTtlMs < MAX_PRUNE_INTERVAL_MS then o.sessionTtlMs
      else MAX_PRUNE_INTERVAL_MS)
  }

  function Pruned(o: Options, s: State, nowMs: int): State {
    if PruneDue(o, s, nowMs) then State(Unexpired(s.sessions, nowMs, o.sessionTtlMs), nowMs) else s
  }

  /** The decision, once expired sessions are gone. */
  function Judge(o: Options, sessions: Sessions, p: Packet, nowMs: int): Verdict {
    var skew := p.timestampMs - nowMs;
    var gnssSkew := p.gnssTimestampMs - p.timestampMs;
    if p.protocolVersion != 1 then UnsupportedProtocol
    else if skew > MAX_FUTURE_SKEW_MS || skew < -MAX_PAST_SKEW_MS then ClockSkew
    else if gnssSkew > MAX_GNSS_SKEW_MS || gnssSkew < -MAX_GNSS_SKEW_MS then GnssClockMismatch
    else if p.deviceId !in sessions then (if |sessions| >= o.maxSessions then SessionCapacity else Accepted)
    else
      var previous := sessions[p.deviceId];
      if previous.bootId != p.bootId then Accepted
      else if p.sequence <= previous.lastSequence then SequenceReplay
      else if p.timestampMs < previous.lastTimestampMs - CLOCK_REGRESSION_MS then ClockRegression
      else Accepted
  }

  function Accept(o: Options, s: State, p: Packet, nowMs: int): (State, Verdict) {
    var s' := Pruned(o, s, nowMs);
    var v := Judge(o, s'.sessions, p, nowMs);
    if v == Accepted
    then (s'.(sessions := s'.sessions[p.deviceId := Session(p.bootId, p.sequence, p.timestampMs, nowMs)]), v)
    else (s', v)
  }

  class EdgePacketGuard {
    const options: Options
    var sessions: Sessions
    var lastPruneAtMs: int
    var rejectedPackets: nat

    ghost function View(): State
      reads this
    {
      State(sessions, lastPruneAtMs)
    }

    /** Out-of-range settings are clamped, not refused. */
    constructor (maxSessions: int := DEFAULT_MAX_SESSIONS, sessionTtlMs: int := DEFAULT_SESSION_TTL_MS)
      ensures 1 <= options.maxSessions <= 100_000 && 1_000 <= options.sessionTtlMs <= 7 * 24 * 60 * 60 * 1_000
      ensures 1 <= maxSessions <= 100_000 ==> options.maxSessions == maxSessions
      ensures maxSessions < 1 ==> options.maxSessions == 1
      ensures maxSessions > 100_000 ==> options.maxSessions == 100_000
      ensures 1_000 <= sessionTtlMs <= 7 * 24 * 60 * 60 * 1_000 ==> options.sessionTtlMs == sessionTtlMs
      ensures sessionTtlMs < 1_000 ==> options.sessionTtlMs == 1_000
      ensures sessionTtlMs > 7 * 24 * 60 * 60 * 1_000 ==> options.sessionTtlMs == 7 * 24 * 60 * 60 * 1_000
      ensures View() == State(map[], 0) && rejectedPackets == 0
    {
      options := Options(Clamp(maxSessions, 1, 100_000), Clamp(sessionTtlMs, 1_000, 7 * 24 * 60 * 60 * 1_000));
      sessions, lastPruneAtMs, rejectedPackets := map[], 0, 0;
    }

    method PruneExpired(nowMs: int)
      modifies this
      ensures View() == Pruned(options, old(View()), nowMs) && rejectedPackets == old(rejectedPackets)
    {
      var interval := if options.sessionTtlMs < MAX_PRUNE_INTERVAL_MS then options.sessionTtlMs
        else MAX_PRUNE_INTERVAL_MS;
      if |sessions| < options.maxSessions && nowMs - lastPruneAtMs < interval { return; }
      lastPruneAtMs := nowMs;
      var devices := sessions.Keys;
      while devices != {}
        invariant devices <= sessions.Keys <= old(sessions).Keys
        invariant forall d :: d in sessions ==> sessions[d] == old(sessions)[d]
        invariant forall d :: d in old(sessions) && d !in devices ==>
          (d in sessions <==> nowMs - old(sessions)[d].lastSeenAtMs <= options.sessionTtlMs)
        invariant lastPruneAtMs == nowMs && rejectedPackets == old(rejectedPackets)
        decreases devices
      {
        var d :| d in devices;
        if nowMs - sessions[d].lastSeenAtMs > options.sessionTtlMs { sessions := sessions - {d}; }
        devices := devices - {d};
      }
      assert sessions == Unexpired(old(sessions), nowMs, options.sessionTtlMs);
    }

    method AcceptPacket(p: Packet, nowMs: int) returns (v: Verdict)
      modifies this
      ensures (View(), v) == Accept(options, old(View()), p, nowMs)
      ensures rejectedPackets == old(rejectedPackets) + (if v == Accepted then 0 else 1)
    {
      PruneExpired(nowMs);
      v := Judge(options, sessions, p, nowMs);
      if v != Accepted {
        rejectedPackets := rejectedPackets + 1;
        return;
      }
      sessions := sessions[p.deviceId := Session(p.bootId, p.sequence, p.timestampMs, nowMs)];
    }
  }

  // ------------------------------------------------------------------ runs

  datatype Arrival = Arrival(packet: Packet, nowMs: int)

  predicate ValidOptions(o: Options) {
    o.maxSessions >= 1 && o.sessionTtlMs >= 1_000
  }

  predicate ClockFrom(from: int, run: seq<Arrival>) {
    (run != [] ==> from <= run[0].nowMs) &&
    forall i :: 0 < i < |run| ==> run[i - 1].nowMs <= run[i].nowMs
  }

  function Step(o: Options, s: State, a: Arrival): (State, Verdict) {
    Accept(o, s, a.packet, a.nowMs)
  }

  function RunState(o: Options, s: State, run: seq<Arrival>): State
    decreases |run|
  {
    if run == [] then s else RunState(o, Step(o, s, run[0]).0, run[1..])
  }

  function Verdicts(o: Options, s: State, run: seq<Arrival>): (vs: seq<Verdict>)
    ensures |vs| == |run|
    decreases |run|
  {
    if run == [] then [] else [Step(o, s, run[0]).1] + Verdicts(o, Step(o, s, run[0]).0, run[1..])
  }

  lemma KeyAdded(sessions: Sessions, d: Key, x: Session)
    ensures |sessions[d := x]| == |sessions| + (if d in sessions then 0 else 1)
  {
    assert sessions[d := x].Keys == sessions.Keys + {d};
  }

  /** The number of sessions never exceeds `maxSessions`, whatever the clock does. */
  lemma {:induction false} SessionsBounded(o: Options, s: State, run: seq<Arrival>)
    requires ValidOptions(o) && |s.sessions| <= o.maxSessions
    ensures |RunState(o, s, run).sessions| <= o.maxSessions
    decreases |run|
  {
    if run != [] {
      var a := run[0];
      var pruned := Pruned(o, s, a.nowMs).sessions;
      assert pruned.Keys <= s.sessions.Keys;
      SizeMonotone(pruned.Keys, s.sessions.Keys);
      KeyAdded(pruned, a.packet.deviceId,
               Session(a.packet.bootId, a.packet.sequence, a.packet.timestampMs, a.nowMs));
      SessionsBounded(o, Step(o, s, a).0, run[1..]);
    }
  }

  /** `a` was accepted and is of device `d`. */
  predicate Counts(a: Arrival, v: Verdict, d: Key) {
    v == Accepted && a.packet.deviceId == d
  }

  /** Arrivals i and j are accepted packets of one device, and so is no packet of
      another boot of that device between them. */
  predicate SameBoot(run: seq<Arrival>, vs: seq<Verdict>, i: nat, j: nat)
    requires |vs| == |run|
  {
    i < j < |run| && var d := run[j].packet.deviceId;
    Counts(run[i], vs[i], d) && Counts(run[j], vs[j], d) &&
    forall m :: i <= m <= j && Counts(run[m], vs[m], d) ==> run[m].packet.bootId == run[j].packet.bootId
  }

  /** Newer within a boot: by sequence number, or because the session had expired. */
  predicate Ordered(o: Options, a: Arrival, b: Arrival) {
    a.packet.sequence < b.packet.sequence || b.nowMs > a.nowMs + o.sessionTtlMs
  }

  predicate AllOrdered(o: Options, run: seq<Arrival>, vs: seq<Verdict>)
    requires |vs| == |run|
  {
    forall i, j :: 0 <= i < j < |run| && SameBoot(run, vs, i, j) ==> Ordered(o, run[i], run[j])
  }

  /** The last accepted arrival of each device, never forgotten. */
  type Memory = map<Key, Arrival>

  predicate RemembersAt(o: Options, s: State, memory: Memory, nowMs: int, d: Key) {
    (d in memory ==> memory[d].packet.deviceId == d && memory[d].nowMs <= nowMs) &&
    (d in s.sessions ==> d in memory && var p := memory[d].packet;
      s.sessions[d] == Session(p.bootId, p.sequence, p.timestampMs, memory[d].nowMs)) &&
    (d in memory && d !in s.sessions ==> nowMs > memory[d].nowMs + o.sessionTtlMs)
  }

  ghost predicate Remembers(o: Options, s: State, memory: Memory, nowMs: int) {
    forall d :: RemembersAt(o, s, memory, nowMs, d)
  }

  function Remember(memory: Memory, a: Arrival, v: Verdict): Memory {
    if v == Accepted then memory[a.packet.deviceId := a] else memory
  }

  lemma StepRemembersAt(o: Options, s: State, memory: Memory, a: Arrival, from: int, d: Key)
    requires from <= a.nowMs && RemembersAt(o, s, memory, from, d)
    ensures var (s', v) := Step(o, s, a); RemembersAt(o, s', Remember(memory, a, v), a.nowMs, d)
  {
  }

  lemma StepOrdered(o: Options, s: State, memory: Memory, a: Arrival, from: int)
    requires from <= a.nowMs && RemembersAt(o, s, memory, from, a.packet.deviceId)
    requires Step(o, s, a).1 == Accepted && a.packet.deviceId in memory
    requires memory[a.packet.deviceId].packet.bootId == a.packet.bootId
    ensures Ordered(o, memory[a.packet.deviceId], a)
  {
  }

  lemma StepRemembers(o: Options, s: State, memory: Memory, a: Arrival, from: int) returns (s': State, v: Verdict)
    requires from <= a.nowMs && Remembers(o, s, memory, from)
    ensures (s', v) == Step(o, s, a) && Remembers(o, s', Remember(memory, a, v), a.nowMs)
    ensures (v == Accepted && a.packet.deviceId in memory &&
             memory[a.packet.deviceId].packet.bootId == a.packet.bootId) ==>
      Ordered(o, memory[a.packet.deviceId], a)
  {
    s', v := Step(o, s, a).0, Step(o, s, a).1;
    assert RemembersAt(o, s, memory, from, a.packet.deviceId);
    if v == Accepted && a.packet.deviceId in memory && memory[a.packet.deviceId].packet.bootId == a.packet.bootId {
      StepOrdered(o, s, memory, a, from);
    }
    forall d ensures RemembersAt(o, s', Remember(memory, a, v), a.nowMs, d) {
      assert RemembersAt(o, s, memory, from, d);
      StepRemembersAt(o, s, memory, a, from, d);
    }
  }

  /** Accepted arrivals to come follow the remembered one of their device, as long as
      the device does not change its boot. */
  predicate FollowsMemory(o: Options, memory: Memory, run: seq<Arrival>, vs: seq<Verdict>)
    requires |vs| == |run|
  {
    forall j :: 0 <= j < |run| && OnMemory(memory, run, vs, j) ==>
      Ordered(o, memory[run[j].packet.deviceId], run[j])
  }

  /** Arrival j is accepted, of a remembered device still on the remembered boot. */
  predicate OnMemory(memory: Memory, run: seq<Arrival>, vs: seq<Verdict>, j: nat)
    requires |vs| == |run| && j < |run|
  {
    vs[j] == Accepted && run[j].packet.deviceId in memory &&
    StaysOn(run, vs, j, memory[run[j].packet.deviceId].packet.bootId)
  }

  /** All accepted packets of j's device up to j are of boot `b`. */
  predicate StaysOn(run: seq<Arrival>, vs: seq<Verdict>, j: nat, b: Key)
    requires |vs| == |run| && j < |run|
  {
    forall m :: 0 <= m <= j && Counts(run[m], vs[m], run[j].packet.deviceId) ==> run[m].packet.bootId == b
  }

  lemma OrderedThrough(o: Options, a: Arrival, b: Arrival, c: Arrival)
    requires Ordered(o, a, b) && Ordered(o, b, c) && a.nowMs <= b.nowMs <= c.nowMs
    ensures Ordered(o, a, c)
  {
  }

  lemma {:induction false} LaterClock(from: int, run: seq<Arrival>, j: nat)
    requires ClockFrom(from, run) && j < |run|
    ensures run[0].nowMs <= run[j].nowMs
  {
    if j > 0 { LaterClock(from, run, j - 1); }
  }

  lemma FollowsCons(o: Options, memory: Memory, from: int, run: seq<Arrival>, v: Verdict, vs: seq<Verdict>, j: nat)
    requires run != [] && |vs| == |run| - 1 && ClockFrom(from, run) && j < |run|
    requires FollowsMemory(o, Remember(memory, run[0], v), run[1..], vs)
    requires var d := run[0].packet.deviceId;
             d in memory ==>
               memory[d].nowMs <= run[0].nowMs &&
               (v == Accepted && memory[d].packet.bootId == run[0].packet.bootId ==> Ordered(o, memory[d], run[0]))
    requires OnMemory(memory, run, [v] + vs, j)
    ensures Ordered(o, memory[run[j].packet.deviceId], run[j])
  {
    var all := [v] + vs;
    var d := run[j].packet.deviceId;
    LaterClock(from, run, j);
    assert Counts(run[0], all[0], d) ==> run[0].packet.bootId == memory[d].packet.bootId;
    if j > 0 {
      var memory' := Remember(memory, run[0], v);
      assert StaysOn(run[1..], vs, j - 1, memory[d].packet.bootId) by {
        forall m | 0 <= m <= j - 1 && Counts(run[1..][m], vs[m], d)
          ensures run[1..][m].packet.bootId == memory[d].packet.bootId
        {
          assert Counts(run[m + 1], all[m + 1], d);
        }
      }
      assert memory'[d].packet.bootId == memory[d].packet.bootId;
      assert Ordered(o, memory'[d], run[1..][j - 1]);
      if v == Accepted && run[0].packet.deviceId == d {
        OrderedThrough(o, memory[d], run[0], run[j]);
      }
    }
  }

  lemma OrderedCons(o: Options, memory: Memory, run: seq<Arrival>, v: Verdict, vs: seq<Verdict>, i: nat, j: nat)
    requires run != [] && |vs| == |run| - 1 && i < j < |run|
    requires AllOrdered(o, run[1..], vs) && FollowsMemory(o, Remember(memory, run[0], v), run[1..], vs)
    requires SameBoot(run, [v] + vs, i, j)
    ensures Ordered(o, run[i], run[j])
  {
    var all := [v] + vs;
    var d := run[j].packet.deviceId;
    assert Counts(run[i], all[i], d) && Counts(run[j], all[j], d);
    forall m | 0 <= m < |vs| && i <= m + 1 <= j && Counts(run[1..][m], vs[m], d)
      ensures run[1..][m].packet.bootId == run[j].packet.bootId
    {
      assert Counts(run[m + 1], all[m + 1], d);
    }
    if i == 0 {
      assert StaysOn(run[1..], vs, j - 1, run[0].packet.bootId);
      assert Remember(memory, run[0], v)[d] == run[0];
      assert Ordered(o, run[0], run[1..][j - 1]);
    } else {
      assert SameBoot(run[1..], vs, i - 1, j - 1);
    }
  }

  /** Between boot changes of a device, every accepted packet has a larger sequence
      number than the ones before it, unless the session expired in between. */
  lemma {:induction false} SequencesIncrease(o: Options, s: State, memory: Memory, from: int, run: seq<Arrival>)
    returns (vs: seq<Verdict>)
    requires ValidOptions(o) && Remembers(o, s, memory, from) && ClockFrom(from, run)
    ensures vs == Verdicts(o, s, run) && AllOrdered(o, run, vs) && FollowsMemory(o, memory, run, vs)
    decreases |run|
  {
    if run == [] {
      vs := [];
    } else {
      var a := run[0];
      var s', v := StepRemembers(o, s, memory, a, from);
      assert RemembersAt(o, s, memory, from, a.packet.deviceId);
      var rest := SequencesIncrease(o, s', Remember(memory, a, v), a.nowMs, run[1..]);
      vs := [v] + rest;
      forall i, j | 0 <= i < j < |run| && SameBoot(run, vs, i, j) ensures Ordered(o, run[i], run[j]) {
        OrderedCons(o, memory, run, v, rest, i, j);
      }
      forall j | 0 <= j < |run| && OnMemory(memory, run, vs, j)
        ensures Ordered(o, memory[run[j].packet.deviceId], run[j])
      {
        FollowsCons(o, memory, from, run, v, rest, j);
      }
    }
  }

  // -------------------------------------------- expiry never re-admits a packet

  /** No accepted packet is accepted again while its device stays on one boot. */
  predicate NoReadmission(run: seq<Arrival>, vs: seq<Verdict>)
    requires |vs| == |run|
  {
    forall i, j :: 0 <= i < j < |run| && SameBoot(run, vs, i, j) ==> run[i].packet != run[j].packet
  }

  ghost predicate Safe(o: Options) {
    forall from, run :: ClockFrom(from, run) ==> NoReadmission(run, Verdicts(o, State(map[], 0), run))
  }

  lemma {:induction false} AcceptedInSkew(o: Options, s: State, run: seq<Arrival>, i: nat)
    requires i < |run| && Verdicts(o, s, run)[i] == Accepted
    ensures -MAX_PAST_SKEW_MS <= run[i].packet.timestampMs - run[i].nowMs <= MAX_FUTURE_SKEW_MS
    decreases |run|
  {
    if i > 0 { AcceptedInSkew(o, Step(o, s, run[0]).0, run[1..], i - 1); }
  }

  /** Two packets of one device and boot, the second once the session has expired: a
      fresh guard accepts both, whatever their sequence numbers. */
  lemma ExpiredAccepts(o: Options, p: Packet, q: Packet, nowMs: int) returns (run: seq<Arrival>, vs: seq<Verdict>)
    requires ValidOptions(o) && nowMs > o.sessionTtlMs && p.deviceId == q.deviceId && p.bootId == q.bootId
    requires Judge(o, map[], p, 0) == Accepted && Judge(o, map[], q, nowMs) == Accepted
    ensures run == [Arrival(p, 0), Arrival(q, nowMs)] && ClockFrom(0, run)
    ensures vs == Verdicts(o, State(map[], 0), run) == [Accepted, Accepted] && SameBoot(run, vs, 0, 1)
  {
    hide Judge;
    var first, again := Arrival(p, 0), Arrival(q, nowMs);
    run := [first, again];
    var s0 := State(map[], 0);
    var s1 := State(map[p.deviceId := Session(p.bootId, p.sequence, p.timestampMs, 0)], 0);
    assert Step(o, s0, first) == (s1, Accepted) by {
      assert Pruned(o, s0, 0).sessions == map[];
      assert Pruned(o, s0, 0).lastPruneAtMs == 0;
    }
    assert Unexpired(s1.sessions, nowMs, o.sessionTtlMs) == map[];
    assert Pruned(o, s1, nowMs) == State(map[], nowMs);
    assert Step(o, s1, again).1 == Accepted;
    vs := Verdicts(o, s0, run);
    assert run[1..] == [again];
    assert vs == [Accepted, Accepted] by {
      assert Verdicts(o, s0, run) == [Accepted] + Verdicts(o, s1, [again]);
      assert Verdicts(o, s1, [again]) == [Accepted] + Verdicts(o, Step(o, s1, again).0, [again][1..]);
    }
  }

  /** The run that re-admits: a packet stamped as far ahead as allowed, and the same
      packet once its session has expired and it is just not too old. */
  lemma Readmits(o: Options) returns (run: seq<Arrival>)
    requires ValidOptions(o) && o.sessionTtlMs < MAX_PAST_SKEW_MS + MAX_FUTURE_SKEW_MS
    ensures ClockFrom(0, run) && !NoReadmission(run, Verdicts(o, State(map[], 0), run))
  {
    hide Verdicts;
    var p := Packet(1, Key("d"), Key("b"), 1, MAX_FUTURE_SKEW_MS, MAX_FUTURE_SKEW_MS);
    var vs: seq<Verdict>;
    run, vs := ExpiredAccepts(o, p, p, MAX_PAST_SKEW_MS + MAX_FUTURE_SKEW_MS);
  }

  /** Session expiry never re-admits an accepted packet of the same boot if and only
      if sessions live at least as long as the accepted clock skew, 35 seconds. */
  lemma SafeIff(o: Options)
    requires ValidOptions(o)
    ensures Safe(o) <==> o.sessionTtlMs >= MAX_PAST_SKEW_MS + MAX_FUTURE_SKEW_MS
  {
    var s0 := State(map[], 0);
    if o.sessionTtlMs >= MAX_PAST_SKEW_MS + MAX_FUTURE_SKEW_MS {
      forall from, run: seq<Arrival> | ClockFrom(from, run) ensures NoReadmission(run, Verdicts(o, s0, run)) {
        var vs := SequencesIncrease(o, s0, map[], from, run);
        forall i, j | 0 <= i < j < |run| && SameBoot(run, vs, i, j) ensures run[i].packet != run[j].packet {
          AcceptedInSkew(o, s0, run, i);
          AcceptedInSkew(o, s0, run, j);
        }
      }
    } else {
      var run := Readmits(o);
    }
  }

  // ------------------------------------- when sequence numbers must increase

  /** Accepted packets of one boot that arrive `gapMs` apart have increasing sequence
      numbers. */
  predicate OrderedAtGap(run: seq<Arrival>, vs: seq<Verdict>, gapMs: int)
    requires |vs| == |run|
  {
    forall i, j :: 0 <= i < j < |run| && SameBoot(run, vs, i, j) && run[j].nowMs - run[i].nowMs == gapMs ==>
      run[i].packet.sequence < run[j].packet.sequence
  }

  ghost predicate IncreaseAtGap(o: Options, gapMs: int) {
    forall from, run :: ClockFrom(from, run) ==> OrderedAtGap(run, Verdicts(o, State(map[], 0), run), gapMs)
  }

  /** The run that starts lower: sequence 7, and sequence 3 once the session has expired. */
  lemma StartsLower(o: Options, gapMs: int) returns (run: seq<Arrival>)
    requires ValidOptions(o) && gapMs > o.sessionTtlMs
    ensures ClockFrom(0, run) && !OrderedAtGap(run, Verdicts(o, State(map[], 0), run), gapMs)
  {
    hide Verdicts;
    var vs: seq<Verdict>;
    run, vs := ExpiredAccepts(o, Packet(1, Key("d"), Key("b"), 7, 0, 0),
      Packet(1, Key("d"), Key("b"), 3, gapMs, gapMs), gapMs);
  }

  /** Over every run, accepted packets of one boot that arrive `gapMs` apart have
      increasing sequence numbers if and only if a session outlives the gap. */
  lemma SequencesIncreaseIff(o: Options, gapMs: int)
    requires ValidOptions(o)
    ensures IncreaseAtGap(o, gapMs) <==> gapMs <= o.sessionTtlMs
  {
    hide Verdicts, SameBoot;
    var s0 := State(map[], 0);
    if gapMs <= o.sessionTtlMs {
      forall from, run: seq<Arrival> | ClockFrom(from, run) ensures OrderedAtGap(run, Verdicts(o, s0, run), gapMs) {
        var vs := SequencesIncrease(o, s0, map[], from, run);
      }
    } else {
      var run := StartsLower(o, gapMs);
    }
  }
}
