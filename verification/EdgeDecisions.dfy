/** Every answer of the packet guard, told from the packet and the last accepted packet of
    each device (services/risk-engine/src/edge-guard.ts:52-86). */
module EdgeDecisions {
  import opened Collections
  import opened EdgeGuards

  /** The last accepted arrival of every device after a run. */
  function RunMemory(o: Options, s: State, memory: Memory, run: seq<Arrival>): Memory
    decreases |run|
  {
    if run == [] then memory
    else
      var (s', v) := Step(o, s, run[0]);
      RunMemory(o, s', Remember(memory, run[0], v), run[1..])
  }

  /** The device was accepted within the session's time-to-live. */
  predicate SeenLately(o: Options, memory: Memory, d: Key, nowMs: int) {
    d in memory && nowMs <= memory[d].nowMs + o.sessionTtlMs
  }

  function OthersSeenLately(o: Options, memory: Memory, d: Key, nowMs: int): set<Key> {
    set other | other in memory && other != d && SeenLately(o, memory, other, nowMs)
  }

  function Distance(a: int, b: int): int {
    if a < b then b - a else a - b
  }

  /** What is wrong with a packet that follows `last` in one session. */
  function Against(last: Packet, p: Packet): Verdict {
    if last.bootId != p.bootId then Accepted
    else if p.sequence <= last.sequence then SequenceReplay
    else if p.timestampMs + 2000 < last.timestampMs then ClockRegression
    else Accepted
  }

  /** What the guard answers. Only one thing is not settled by the last packets: whether
      an expired session has been dropped yet. */
  predicate Answers(o: Options, memory: Memory, a: Arrival, v: Verdict) {
    var p, d := a.packet, a.packet.deviceId;
    if p.protocolVersion != 1 then v == UnsupportedProtocol
    else if p.timestampMs > a.nowMs + 5000 || p.timestampMs < a.nowMs - 30000 then v == ClockSkew
    else if Distance(p.gnssTimestampMs, p.timestampMs) > 5000 then v == GnssClockMismatch
    else if SeenLately(o, memory, d, a.nowMs) then v == Against(memory[d].packet, p)
    else if |OthersSeenLately(o, memory, d, a.nowMs)| >= o.maxSessions then v == SessionCapacity
    else if d !in memory then v == Accepted
    else v == Accepted || v == Against(memory[d].packet, p)
  }

  lemma RememberedKeys(o: Options, s: State, memory: Memory, d: Key, nowMs: int)
    requires Remembers(o, s, memory, nowMs)
    ensures Unexpired(s.sessions, nowMs, o.sessionTtlMs).Keys - {d} == OthersSeenLately(o, memory, d, nowMs)
  {
    var kept, others := Unexpired(s.sessions, nowMs, o.sessionTtlMs).Keys - {d}, OthersSeenLately(o, memory, d, nowMs);
    forall k | k in kept ensures k in others {
      assert RemembersAt(o, s, memory, nowMs, k);
    }
    forall k | k in others ensures k in kept {
      assert RemembersAt(o, s, memory, nowMs, k);
    }
  }

  /** A place is refused exactly when the other live sessions fill the table. */
  lemma PlaceFor(o: Options, s: State, d: Key, nowMs: int)
    requires ValidOptions(o) && |s.sessions| <= o.maxSessions
    requires d !in Unexpired(s.sessions, nowMs, o.sessionTtlMs)
    ensures var pruned := Pruned(o, s, nowMs).sessions;
            |Unexpired(s.sessions, nowMs, o.sessionTtlMs).Keys - {d}| >= o.maxSessions <==>
            d !in pruned && |pruned| >= o.maxSessions
  {
    var live := Unexpired(s.sessions, nowMs, o.sessionTtlMs);
    assert live.Keys <= s.sessions.Keys && |live| == |live.Keys| && live.Keys - {d} == live.Keys;
    SizeMonotone(live.Keys, s.sessions.Keys);
  }

  lemma JudgeIs(o: Options, s: State, a: Arrival)
    requires a.packet.protocolVersion == 1 && a.nowMs - 30000 <= a.packet.timestampMs <= a.nowMs + 5000
    requires Distance(a.packet.gnssTimestampMs, a.packet.timestampMs) <= 5000
    ensures var sessions, d := Pruned(o, s, a.nowMs).sessions, a.packet.deviceId;
            d !in sessions ==>
              Step(o, s, a).1 == if |sessions| >= o.maxSessions then SessionCapacity else Accepted
    ensures var sessions, d := Pruned(o, s, a.nowMs).sessions, a.packet.deviceId;
            d in sessions ==>
              var x := sessions[d];
              Step(o, s, a).1 ==
              Against(Packet(1, d, x.bootId, x.lastSequence, x.lastTimestampMs, x.lastTimestampMs), a.packet)
  {
    hide Pruned;
  }

  lemma PrunedKeeps(o: Options, s: State, d: Key, nowMs: int)
    ensures var pruned := Pruned(o, s, nowMs).sessions;
            (d in pruned ==> d in s.sessions && pruned[d] == s.sessions[d]) &&
            (d in s.sessions && nowMs - s.sessions[d].lastSeenAtMs <= o.sessionTtlMs ==> d in pruned)
  {
  }

  lemma BadPacket(o: Options, s: State, memory: Memory, a: Arrival)
    requires a.packet.protocolVersion != 1 || a.packet.timestampMs > a.nowMs + 5000 ||
             a.packet.timestampMs < a.nowMs - 30000 || Distance(a.packet.gnssTimestampMs, a.packet.timestampMs) > 5000
    ensures Answers(o, memory, a, Step(o, s, a).1)
  {
    hide Pruned, OthersSeenLately;
  }

  predicate Sound(a: Arrival) {
    a.packet.protocolVersion == 1 && a.nowMs - 30000 <= a.packet.timestampMs <= a.nowMs + 5000 &&
    Distance(a.packet.gnssTimestampMs, a.packet.timestampMs) <= 5000
  }

  lemma LatelyAnswers(o: Options, s: State, memory: Memory, a: Arrival)
    requires Sound(a) && RemembersAt(o, s, memory, a.nowMs, a.packet.deviceId)
    requires SeenLately(o, memory, a.packet.deviceId, a.nowMs)
    ensures Step(o, s, a).1 == Against(memory[a.packet.deviceId].packet, a.packet)
  {
    hide Pruned, Step;
    PrunedKeeps(o, s, a.packet.deviceId, a.nowMs);
    JudgeIs(o, s, a);
  }

  lemma LateAnswers(o: Options, s: State, memory: Memory, a: Arrival)
    requires ValidOptions(o) && |s.sessions| <= o.maxSessions && Sound(a) && Remembers(o, s, memory, a.nowMs)
    requires !SeenLately(o, memory, a.packet.deviceId, a.nowMs)
    ensures var d, v := a.packet.deviceId, Step(o, s, a).1;
            if |OthersSeenLately(o, memory, d, a.nowMs)| >= o.maxSessions then v == SessionCapacity
            else v == Accepted || (d in memory && v == Against(memory[d].packet, a.packet))
  {
    hide Pruned, OthersSeenLately, Step, Unexpired, Against;
    var d := a.packet.deviceId;
    assert RemembersAt(o, s, memory, a.nowMs, d);
    PrunedKeeps(o, s, d, a.nowMs);
    JudgeIs(o, s, a);
    NotLive(o, s, memory, d, a.nowMs);
    RememberedKeys(o, s, memory, d, a.nowMs);
    PlaceFor(o, s, d, a.nowMs);
    if |OthersSeenLately(o, memory, d, a.nowMs)| < o.maxSessions {
      RoomUnlessKept(o, s, d, a.nowMs);
      if d in memory { SameAgainst(memory[d].packet, a.packet); }
    }
  }

  /** Only boot, sequence number and timestamp of the last packet matter. */
  lemma SameAgainst(last: Packet, p: Packet)
    ensures Against(Packet(1, p.deviceId, last.bootId, last.sequence, last.timestampMs, last.timestampMs), p) ==
            Against(last, p)
  {
  }

  lemma StepAnswers(o: Options, s: State, memory: Memory, a: Arrival)
    requires ValidOptions(o) && |s.sessions| <= o.maxSessions && Remembers(o, s, memory, a.nowMs)
    ensures Answers(o, memory, a, Step(o, s, a).1)
  {
    hide OthersSeenLately, Step, Against;
    if Sound(a) {
      var d := a.packet.deviceId;
      assert RemembersAt(o, s, memory, a.nowMs, d);
      if SeenLately(o, memory, d, a.nowMs) {
        LatelyAnswers(o, s, memory, a);
      } else {
        LateAnswers(o, s, memory, a);
      }
    } else {
      BadPacket(o, s, memory, a);
    }
  }

  lemma NotLive(o: Options, s: State, memory: Memory, d: Key, nowMs: int)
    requires RemembersAt(o, s, memory, nowMs, d) && !SeenLately(o, memory, d, nowMs)
    ensures d !in Unexpired(s.sessions, nowMs, o.sessionTtlMs)
  {
  }

  lemma RoomUnlessKept(o: Options, s: State, d: Key, nowMs: int)
    requires ValidOptions(o) && |s.sessions| <= o.maxSessions
    requires d !in Unexpired(s.sessions, nowMs, o.sessionTtlMs)
    requires |Unexpired(s.sessions, nowMs, o.sessionTtlMs).Keys - {d}| < o.maxSessions
    ensures d !in Pruned(o, s, nowMs).sessions ==> |Pruned(o, s, nowMs).sessions| < o.maxSessions
  {
    hide Pruned, Unexpired;
    PlaceFor(o, s, d, nowMs);
  }

  lemma {:induction false} RunRemembers(o: Options, s: State, memory: Memory, run: seq<Arrival>, from: int)
    returns (last: int)
    requires ValidOptions(o) && |s.sessions| <= o.maxSessions && Remembers(o, s, memory, from) && ClockFrom(from, run)
    ensures last == if run == [] then from else run[|run| - 1].nowMs
    ensures |RunState(o, s, run).sessions| <= o.maxSessions
    ensures Remembers(o, RunState(o, s, run), RunMemory(o, s, memory, run), last)
    decreases |run|
  {
    hide Step, Remembers;
    if run == [] {
      last := from;
    } else {
      var s', v := StepRemembers(o, s, memory, run[0], from);
      SessionsBounded(o, s, run[..1]);
      assert RunState(o, s, run[..1]) == s' by { OneStep(o, s, run); }
      last := RunRemembers(o, s', Remember(memory, run[0], v), run[1..], run[0].nowMs);
    }
  }

  lemma OneStep(o: Options, s: State, run: seq<Arrival>)
    requires run != []
    ensures RunState(o, s, run[..1]) == Step(o, s, run[0]).0
  {
    hide Step;
    assert run[..1][1..] == [] && run[..1][0] == run[0];
    assert RunState(o, Step(o, s, run[0]).0, []) == Step(o, s, run[0]).0;
  }

  lemma RemembersLater(o: Options, s: State, memory: Memory, from: int, nowMs: int)
    requires Remembers(o, s, memory, from) && from <= nowMs
    ensures Remembers(o, s, memory, nowMs)
  {
    forall d ensures RemembersAt(o, s, memory, nowMs, d) {
      assert RemembersAt(o, s, memory, from, d);
    }
  }

  /** Over every run of a new guard with a clock that never goes back, the next answer is
      settled by the packet and the last accepted packet of each device, up to whether an
      expired session has been dropped. In particular a sound packet of a device seen
      lately is accepted if and only if it comes from another boot, or its sequence number
      is higher and its clock no more than 2 s behind. */
  lemma AnswersFromHistory(o: Options, run: seq<Arrival>, a: Arrival)
    requires ValidOptions(o) && ClockFrom((run + [a])[0].nowMs, run + [a])
    ensures var start := State(map[], 0);
            Answers(o, RunMemory(o, start, map[], run), a, Step(o, RunState(o, start, run), a).1)
  {
    hide Step, Answers;
    var from, start := (run + [a])[0].nowMs, State(map[], 0);
    ClockPrefix(from, run, a);
    EmptyRemembers(o, from);
    var last := RunRemembers(o, start, map[], run, from);
    var s, memory := RunState(o, start, run), RunMemory(o, start, map[], run);
    RemembersLater(o, s, memory, last, a.nowMs);
    StepAnswers(o, s, memory, a);
  }

  lemma EmptyRemembers(o: Options, from: int)
    ensures Remembers(o, State(map[], 0), map[], from)
  {
  }

  lemma ClockPrefix(from: int, run: seq<Arrival>, a: Arrival)
    requires ClockFrom(from, run + [a])
    ensures ClockFrom(from, run)
    ensures (if run == [] then from else run[|run| - 1].nowMs) <= a.nowMs
  {
    var all := run + [a];
    assert forall i :: 0 <= i < |run| ==> all[i] == run[i];
    assert all[|run|] == a;
  }

  // ---------------------------------------------------- expired sessions leave

  /** How often sessions are pruned: every minute, or as often as one may expire. */
  function PruneEvery(o: Options): int {
    if o.sessionTtlMs < 60_000 then o.sessionTtlMs else 60_000
  }

  /** No session left had expired at the last pruning. */
  predicate LiveAtPruning(o: Options, s: State) {
    forall d :: d in s.sessions ==> s.sessions[d].lastSeenAtMs >= s.lastPruneAtMs - o.sessionTtlMs
  }

  lemma StepPrunes(o: Options, s: State, a: Arrival)
    requires ValidOptions(o) && LiveAtPruning(o, s) && s.lastPruneAtMs <= a.nowMs
    ensures var s' := Step(o, s, a).0;
            LiveAtPruning(o, s') && s'.lastPruneAtMs <= a.nowMs < s'.lastPruneAtMs + PruneEvery(o)
  {
    hide Judge;
  }

  lemma {:induction false} RunPrunes(o: Options, s: State, run: seq<Arrival>, from: int)
    requires ValidOptions(o) && LiveAtPruning(o, s) && s.lastPruneAtMs <= from && ClockFrom(from, run) && run != []
    ensures var s', nowMs := RunState(o, s, run), run[|run| - 1].nowMs;
            LiveAtPruning(o, s') && nowMs < s'.lastPruneAtMs + PruneEvery(o)
    decreases |run|
  {
    hide Step, LiveAtPruning;
    StepPrunes(o, s, run[0]);
    if |run| > 1 {
      RunPrunes(o, Step(o, s, run[0]).0, run[1..], run[0].nowMs);
    } else {
      assert run[1..] == [];
    }
  }

  /** Over every run of a new guard whose clock starts at or after the epoch and never goes
      back: once a packet is judged, no session is kept that was last seen longer ago than
      sessions live and a minute, or twice as long as they live if that is less. */
  lemma ExpiredLeave(o: Options, run: seq<Arrival>, d: Key)
    requires ValidOptions(o) && run != [] && 0 <= run[0].nowMs && ClockFrom(run[0].nowMs, run)
    requires d in RunState(o, State(map[], 0), run).sessions
    ensures run[|run| - 1].nowMs - RunState(o, State(map[], 0), run).sessions[d].lastSeenAtMs <
            o.sessionTtlMs + (if o.sessionTtlMs < 60_000 then o.sessionTtlMs else 60_000)
  {
    hide RunState;
    RunPrunes(o, State(map[], 0), run, run[0].nowMs);
  }
}
