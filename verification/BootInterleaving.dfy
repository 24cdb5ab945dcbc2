/** Guard commands and the executor as separate processes that interleave at every
    file access and may all stop at any moment
    (edge/pi-resilience/boot_guard.py:277-304, recovery_executor.py:103-130). */
module BootInterleaving {
  import opened Collections
  import opened BootSpec
  import BootSafety

  /** Where a process stands between two file accesses, with what it has read. */
  datatype Process =
    | Starting(command: Command)
    /** The command has loaded the state it will transform and save. */
    | Loaded(command: Command, state: BootState)
    /** accept-current has loaded `before`; the guard has yet to load. */
    | AcceptBefore(observed: int, tryboot: bool, applyAutoboot: bool, before: BootState)
    | AcceptLoaded(observed: int, tryboot: bool, applyAutoboot: bool, before: BootState, state: BootState)
    /** The accepted state is saved; the autoboot file is next. */
    | AcceptSaved(before: BootState, saved: BootState)
    | Preparing(state: BootState)
    /** The executor has passed the generation and cooldown tests at `at`. */
    | Admitted(request: Request, at: int)
    | RollingBack(request: Request, at: int, state: BootState)
    | Committing(request: Request, at: int, boot: BootState)
    | Receipting(request: Request, at: int)
    | Finished

  function SaveStep(d: Disk, s: BootState, nowMs: int, next: Process): (Disk, Process) {
    if Validates(s) then (Apply(d, SaveBoot(Saved(s, nowMs))), next) else (d, Finished)
  }

  function WriteStep(d: Disk, defaultPartition: int, tryPartition: int, next: Process): (Disk, Process) {
    if Render(defaultPartition, tryPartition).Ok?
    then (Apply(d, WriteAutoboot(Autoboot(defaultPartition, tryPartition))), next) else (d, Finished)
  }

  function Start(p: Platform, d: Disk, c: Command, nowMs: int): (Disk, Process) {
    match c
    case StageCandidate(_, _, _) => (d, Loaded(c, Load(d, nowMs)))
    case PrepareTryboot(apply) =>
      var s := Load(d, nowMs);
      (d, if apply && s.phase == CandidateStaged && s.candidatePartition.Some? then Preparing(s) else Finished)
    case RebootTryboot => (d, Loaded(c, Load(d, nowMs)))
    case AcceptCurrent(observed, tryboot, applyAutoboot) =>
      (d, AcceptBefore(observed, tryboot, applyAutoboot, Load(d, nowMs)))
    case FailCurrent(_) => (d, Loaded(c, Load(d, nowMs)))
    case RecoverUnclean(_, _) => (d, Loaded(c, Load(d, nowMs)))
    case ExecuteOnce(request) =>
      (d, if request.Some? && request.value.generation >= 1 &&
             request.value.generation > LastReceipt(d).generation && !CoolingDown(p, LastReceipt(d), nowMs)
          then Admitted(request.value, nowMs) else Finished)
  }

  function SaveComputed(d: Disk, c: Command, s: BootState, nowMs: int): (Disk, Process) {
    match c
    case StageCandidate(slot, partition, version) =>
      var r := Stage(s, slot, partition, version);
      if r.Ok? then SaveStep(d, r.value, nowMs, Finished) else (d, Finished)
    case RebootTryboot =>
      var r := BeginCandidateBoot(s);
      if r.Ok? then SaveStep(d, r.value, nowMs, Finished) else (d, Finished)
    case FailCurrent(reason) => SaveStep(d, ReportFailure(s, reason), nowMs, Finished)
    case RecoverUnclean(observed, tryboot) =>
      var r := RecoverAfterUncleanBoot(s, observed, tryboot);
      if r.Some? then SaveStep(d, r.value, nowMs, Finished) else (d, Finished)
    case _ => (d, Finished)
  }

  function Accept(d: Disk, q: Process, nowMs: int): (Disk, Process)
    requires q.AcceptLoaded?
  {
    var r := AcceptCandidate(q.state, q.observed, q.tryboot);
    if r.Ok? then
      SaveStep(d, r.value, nowMs, if q.applyAutoboot then AcceptSaved(q.before, Saved(r.value, nowMs)) else Finished)
    else (d, Finished)
  }

  function Commit(p: Platform, d: Disk, r: Request, at: int, boot: BootState): (Disk, Process) {
    var alternate := OtherPartition(boot.knownGoodSlot, p.slotA, p.slotB);
    if alternate.Ok? then WriteStep(d, boot.knownGoodPartition, alternate.value, Receipting(r, at)) else (d, Finished)
  }

  /** The next access loads the boot state. */
  predicate LoadsNext(q: Process) {
    match q
    case Starting(c) => !c.ExecuteOnce?
    case AcceptBefore(_, _, _, _) => true
    case Admitted(_, _) => true
    case _ => false
  }

  /** One file access of one process: at most one file is replaced. */
  function Advance(p: Platform, d: Disk, q: Process, nowMs: int): (Disk, Process) {
    if LoadsNext(q) && !Loadable(d) then (d, Finished) else Proceed(p, d, q, nowMs)
  }

  function Proceed(p: Platform, d: Disk, q: Process, nowMs: int): (Disk, Process) {
    match q
    case Starting(c) => Start(p, d, c, nowMs)
    case Loaded(c, s) => SaveComputed(d, c, s, nowMs)
    case AcceptBefore(observed, tryboot, applyAutoboot, before) =>
      (d, AcceptLoaded(observed, tryboot, applyAutoboot, before, Load(d, nowMs)))
    case AcceptLoaded(_, _, _, _, _) => Accept(d, q, nowMs)
    case AcceptSaved(before, saved) => WriteStep(d, saved.knownGoodPartition, before.knownGoodPartition, Finished)
    case Preparing(s) => WriteStep(d, s.knownGoodPartition, s.candidatePartition.GetOr(0), Finished)
    case Admitted(r, at) =>
      (d, if r.action == RollbackRebootKnownGood then RollingBack(r, at, Load(d, nowMs))
        else Committing(r, at, Load(d, nowMs)))
    case RollingBack(r, at, s) =>
      var failed := ReportFailure(s, FailureReason(r));
      SaveStep(d, failed, nowMs, Committing(r, at, Saved(failed, nowMs)))
    case Committing(r, at, boot) => Commit(p, d, r, at, boot)
    case Receipting(r, at) => (Apply(d, WriteReceipt(Receipt(r.generation, at))), Finished)
    case Finished => (d, Finished)
  }

  /** The partition an acceptance saves as known-good: the one observed, in a verified
      tryboot boot, to be the candidate's. */
  function AcceptedBy(q: Process): set<int> {
    if q.AcceptLoaded? then
      var r := AcceptCandidate(q.state, q.observed, q.tryboot);
      if r.Ok? && Validates(r.value) then {q.observed} else {}
    else {}
  }

  /** The persistent files, the running processes, and the record of the partitions
      that were known-good at the start or have been accepted since. */
  datatype System = System(disk: Disk, processes: map<nat, Process>, accepted: set<int>)

  datatype Step =
    | Spawn(pid: nat, command: Command)
    | Advancing(pid: nat, nowMs: int)
    | PowerLoss

  function After(p: Platform, s: System, step: Step): System {
    match step
    case Spawn(pid, c) => s.(processes := s.processes[pid := Starting(c)])
    case Advancing(pid, nowMs) =>
      if pid in s.processes then
        var q := s.processes[pid];
        var (d', q') := Advance(p, s.disk, q, nowMs);
        System(d', s.processes[pid := q'], s.accepted + AcceptedBy(q))
      else s
    case PowerLoss => s.(processes := map[])
  }

  function Run(p: Platform, s: System, steps: seq<Step>): System
    decreases |steps|
  {
    if steps == [] then s else Run(p, After(p, s, steps[0]), steps[1..])
  }

  /** The known-good partitions a process has read or is about to write. */
  function Holds(q: Process): set<int> {
    match q
    case Loaded(_, s) => {s.knownGoodPartition}
    case AcceptBefore(_, _, _, before) => {before.knownGoodPartition}
    case AcceptLoaded(_, _, _, before, s) => {before.knownGoodPartition, s.knownGoodPartition}
    case AcceptSaved(before, saved) => {before.knownGoodPartition, saved.knownGoodPartition}
    case Preparing(s) => {s.knownGoodPartition}
    case RollingBack(_, _, s) => {s.knownGoodPartition}
    case Committing(_, _, boot) => {boot.knownGoodPartition}
    case _ => {}
  }

  /** The known-good and default partitions on disk. */
  function DiskHolds(d: Disk): set<int> {
    {Load(d, 0).knownGoodPartition} + (if d.autoboot.Some? then {d.autoboot.value.defaultPartition} else {})
  }

  ghost predicate Inv(s: System) {
    DiskHolds(s.disk) <= s.accepted &&
    forall pid :: pid in s.processes ==> Holds(s.processes[pid]) <= s.accepted
  }

  lemma LoadHolds(d: Disk, nowMs: int)
    ensures Load(d, nowMs).knownGoodPartition in DiskHolds(d)
  {
  }

  lemma SaveStepHolds(d: Disk, s: BootState, nowMs: int, next: Process)
    ensures var (d', q') := SaveStep(d, s, nowMs, next);
            DiskHolds(d') <= DiskHolds(d) + {s.knownGoodPartition} && Holds(q') <= Holds(next)
  {
  }

  lemma WriteStepHolds(d: Disk, defaultPartition: int, tryPartition: int, next: Process)
    ensures var (d', q') := WriteStep(d, defaultPartition, tryPartition, next);
            DiskHolds(d') <= DiskHolds(d) + {defaultPartition} && Holds(q') <= Holds(next)
  {
    hide Render;
  }

  lemma SaveComputedHolds(d: Disk, c: Command, s: BootState, nowMs: int)
    ensures var (d', q') := SaveComputed(d, c, s, nowMs);
            DiskHolds(d') <= DiskHolds(d) + {s.knownGoodPartition} && Holds(q') == {}
  {
    hide Strip;
  }

  /** One access brings in no partition that was not already held, on disk or by the
      process, except the one it accepts. */
  lemma AdvanceHolds(p: Platform, d: Disk, q: Process, nowMs: int)
    ensures var (d', q') := Advance(p, d, q, nowMs);
            DiskHolds(d') + Holds(q') <= DiskHolds(d) + Holds(q) + AcceptedBy(q)
  {
    hide Render, Strip, SaveStep, WriteStep, SaveComputed, DiskHolds;
    LoadHolds(d, nowMs);
    match q
    case Starting(c) => StartHolds(p, d, c, nowMs);
    case Loaded(c, s) => SaveComputedHolds(d, c, s, nowMs);
    case AcceptBefore(_, _, _, _) =>
    case AcceptLoaded(_, _, _, _, _) => AcceptHolds(d, q, nowMs);
    case AcceptSaved(before, saved) => WriteStepHolds(d, saved.knownGoodPartition, before.knownGoodPartition, Finished);
    case Preparing(s) => WriteStepHolds(d, s.knownGoodPartition, s.candidatePartition.GetOr(0), Finished);
    case Admitted(_, _) =>
    case RollingBack(r, at, s) =>
      var failed := ReportFailure(s, FailureReason(r));
      SaveStepHolds(d, failed, nowMs, Committing(r, at, Saved(failed, nowMs)));
    case Committing(r, at, boot) =>
      var alternate := OtherPartition(boot.knownGoodSlot, p.slotA, p.slotB);
      if alternate.Ok? { WriteStepHolds(d, boot.knownGoodPartition, alternate.value, Receipting(r, at)); }
    case Receipting(r, at) => ReceiptHolds(d, Receipt(r.generation, at));
    case Finished =>
  }

  lemma ReceiptHolds(d: Disk, r: Receipt)
    ensures DiskHolds(Apply(d, WriteReceipt(r))) == DiskHolds(d)
  {
  }

  lemma StartHolds(p: Platform, d: Disk, c: Command, nowMs: int)
    ensures var (d', q') := Start(p, d, c, nowMs); d' == d && Holds(q') <= DiskHolds(d)
  {
    LoadHolds(d, nowMs);
  }

  lemma InvalidSavesNothing(d: Disk, s: BootState, nowMs: int, next: Process)
    requires !Validates(s)
    ensures SaveStep(d, s, nowMs, next) == (d, Finished)
  {
  }

  lemma AcceptHolds(d: Disk, q: Process, nowMs: int)
    requires q.AcceptLoaded?
    ensures var (d', q') := Accept(d, q, nowMs);
            DiskHolds(d') + Holds(q') <= DiskHolds(d) + Holds(q) + AcceptedBy(q)
  {
    hide DiskHolds, SaveStep;
    var r := AcceptCandidate(q.state, q.observed, q.tryboot);
    if r.Ok? && !Validates(r.value) {
      InvalidSavesNothing(d, r.value, nowMs,
                          if q.applyAutoboot then AcceptSaved(q.before, Saved(r.value, nowMs)) else Finished);
    } else if r.Ok? {
      SaveStepHolds(d, r.value, nowMs,
                    if q.applyAutoboot then AcceptSaved(q.before, Saved(r.value, nowMs)) else Finished);
    }
  }

  lemma StepKeepsInv(p: Platform, s: System, step: Step)
    requires Inv(s)
    ensures Inv(After(p, s, step))
  {
    hide Advance, Holds, DiskHolds, AcceptedBy;
    match step
    case Spawn(pid, c) => StartingHoldsNothing(c);
    case Advancing(pid, nowMs) =>
      if pid in s.processes {
        AdvanceHolds(p, s.disk, s.processes[pid], nowMs);
      }
    case PowerLoss =>
  }

  lemma StartingHoldsNothing(c: Command)
    ensures Holds(Starting(c)) == {}
  {
  }

  lemma {:induction false} RunKeepsInv(p: Platform, s: System, steps: seq<Step>)
    requires Inv(s)
    ensures Inv(Run(p, s, steps))
    decreases |steps|
  {
    hide Inv, After;
    if steps != [] {
      StepKeepsInv(p, s, steps[0]);
      RunKeepsInv(p, After(p, s, steps[0]), steps[1..]);
    }
  }

  /** However guard commands and executors interleave and wherever power is lost, the
      default boot partition is one that was known-good at the start or has been
      accepted since: a candidate never accepted never becomes the default. */
  lemma DefaultIsAccepted(p: Platform, d: Disk, steps: seq<Step>)
    requires d.autoboot.Some? ==> d.autoboot.value.defaultPartition == Load(d, 0).knownGoodPartition
    ensures var s := Run(p, System(d, map[], {Load(d, 0).knownGoodPartition}), steps);
            s.disk.autoboot.Some? ==> s.disk.autoboot.value.defaultPartition in s.accepted
  {
    RunKeepsInv(p, System(d, map[], {Load(d, 0).knownGoodPartition}), steps);
  }

  function KnownGoodOf(d: Disk): int {
    Load(d, 0).knownGoodPartition
  }

  /** The partitions that stand as known-good on disk at some moment of a run. */
  function KnownGoods(p: Platform, s: System, steps: seq<Step>): set<int>
    decreases |steps|
  {
    {KnownGoodOf(s.disk)} + if steps == [] then {} else KnownGoods(p, After(p, s, steps[0]), steps[1..])
  }

  /** What an acceptance records is known-good on disk right after it. */
  lemma AcceptedStands(p: Platform, d: Disk, q: Process, nowMs: int)
    ensures AcceptedBy(q) <= {KnownGoodOf(Advance(p, d, q, nowMs).0)}
  {
    if q.AcceptLoaded? && AcceptedBy(q) != {} {
      var r := AcceptCandidate(q.state, q.observed, q.tryboot);
      assert Accept(d, q, nowMs).0 == Apply(d, SaveBoot(Saved(r.value, nowMs)));
    }
  }

  lemma StepAccepts(p: Platform, s: System, step: Step)
    ensures After(p, s, step).accepted <= s.accepted + {KnownGoodOf(After(p, s, step).disk)}
  {
    hide Advance, AcceptedBy, KnownGoodOf;
    if step.Advancing? && step.pid in s.processes {
      AcceptedStands(p, s.disk, s.processes[step.pid], step.nowMs);
    }
  }

  /** The record of accepted partitions adds nothing that did not stand on disk. */
  lemma {:induction false} AcceptedStood(p: Platform, s: System, steps: seq<Step>)
    ensures Run(p, s, steps).accepted <= s.accepted + KnownGoods(p, s, steps)
    decreases |steps|
  {
    hide After, KnownGoodOf;
    if steps != [] {
      StepAccepts(p, s, steps[0]);
      AcceptedStood(p, After(p, s, steps[0]), steps[1..]);
      KnownGoodsHasFirst(p, After(p, s, steps[0]), steps[1..]);
    }
  }

  lemma KnownGoodsHasFirst(p: Platform, s: System, steps: seq<Step>)
    ensures KnownGoodOf(s.disk) in KnownGoods(p, s, steps)
  {
  }

  lemma {:induction false} StoodWhen(p: Platform, s: System, steps: seq<Step>, partition: int) returns (n: nat)
    requires partition in KnownGoods(p, s, steps)
    ensures n <= |steps| && KnownGoodOf(Run(p, s, steps[..n]).disk) == partition
    decreases |steps|
  {
    hide After, KnownGoodOf;
    if partition == KnownGoodOf(s.disk) {
      n := 0;
      assert Run(p, s, []) == s;
    } else {
      var m := StoodWhen(p, After(p, s, steps[0]), steps[1..], partition);
      n := m + 1;
      assert steps[..n][1..] == steps[1..][..m];
    }
  }

  /** The same without any record: whatever interleaves and wherever power is lost, the
      default boot partition stood as known-good on disk at some moment of the run. */
  lemma DefaultStoodKnownGood(p: Platform, d: Disk, steps: seq<Step>) returns (n: nat)
    requires d.autoboot.Some? ==> d.autoboot.value.defaultPartition == KnownGoodOf(d)
    ensures n <= |steps|
    ensures var s0 := System(d, map[], {KnownGoodOf(d)});
            var s := Run(p, s0, steps);
            s.disk.autoboot.Some? ==>
              s.disk.autoboot.value.defaultPartition == KnownGoodOf(Run(p, s0, steps[..n]).disk)
  {
    hide Run, KnownGoods;
    var s0 := System(d, map[], {KnownGoodOf(d)});
    DefaultIsAccepted(p, d, steps);
    AcceptedStood(p, s0, steps);
    KnownGoodsHasFirst(p, s0, steps);
    var autoboot := Run(p, s0, steps).disk.autoboot;
    if autoboot.Some? {
      n := StoodWhen(p, s0, steps, autoboot.value.defaultPartition);
    } else {
      n := 0;
    }
  }

  // ------------------------------------------ one process alone, uninterrupted

  function Alone(p: Platform, d: Disk, q: Process, nowMs: int, n: nat): (Disk, Process)
    decreases n
  {
    if n == 0 then (d, q) else
      var (d', q') := Advance(p, d, q, nowMs);
      Alone(p, d', q', nowMs, n - 1)
  }

  lemma AloneStep(p: Platform, d: Disk, q: Process, nowMs: int, n: nat)
    ensures Alone(p, d, q, nowMs, 0) == (d, q)
    ensures var (d', q') := Advance(p, d, q, nowMs);
            Alone(p, d, q, nowMs, n + 1) == Alone(p, d', q', nowMs, n)
  {
  }

  lemma ApplyOne(d: Disk, w: Write)
    ensures ApplyAll(d, [w]) == Apply(d, w) && ApplyAll(d, []) == d && [w][..0] == []
  {
    assert [w][1..] == [];
  }

  lemma ApplyTwo(d: Disk, v: Write, w: Write)
    ensures ApplyAll(d, [v, w]) == Apply(Apply(d, v), w) && [v, w][..0] == [] && [v, w][..1] == [v]
  {
    assert [v, w][1..] == [w];
    ApplyOne(Apply(d, v), w);
  }

  lemma OneWriteReached(d: Disk, writes: seq<Write>, power: nat)
    requires |writes| <= 1
    ensures ApplyAll(d, if power < |writes| then writes[..power] else writes) ==
            if power == 0 || writes == [] then d else Apply(d, writes[0])
  {
    if writes != [] {
      assert writes == [writes[0]];
      ApplyOne(d, writes[0]);
    }
  }

  lemma SaveReaches(p: Platform, d: Disk, c: Command, nowMs: int, power: nat) returns (n: nat)
    requires Loadable(d) && (c.StageCandidate? || c.RebootTryboot? || c.FailCurrent? || c.RecoverUnclean?)
    ensures Alone(p, d, Starting(c), nowMs, n).0 == Execute(p, d, c, nowMs, power)
  {
    hide Strip, Render;
    var q := Loaded(c, Load(d, nowMs));
    n := if power == 0 then 1 else 2;
    AloneStep(p, d, Starting(c), nowMs, n - 1);
    AloneStep(p, d, q, nowMs, 0);
    AloneStep(p, Advance(p, d, q, nowMs).0, Advance(p, d, q, nowMs).1, nowMs, 0);
    OneWriteReached(d, PlanOf(p, d, c, nowMs).writes, power);
  }

  lemma PrepareReaches(p: Platform, d: Disk, c: Command, nowMs: int, power: nat) returns (n: nat)
    requires Loadable(d) && c.PrepareTryboot?
    ensures Alone(p, d, Starting(c), nowMs, n).0 == Execute(p, d, c, nowMs, power)
  {
    hide Strip, Render;
    var q := Start(p, d, c, nowMs).1;
    n := if power == 0 then 1 else 2;
    AloneStep(p, d, Starting(c), nowMs, n - 1);
    AloneStep(p, d, q, nowMs, 0);
    AloneStep(p, Advance(p, d, q, nowMs).0, Advance(p, d, q, nowMs).1, nowMs, 0);
    OneWriteReached(d, PlanOf(p, d, c, nowMs).writes, power);
  }

  lemma AcceptReaches(p: Platform, d: Disk, c: Command, nowMs: int, power: nat) returns (n: nat)
    requires Loadable(d) && c.AcceptCurrent?
    ensures Alone(p, d, Starting(c), nowMs, n).0 == Execute(p, d, c, nowMs, power)
  {
    hide Strip, Render;
    var s := Load(d, nowMs);
    var before := AcceptBefore(c.observed, c.tryboot, c.applyAutoboot, s);
    var loaded := AcceptLoaded(c.observed, c.tryboot, c.applyAutoboot, s, s);
    var (d1, q1) := Advance(p, d, loaded, nowMs);
    var (d2, q2) := Advance(p, d1, q1, nowMs);
    var writes := PlanOf(p, d, c, nowMs).writes;
    n := if power == 0 then 2 else if power == 1 then 3 else 4;
    AloneStep(p, d, Starting(c), nowMs, n - 1);
    AloneStep(p, d, before, nowMs, n - 2);
    if power > 0 { AloneStep(p, d, loaded, nowMs, n - 3); }
    AloneStep(p, d, loaded, nowMs, 0);
    AloneStep(p, d1, q1, nowMs, 0);
    AloneStep(p, d2, q2, nowMs, 0);
    if |writes| <= 1 {
      OneWriteReached(d, writes, power);
    } else {
      assert writes == [writes[0], writes[1]];
      ApplyTwo(d, writes[0], writes[1]);
      ApplyOne(d, writes[0]);
    }
  }

  /** From the known-good state on, the executor writes the autoboot file and the receipt. */
  lemma CommitReaches(p: Platform, d: Disk, r: Request, boot: BootState, nowMs: int, power: nat) returns (n: nat)
    ensures var plan := Then(CommitKnownGood(p, boot), Plan([WriteReceipt(Receipt(r.generation, nowMs))], None));
            |plan.writes| <= 2 &&
            Alone(p, d, Committing(r, nowMs, boot), nowMs, n).0 ==
            ApplyAll(d, if power < |plan.writes| then plan.writes[..power] else plan.writes)
  {
    hide Strip, Render;
    var q := Committing(r, nowMs, boot);
    var (d1, q1) := Advance(p, d, q, nowMs);
    var (d2, q2) := Advance(p, d1, q1, nowMs);
    var writes := Then(CommitKnownGood(p, boot), Plan([WriteReceipt(Receipt(r.generation, nowMs))], None)).writes;
    n := if power == 0 then 0 else if power == 1 then 1 else 2;
    AloneStep(p, d, q, nowMs, 0);
    AloneStep(p, d, q, nowMs, 1);
    AloneStep(p, d1, q1, nowMs, 0);
    AloneStep(p, d2, q2, nowMs, 0);
    if |writes| <= 1 {
      OneWriteReached(d, writes, power);
    } else {
      assert writes == [writes[0], writes[1]];
      ApplyTwo(d, writes[0], writes[1]);
      ApplyOne(d, writes[0]);
    }
  }

  lemma RollbackReaches(p: Platform, d: Disk, r: Request, nowMs: int, power: nat) returns (n: nat)
    requires Loadable(d) && r.action == RollbackRebootKnownGood
    requires r.generation >= 1 && r.generation > LastReceipt(d).generation && !CoolingDown(p, LastReceipt(d), nowMs)
    ensures Alone(p, d, RollingBack(r, nowMs, Load(d, nowMs)), nowMs, n).0 ==
      Execute(p, d, ExecuteOnce(Some(r)), nowMs, power)
  {
    hide Strip, CommitKnownGood;
    var s := Load(d, nowMs);
    var failed := ReportFailure(s, FailureReason(r));
    var q := RollingBack(r, nowMs, s);
    var commit := Then(CommitKnownGood(p, Saved(failed, nowMs)),
      Plan([WriteReceipt(Receipt(r.generation, nowMs))], None));
    var writes := PlanOf(p, d, ExecuteOnce(Some(r)), nowMs).writes;
    AloneStep(p, d, q, nowMs, 0);
    if power == 0 || !Validates(failed) {
      n := 0;
      assert ApplyAll(d, []) == d;
      assert power == 0 ==> (if power < |writes| then writes[..power] else writes) == [];
    } else {
      var save := SaveBoot(Saved(failed, nowMs));
      var d1 := Apply(d, save);
      var m := CommitReaches(p, d1, r, Saved(failed, nowMs), nowMs, power - 1);
      n := m + 1;
      AloneStep(p, d, q, nowMs, m);
      assert writes == [save] + commit.writes;
      if power < |writes| {
        assert writes[..power] == [save] + commit.writes[..power - 1];
        ApplyCons(d, save, commit.writes[..power - 1]);
      } else {
        ApplyCons(d, save, commit.writes);
      }
    }
  }

  lemma ApplyCons(d: Disk, w: Write, rest: seq<Write>)
    ensures ApplyAll(d, [w] + rest) == ApplyAll(Apply(d, w), rest)
  {
    assert ([w] + rest)[1..] == rest;
  }

  lemma ExecuteReaches(p: Platform, d: Disk, c: Command, nowMs: int, power: nat) returns (n: nat)
    requires Loadable(d) && c.ExecuteOnce?
    ensures Alone(p, d, Starting(c), nowMs, n).0 == Execute(p, d, c, nowMs, power)
  {
    hide Strip, CommitKnownGood;
    var q := Start(p, d, c, nowMs).1;
    assert ApplyAll(d, []) == d;
    AloneStep(p, d, Starting(c), nowMs, 0);
    AloneStep(p, d, q, nowMs, 0);
    n := 1;
    if q.Admitted? {
      var r := q.request;
      var m;
      if r.action == RollbackRebootKnownGood {
        m := RollbackReaches(p, d, r, nowMs, power);
      } else {
        m := CommitReaches(p, d, r, Load(d, nowMs), nowMs, power);
        var commit := Then(CommitKnownGood(p, Load(d, nowMs)),
          Plan([WriteReceipt(Receipt(r.generation, nowMs))], None));
        assert [] + commit.writes == commit.writes;
      }
      n := m + 2;
      AloneStep(p, d, Starting(c), nowMs, m + 1);
      AloneStep(p, d, q, nowMs, m);
    }
  }

  /** Nothing is written while the saved boot state is refused. */
  lemma RefusedWritesNothing(p: Platform, d: Disk, c: Command, nowMs: int)
    requires !Loadable(d)
    ensures PlanOf(p, d, c, nowMs).writes == [] && forall power: nat :: Execute(p, d, c, nowMs, power) == d
  {
  }

  lemma CommandReaches(p: Platform, d: Disk, c: Command, nowMs: int, power: nat) returns (n: nat)
    ensures Alone(p, d, Starting(c), nowMs, n).0 == Execute(p, d, c, nowMs, power)
  {
    hide Alone, Execute;
    if !Loadable(d) {
      n := 0;
      RefusedWritesNothing(p, d, c, nowMs);
      AloneStep(p, d, Starting(c), nowMs, 0);
    } else if c.AcceptCurrent? {
      n := AcceptReaches(p, d, c, nowMs, power);
    } else if c.ExecuteOnce? {
      n := ExecuteReaches(p, d, c, nowMs, power);
    } else if c.PrepareTryboot? {
      n := PrepareReaches(p, d, c, nowMs, power);
    } else {
      n := SaveReaches(p, d, c, nowMs, power);
    }
  }

  // --------------------------------------------- commands as schedules of steps

  /** Process 0 makes `n` accesses. */
  function Advances(nowMs: int, n: nat): seq<Step> {
    if n == 0 then [] else [Advancing(0, nowMs)] + Advances(nowMs, n - 1)
  }

  lemma RunFirst(p: Platform, s: System, step: Step, rest: seq<Step>)
    ensures Run(p, s, [step] + rest) == Run(p, After(p, s, step), rest) && Run(p, s, []) == s
  {
    assert ([step] + rest)[1..] == rest;
  }

  lemma {:induction false} RunConcat(p: Platform, s: System, a: seq<Step>, b: seq<Step>)
    ensures Run(p, s, a + b) == Run(p, Run(p, s, a), b)
    decreases |a|
  {
    hide After;
    if a == [] {
      assert a + b == b;
    } else {
      assert (a + b)[1..] == a[1..] + b;
      RunConcat(p, After(p, s, a[0]), a[1..], b);
    }
  }

  lemma {:induction false} AloneIsRun(p: Platform, s: System, nowMs: int, n: nat)
    requires 0 in s.processes
    ensures Run(p, s, Advances(nowMs, n)).disk == Alone(p, s.disk, s.processes[0], nowMs, n).0
    decreases n
  {
    hide Advance;
    AloneStep(p, s.disk, s.processes[0], nowMs, n);
    if n > 0 {
      var step := Advancing(0, nowMs);
      RunFirst(p, s, step, Advances(nowMs, n - 1));
      AloneIsRun(p, After(p, s, step), nowMs, n - 1);
    }
  }

  /** A command that loses power after any number of writes is a schedule of the system:
      its process starts, makes some accesses, and is gone. */
  lemma CommandIsSchedule(p: Platform, s: System, c: Command, nowMs: int, power: nat)
    returns (steps: seq<Step>, s': System)
    ensures s' == Run(p, s, steps) && s'.disk == Execute(p, s.disk, c, nowMs, power) && s'.processes == map[]
  {
    hide Execute, Alone;
    var n := CommandReaches(p, s.disk, c, nowMs, power);
    var spawned := After(p, s, Spawn(0, c));
    AloneIsRun(p, spawned, nowMs, n);
    RunFirst(p, s, Spawn(0, c), Advances(nowMs, n));
    var begun := [Spawn(0, c)] + Advances(nowMs, n);
    RunConcat(p, s, begun, [PowerLoss]);
    RunFirst(p, Run(p, s, begun), PowerLoss, []);
    assert [PowerLoss] + [] == [PowerLoss];
    steps := begun + [PowerLoss];
    s' := Run(p, s, steps);
  }

  /** So is every run of commands, one after the other: what holds of every interleaving
      holds of them. */
  lemma {:induction false} RunIsSchedule(p: Platform, s: System, events: seq<BootSafety.Event>)
    returns (steps: seq<Step>, s': System)
    ensures s' == Run(p, s, steps) && s'.disk == BootSafety.Run(p, s.disk, events)
    decreases |events|
  {
    hide Run, Execute;
    if events == [] {
      steps, s' := [], s;
      RunFirst(p, s, PowerLoss, []);
    } else {
      var e := events[0];
      var first, next := CommandIsSchedule(p, s, e.command, e.nowMs, e.power);
      var rest, last := RunIsSchedule(p, next, events[1..]);
      RunConcat(p, s, first, rest);
      steps, s' := first + rest, last;
    }
  }
}
