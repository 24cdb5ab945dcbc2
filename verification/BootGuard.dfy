/** A/B boot states and their transitions
    (edge/pi-resilience/boot_guard.py:13-178), the autoboot file
    (boot_guard.py:181-203) and the recovery executor
    (edge/pi-resilience/recovery_executor.py:41-136), as values. */
module BootSpec {
  import opened Collections
  import opened Decimals

  datatype Slot = A | B
  datatype Phase = Stable | CandidateStaged | CandidateBooting | RollbackRequired

  datatype BootState = BootState(
    generation: nat, phase: Phase, activeSlot: Slot, knownGoodSlot: Slot, knownGoodPartition: int,
    candidateSlot: Option<Slot>, candidatePartition: Option<int>, candidateVersion: Option<string>,
    candidateAttempts: int, maxCandidateAttempts: int, lastReason: Option<string>, updatedAtMs: int)

  datatype Error =
    | WrongPhase | CandidateSlotInUse | CandidatePartitionInUse | VersionRequired | CandidateMetadataMissing
    | NotTryboot | PartitionMismatch | InvalidState | AttemptBudgetExhausted
    | BadPartitions | AutobootTooLong | BadSlotPartitions | RequestRefused | PowerLost

  const DEFAULT_KNOWN_GOOD_PARTITION := 2

  function DefaultState(nowMs: int): BootState {
    BootState(0, Stable, A, A, DEFAULT_KNOWN_GOOD_PARTITION, None, None, None, 0, 2, None, nowMs)
  }

  predicate IsSpace(ch: char) {
    '\t' <= ch <= '\r' || ch == ' ' || '\U{1c}' <= ch <= '\U{1f}' || ch == '\U{85}' || ch == '\U{a0}' ||
    ch == '\U{1680}' || '\U{2000}' <= ch <= '\U{200a}' || ch == '\U{2028}' || ch == '\U{2029}' ||
    ch == '\U{202f}' || ch == '\U{205f}' || ch == '\U{3000}'
  }

  function StripLeft(s: string): string {
    if s != [] && IsSpace(s[0]) then StripLeft(s[1..]) else s
  }

  function StripRight(s: string): string {
    if s != [] && IsSpace(s[|s| - 1]) then StripRight(s[..|s| - 1]) else s
  }

  function Strip(s: string): string {
    StripRight(StripLeft(s))
  }

  /** What `validate` demands; schema and authority fields are constants here. */
  predicate Validates(s: BootState) {
    s.knownGoodPartition >= 1 && (s.candidatePartition.Some? ==> s.candidatePartition.value >= 1) &&
    1 <= s.maxCandidateAttempts <= 5 && s.candidateAttempts >= 0
  }

  function Saved(s: BootState, nowMs: int): BootState {
    s.(generation := s.generation + 1, updatedAtMs := nowMs)
  }

  // ------------------------------------------------------------ transitions

  function Stage(s: BootState, slot: Option<Slot>, partition: int, version: string): Result<BootState, Error> {
    if s.phase != Stable && s.phase != RollbackRequired then Err(WrongPhase)
    else if slot.None? || slot.value == s.knownGoodSlot then Err(CandidateSlotInUse)
    else if partition < 1 || partition == s.knownGoodPartition then Err(CandidatePartitionInUse)
    else if Strip(version) == [] then Err(VersionRequired)
    else Ok(s.(phase := CandidateStaged, activeSlot := s.knownGoodSlot, candidateSlot := slot,
               candidatePartition := Some(partition), candidateVersion := Some(Strip(version)),
               candidateAttempts := 0, lastReason := None))
  }

  function BeginCandidateBoot(s: BootState): Result<BootState, Error> {
    if s.phase != CandidateStaged && s.phase != CandidateBooting then Err(WrongPhase)
    else if s.candidateSlot.None? || s.candidatePartition.None? then Err(CandidateMetadataMissing)
    else
      var tried := s.(candidateAttempts := s.candidateAttempts + 1);
      if tried.candidateAttempts > s.maxCandidateAttempts
      then Ok(tried.(phase := RollbackRequired, activeSlot := s.knownGoodSlot,
                     lastReason := Some("candidate-attempt-budget-exhausted")))
      else Ok(tried.(phase := CandidateBooting, activeSlot := s.candidateSlot.value, lastReason := None))
  }

  function AcceptCandidate(s: BootState, observed: int, tryboot: bool): Result<BootState, Error> {
    if s.phase != CandidateBooting then Err(WrongPhase)
    else if s.candidateSlot.None? || s.candidatePartition.None? then Err(CandidateMetadataMissing)
    else if !tryboot then Err(NotTryboot)
    else if observed != s.candidatePartition.value then Err(PartitionMismatch)
    else Ok(s.(phase := Stable, activeSlot := s.candidateSlot.value, knownGoodSlot := s.candidateSlot.value,
               knownGoodPartition := s.candidatePartition.value, candidateSlot := None, candidatePartition := None,
               candidateVersion := None, candidateAttempts := 0, lastReason := None))
  }

  function ReportFailure(s: BootState, reason: string): BootState {
    if s.phase == CandidateStaged || s.phase == CandidateBooting
    then s.(phase := RollbackRequired, activeSlot := s.knownGoodSlot,
            lastReason := Some(if Strip(reason) == [] then "candidate-health-failed" else Strip(reason)))
    else s
  }

  /** None when there is nothing to save. */
  function RecoverAfterUncleanBoot(s: BootState, observed: int, tryboot: bool): Option<BootState> {
    if s.phase == CandidateBooting && (!tryboot || Some(observed) != s.candidatePartition)
    then Some(s.(phase := RollbackRequired, activeSlot := s.knownGoodSlot,
                 lastReason := Some("unclean-candidate-boot-or-automatic-tryboot-rollback")))
    else None
  }

  // ---------------------------------------------------------- autoboot file

  const AUTOBOOT_LIMIT := 512

  function AutobootText(defaultPartition: int, tryPartition: int): string {
    "[all]\n" + "tryboot_a_b=1\n" + "boot_partition=" + Integer(defaultPartition) + "\n" +
    "[tryboot]\n" + "boot_partition=" + Integer(tryPartition) + "\n"
  }

  /** The file's text, or why it cannot be written. All its characters are ASCII, so
      its length in bytes is its length. */
  function Render(defaultPartition: int, tryPartition: int): Result<string, Error> {
    if defaultPartition < 1 || tryPartition < 1 || defaultPartition == tryPartition then Err(BadPartitions)
    else if |AutobootText(defaultPartition, tryPartition)| > AUTOBOOT_LIMIT then Err(AutobootTooLong)
    else Ok(AutobootText(defaultPartition, tryPartition))
  }

  function OtherPartition(knownGoodSlot: Slot, slotA: int, slotB: int): Result<int, Error> {
    if slotA < 1 || slotB < 1 || slotA == slotB then Err(BadSlotPartitions)
    else Ok(if knownGoodSlot == A then slotB else slotA)
  }

  // ------------------------------------------------- persistent state, writes

  datatype Autoboot = Autoboot(defaultPartition: int, tryPartition: int)
  datatype Receipt = Receipt(generation: int, processedAtMs: int)

  /** What survives a power loss. */
  datatype Disk = Disk(boot: Option<BootState>, autoboot: Option<Autoboot>, receipt: Option<Receipt>)

  /** One atomic replacement of a file. */
  datatype Write =
    | SaveBoot(state: BootState)
    | WriteAutoboot(autoboot: Autoboot)
    | WriteReceipt(receipt: Receipt)

  function Load(d: Disk, nowMs: int): BootState {
    if d.boot.Some? then d.boot.value else DefaultState(nowMs)
  }

  /** A saved state that does not validate is refused when it is loaded. */
  predicate Loadable(d: Disk) {
    d.boot.Some? ==> Validates(d.boot.value)
  }

  function Apply(d: Disk, w: Write): Disk {
    match w
    case SaveBoot(s) => d.(boot := Some(s))
    case WriteAutoboot(a) => d.(autoboot := Some(a))
    case WriteReceipt(r) => d.(receipt := Some(r))
  }

  function ApplyAll(d: Disk, writes: seq<Write>): Disk
    decreases |writes|
  {
    if writes == [] then d else ApplyAll(Apply(d, writes[0]), writes[1..])
  }

  // --------------------------------------------------------------- commands

  datatype Action = RebootKnownGood | RollbackRebootKnownGood
  datatype Request = Request(action: Action, generation: int, reason: Option<string>)

  datatype Platform = Platform(slotA: int, slotB: int, cooldownSeconds: int)

  datatype Command =
    | StageCandidate(slot: Option<Slot>, partition: int, version: string)
    | PrepareTryboot(apply: bool)
    | RebootTryboot
    | AcceptCurrent(observed: int, tryboot: bool, applyAutoboot: bool)
    | FailCurrent(reason: string)
    | RecoverUnclean(observed: int, tryboot: bool)
    /** The executor; no request when reading it is refused. */
    | ExecuteOnce(request: Option<Request>)

  /** What a command does when nothing interrupts it: its persistent writes in order,
      and whether it ends in an error (after the writes before it). */
  datatype Plan = Plan(writes: seq<Write>, error: Option<Error>)

  function Save(s: BootState, nowMs: int): Plan {
    if Validates(s) then Plan([SaveBoot(Saved(s, nowMs))], None) else Plan([], Some(InvalidState))
  }

  function SaveResult(r: Result<BootState, Error>, nowMs: int): Plan {
    if r.Ok? then Save(r.value, nowMs) else Plan([], Some(r.error))
  }

  function WriteAtomic(defaultPartition: int, tryPartition: int): Plan {
    var text := Render(defaultPartition, tryPartition);
    if text.Ok? then Plan([WriteAutoboot(Autoboot(defaultPartition, tryPartition))], None)
    else Plan([], Some(text.error))
  }

  /** What follows loading the boot state. */
  function Loading(d: Disk, plan: Plan): Plan {
    if Loadable(d) then plan else Plan([], Some(InvalidState))
  }

  function Then(p: Plan, q: Plan): Plan {
    if p.error.Some? then p else Plan(p.writes + q.writes, q.error)
  }

  function LastReceipt(d: Disk): Receipt {
    if d.receipt.Some? then d.receipt.value else Receipt(0, 0)
  }

  predicate CoolingDown(p: Platform, last: Receipt, nowMs: int) {
    last.processedAtMs != 0 && nowMs - last.processedAtMs < p.cooldownSeconds * 1000
  }

  function FailureReason(r: Request): string {
    if r.reason.Some? then r.reason.value else "candidate-health-failed"
  }

  /** The boot state the executor acts on. */
  function ExecutorBoot(d: Disk, r: Request, nowMs: int): BootState {
    if r.action == RollbackRebootKnownGood then Saved(ReportFailure(Load(d, nowMs), FailureReason(r)), nowMs)
    else Load(d, nowMs)
  }

  function CommitKnownGood(p: Platform, boot: BootState): Plan {
    var alternate := OtherPartition(boot.knownGoodSlot, p.slotA, p.slotB);
    if alternate.Err? then Plan([], Some(alternate.error)) else WriteAtomic(boot.knownGoodPartition, alternate.value)
  }

  /** The executor's writes: rollback first when asked for, then the autoboot file,
      then the receipt. */
  function ExecutePlan(p: Platform, d: Disk, r: Request, nowMs: int): Plan {
    var last := LastReceipt(d);
    if r.generation <= last.generation || CoolingDown(p, last, nowMs) then Plan([], None)
    else
      var rollback := if r.action == RollbackRebootKnownGood
                      then Save(ReportFailure(Load(d, nowMs), FailureReason(r)), nowMs) else Plan([], None);
      Loading(d, Then(rollback, Then(CommitKnownGood(p, ExecutorBoot(d, r, nowMs)),
                                     Plan([WriteReceipt(Receipt(r.generation, nowMs))], None))))
  }

  function AcceptPlan(before: BootState, observed: int, tryboot: bool, applyAutoboot: bool, nowMs: int): Plan {
    var r := AcceptCandidate(before, observed, tryboot);
    Then(SaveResult(r, nowMs),
         if applyAutoboot && r.Ok? then WriteAtomic(r.value.knownGoodPartition, before.knownGoodPartition)
         else Plan([], None))
  }

  function PreparePlan(s: BootState, apply: bool): Plan {
    if s.phase != CandidateStaged || s.candidatePartition.None? then Plan([], Some(WrongPhase))
    else
      var p := WriteAtomic(s.knownGoodPartition, s.candidatePartition.value);
      if apply then p else Plan([], p.error)
  }

  function BeginPlan(s: BootState, nowMs: int): Plan {
    var r := BeginCandidateBoot(s);
    Then(SaveResult(r, nowMs),
         Plan([], if r.Ok? && r.value.phase == RollbackRequired then Some(AttemptBudgetExhausted) else None))
  }

  /** The guard commands, once the boot state is loaded. */
  function GuardPlan(s: BootState, c: Command, nowMs: int): Plan
    requires !c.ExecuteOnce?
  {
    match c
    case StageCandidate(slot, partition, version) => SaveResult(Stage(s, slot, partition, version), nowMs)
    case PrepareTryboot(apply) => PreparePlan(s, apply)
    case RebootTryboot => BeginPlan(s, nowMs)
    case AcceptCurrent(observed, tryboot, applyAutoboot) => AcceptPlan(s, observed, tryboot, applyAutoboot, nowMs)
    case FailCurrent(reason) => Save(ReportFailure(s, reason), nowMs)
    case RecoverUnclean(observed, tryboot) =>
      var r := RecoverAfterUncleanBoot(s, observed, tryboot);
      if r.Some? then Save(r.value, nowMs) else Plan([], None)
  }

  function PlanOf(p: Platform, d: Disk, c: Command, nowMs: int): Plan {
    match c
    case ExecuteOnce(request) =>
      if request.None? || request.value.generation < 1 then Plan([], Some(RequestRefused))
      else ExecutePlan(p, d, request.value, nowMs)
    case _ => Loading(d, GuardPlan(Load(d, nowMs), c, nowMs))
  }

  /** A command that loses power after `power` of its writes. */
  function Execute(p: Platform, d: Disk, c: Command, nowMs: int, power: nat): Disk {
    var writes := PlanOf(p, d, c, nowMs).writes;
    ApplyAll(d, if power < |writes| then writes[..power] else writes)
  }
}
