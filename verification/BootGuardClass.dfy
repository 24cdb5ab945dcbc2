/** The guard, the autoboot writer and the executor as objects over persistent files,
    proved against `BootSpec`. */
module BootGuards {
  import opened Collections
  import opened BootSpec

  /** The files that survive a power loss. `power` is the number of atomic writes
      still to succeed before power fails; a write without power does nothing and
      ends the process. */
  class PersistentFiles {
    var boot: Option<BootState>
    var autoboot: Option<Autoboot>
    var receipt: Option<Receipt>
    var power: nat

    function View(): Disk
      reads this
    {
      Disk(boot, autoboot, receipt)
    }

    constructor (boot: Option<BootState>, autoboot: Option<Autoboot>, receipt: Option<Receipt>, power: nat)
      ensures View() == Disk(boot, autoboot, receipt) && this.power == power
    {
      this.boot, this.autoboot, this.receipt, this.power := boot, autoboot, receipt, power;
    }

    method Replace(w: Write) returns (ok: bool)
      modifies this
      ensures ok == (old(power) > 0)
      ensures ok ==> View() == Apply(old(View()), w) && power == old(power) - 1
      ensures !ok ==> View() == old(View()) && power == old(power)
    {
      if power == 0 { return false; }
      power := power - 1;
      match w {
        case SaveBoot(s) => boot := Some(s);
        case WriteAutoboot(a) => autoboot := Some(a);
        case WriteReceipt(r) => receipt := Some(r);
      }
      return true;
    }
  }

  /** `d` after a plan whose process may lose power after `power` writes. */
  ghost predicate RanPlan(d: Disk, d': Disk, plan: Plan, power: nat, error: Option<Error>) {
    if power < |plan.writes| then d' == ApplyAll(d, plan.writes[..power]) && error == Some(PowerLost)
    else d' == ApplyAll(d, plan.writes) && error == plan.error
  }

  lemma OneWrite(d: Disk, w: Write)
    ensures ApplyAll(d, [w]) == Apply(d, w) && [w][..0] == [] && ApplyAll(d, []) == d
  {
    assert [w][1..] == [];
  }

  class AtomicBootStateStore {
    const files: PersistentFiles

    constructor (files: PersistentFiles)
      ensures this.files == files
    {
      this.files := files;
    }

    /** A missing file is the default state; one that does not validate is refused. */
    method LoadState(nowMs: int) returns (r: Result<BootState, Error>)
      ensures r == if Loadable(files.View()) then Ok(Load(files.View(), nowMs)) else Err(InvalidState)
    {
      if files.boot.None? { return Ok(DefaultState(nowMs)); }
      var state := files.boot.value;
      return if Validates(state) then Ok(state) else Err(InvalidState);
    }

    method SaveState(state: BootState, nowMs: int) returns (r: Result<BootState, Error>)
      modifies files
      ensures RanPlan(old(files.View()), files.View(), Save(state, nowMs), old(files.power),
                      if r.Ok? then None else Some(r.error))
      ensures r.Ok? ==> r.value == Saved(state, nowMs) && files.power == old(files.power) - 1
    {
      if !Validates(state) { return Err(InvalidState); }
      var s := state.(generation := state.generation + 1, updatedAtMs := nowMs);
      OneWrite(files.View(), SaveBoot(s));
      var ok := files.Replace(SaveBoot(s));
      if !ok { return Err(PowerLost); }
      return Ok(s);
    }
  }

  class BootGuard {
    const store: AtomicBootStateStore

    constructor (store: AtomicBootStateStore)
      ensures this.store == store
    {
      this.store := store;
    }

    method StageCandidate(slot: Option<Slot>, partition: int, version: string, nowMs: int)
      returns (r: Result<BootState, Error>)
      modifies store.files
      ensures RanPlan(old(store.files.View()), store.files.View(),
                      Loading(old(store.files.View()),
                        SaveResult(Stage(Load(old(store.files.View()), nowMs), slot, partition, version), nowMs)),
                      old(store.files.power), if r.Ok? then None else Some(r.error))
      ensures r.Ok? ==>
        var staged := Stage(Load(old(store.files.View()), nowMs), slot, partition, version);
        staged.Ok? && r.value == Saved(staged.value, nowMs)
    {
      var loaded := store.LoadState(nowMs);
      if loaded.Err? { return Err(loaded.error); }
      var state := loaded.value;
      if state.phase != Stable && state.phase != RollbackRequired { return Err(WrongPhase); }
      if slot.None? || slot.value == state.knownGoodSlot { return Err(CandidateSlotInUse); }
      if partition < 1 || partition == state.knownGoodPartition { return Err(CandidatePartitionInUse); }
      if Strip(version) == [] { return Err(VersionRequired); }
      state := state.(phase := CandidateStaged);
      state := state.(activeSlot := state.knownGoodSlot);
      state := state.(candidateSlot := slot);
      state := state.(candidatePartition := Some(partition));
      state := state.(candidateVersion := Some(Strip(version)));
      state := state.(candidateAttempts := 0, lastReason := None);
      r := store.SaveState(state, nowMs);
    }

    method BeginCandidateBoot(nowMs: int) returns (r: Result<BootState, Error>)
      modifies store.files
      ensures RanPlan(old(store.files.View()), store.files.View(),
                      Loading(old(store.files.View()),
                        SaveResult(BootSpec.BeginCandidateBoot(Load(old(store.files.View()), nowMs)), nowMs)),
                      old(store.files.power), if r.Ok? then None else Some(r.error))
      ensures r.Ok? ==>
        var begun := BootSpec.BeginCandidateBoot(Load(old(store.files.View()), nowMs));
        begun.Ok? && r.value == Saved(begun.value, nowMs)
    {
      var loaded := store.LoadState(nowMs);
      if loaded.Err? { return Err(loaded.error); }
      var state := loaded.value;
      if state.phase != CandidateStaged && state.phase != CandidateBooting { return Err(WrongPhase); }
      if state.candidateSlot.None? || state.candidatePartition.None? { return Err(CandidateMetadataMissing); }
      state := state.(candidateAttempts := state.candidateAttempts + 1);
      if state.candidateAttempts > state.maxCandidateAttempts {
        state := state.(phase := RollbackRequired, activeSlot := state.knownGoodSlot);
        state := state.(lastReason := Some("candidate-attempt-budget-exhausted"));
      } else {
        state := state.(phase := CandidateBooting, activeSlot := state.candidateSlot.value);
        state := state.(lastReason := None);
      }
      r := store.SaveState(state, nowMs);
    }

    method AcceptCandidate(observed: int, tryboot: bool, nowMs: int) returns (r: Result<BootState, Error>)
      modifies store.files
      ensures RanPlan(old(store.files.View()), store.files.View(),
                      Loading(old(store.files.View()),
                        SaveResult(BootSpec.AcceptCandidate(Load(old(store.files.View()), nowMs), observed, tryboot),
                                   nowMs)),
                      old(store.files.power), if r.Ok? then None else Some(r.error))
      ensures r.Ok? ==>
        var accepted := BootSpec.AcceptCandidate(Load(old(store.files.View()), nowMs), observed, tryboot);
        accepted.Ok? && r.value == Saved(accepted.value, nowMs) && store.files.power == old(store.files.power) - 1
    {
      var loaded := store.LoadState(nowMs);
      if loaded.Err? { return Err(loaded.error); }
      var state := loaded.value;
      if state.phase != CandidateBooting { return Err(WrongPhase); }
      if state.candidateSlot.None? || state.candidatePartition.None? { return Err(CandidateMetadataMissing); }
      if !tryboot { return Err(NotTryboot); }
      if observed != state.candidatePartition.value { return Err(PartitionMismatch); }
      state := state.(phase := Stable);
      state := state.(activeSlot := state.candidateSlot.value);
      state := state.(knownGoodSlot := state.candidateSlot.value);
      state := state.(knownGoodPartition := state.candidatePartition.value);
      state := state.(candidateSlot := None, candidatePartition := None, candidateVersion := None);
      state := state.(candidateAttempts := 0, lastReason := None);
      r := store.SaveState(state, nowMs);
    }

    method ReportFailure(reason: string, nowMs: int) returns (r: Result<BootState, Error>)
      modifies store.files
      ensures RanPlan(old(store.files.View()), store.files.View(),
                      Loading(old(store.files.View()),
                        Save(BootSpec.ReportFailure(Load(old(store.files.View()), nowMs), reason), nowMs)),
                      old(store.files.power), if r.Ok? then None else Some(r.error))
      ensures r.Ok? ==>
        r.value == Saved(BootSpec.ReportFailure(Load(old(store.files.View()), nowMs), reason), nowMs) &&
        store.files.power == old(store.files.power) - 1
    {
      var loaded := store.LoadState(nowMs);
      if loaded.Err? { return Err(loaded.error); }
      var state := loaded.value;
      if state.phase == CandidateStaged || state.phase == CandidateBooting {
        state := state.(phase := RollbackRequired);
        state := state.(activeSlot := state.knownGoodSlot);
        state := state.(lastReason := Some(if Strip(reason) == [] then "candidate-health-failed" else Strip(reason)));
      }
      r := store.SaveState(state, nowMs);
    }

    method RecoverAfterUncleanBoot(observed: int, tryboot: bool, nowMs: int) returns (r: Result<BootState, Error>)
      modifies store.files
      ensures RanPlan(old(store.files.View()), store.files.View(),
                      Loading(old(store.files.View()),
                        GuardPlan(Load(old(store.files.View()), nowMs), RecoverUnclean(observed, tryboot), nowMs)),
                      old(store.files.power), if r.Ok? then None else Some(r.error))
      ensures r.Ok? ==>
        var state := Load(old(store.files.View()), nowMs);
        var recovered := BootSpec.RecoverAfterUncleanBoot(state, observed, tryboot);
        r.value == if recovered.Some? then Saved(recovered.value, nowMs) else state
    {
      var loaded := store.LoadState(nowMs);
      if loaded.Err? { return Err(loaded.error); }
      var state := loaded.value;
      if state.phase == CandidateBooting {
        if !tryboot || Some(observed) != state.candidatePartition {
          state := state.(phase := RollbackRequired, activeSlot := state.knownGoodSlot);
          state := state.(lastReason := Some("unclean-candidate-boot-or-automatic-tryboot-rollback"));
          r := store.SaveState(state, nowMs);
          return;
        }
      }
      return Ok(state);
    }
  }

  class RaspberryPiTrybootConfig {
    const files: PersistentFiles

    constructor (files: PersistentFiles)
      ensures this.files == files
    {
      this.files := files;
    }

    method WriteFile(defaultPartition: int, tryPartition: int) returns (error: Option<Error>)
      modifies files
      ensures RanPlan(old(files.View()), files.View(), WriteAtomic(defaultPartition, tryPartition),
                      old(files.power), error)
      ensures error.None? ==> files.power == old(files.power) - 1
    {
      var payload := Render(defaultPartition, tryPartition);
      if payload.Err? { return Some(payload.error); }
      OneWrite(files.View(), WriteAutoboot(Autoboot(defaultPartition, tryPartition)));
      var ok := files.Replace(WriteAutoboot(Autoboot(defaultPartition, tryPartition)));
      return if ok then None else Some(PowerLost);
    }
  }

  lemma {:induction false} ApplyThen(d: Disk, a: seq<Write>, b: seq<Write>)
    ensures ApplyAll(d, a + b) == ApplyAll(ApplyAll(d, a), b)
    decreases |a|
  {
    if a == [] {
      assert a + b == b;
    } else {
      assert (a + b)[1..] == a[1..] + b;
      ApplyThen(Apply(d, a[0]), a[1..], b);
    }
  }

  /** Running `p` to its end and then `q` is running both. */
  lemma RanThen(d: Disk, mid: Disk, d': Disk, p: Plan, q: Plan, power: nat, error: Option<Error>)
    requires p.error.None? && |p.writes| <= power && RanPlan(d, mid, p, power, None)
    requires RanPlan(mid, d', q, power - |p.writes|, error)
    ensures RanPlan(d, d', Then(p, q), power, error)
  {
    var n := power - |p.writes|;
    ApplyThen(d, p.writes, q.writes);
    if n < |q.writes| {
      assert (p.writes + q.writes)[..power] == p.writes + q.writes[..n];
      ApplyThen(d, p.writes, q.writes[..n]);
    }
  }

  /** A plan that stopped short stays stopped, whatever would have come after. */
  lemma RanShort(d: Disk, d': Disk, p: Plan, q: Plan, power: nat, error: Option<Error>)
    requires RanPlan(d, d', p, power, error) && (power < |p.writes| || p.error.Some?)
    ensures RanPlan(d, d', Then(p, q), power, error)
  {
    if p.error.None? {
      assert (p.writes + q.writes)[..power] == p.writes[..power];
    }
  }

  /** What is committed for a state does not depend on its having been saved. */
  lemma SavingKeepsCommit(p: Platform, s: BootState, nowMs: int)
    ensures CommitKnownGood(p, Saved(s, nowMs)) == CommitKnownGood(p, s)
  {
  }

  class RecoveryExecutor {
    const platform: Platform
    const guard: BootGuard
    const autoboot: RaspberryPiTrybootConfig

    constructor (platform: Platform, guard: BootGuard, autoboot: RaspberryPiTrybootConfig)
      ensures this.platform == platform && this.guard == guard && this.autoboot == autoboot
    {
      this.platform, this.guard, this.autoboot := platform, guard, autoboot;
    }

    ghost predicate Wired() {
      guard.store.files == autoboot.files
    }

    /** The autoboot file for the known-good slot, then the receipt. */
    method CommitAndReceipt(boot: BootState, generation: int, nowMs: int) returns (error: Option<Error>)
      requires Wired()
      modifies autoboot.files
      ensures RanPlan(old(autoboot.files.View()), autoboot.files.View(),
                      Then(CommitKnownGood(platform, boot), Plan([WriteReceipt(Receipt(generation, nowMs))], None)),
                      old(autoboot.files.power), error)
    {
      ghost var d, power := autoboot.files.View(), autoboot.files.power;
      ghost var receiptPlan := Plan([WriteReceipt(Receipt(generation, nowMs))], None);
      var alternate := OtherPartition(boot.knownGoodSlot, platform.slotA, platform.slotB);
      if alternate.Err? {
        assert ApplyAll(d, []) == d;
        return Some(alternate.error);
      }
      ghost var commit := WriteAtomic(boot.knownGoodPartition, alternate.value);
      error := autoboot.WriteFile(boot.knownGoodPartition, alternate.value);
      ghost var mid := autoboot.files.View();
      if error.Some? {
        RanShort(d, mid, commit, receiptPlan, power, error);
        return;
      }
      OneWrite(mid, WriteReceipt(Receipt(generation, nowMs)));
      var ok := autoboot.files.Replace(WriteReceipt(Receipt(generation, nowMs)));
      error := if ok then None else Some(PowerLost);
      RanThen(d, mid, autoboot.files.View(), commit, receiptPlan, power, error);
    }

    /** One run of the executor for a request that could be read. */
    method ExecuteOnce(request: Request, nowMs: int) returns (error: Option<Error>)
      requires Wired()
      modifies autoboot.files
      ensures RanPlan(old(autoboot.files.View()), autoboot.files.View(),
                      ExecutePlan(platform, old(autoboot.files.View()), request, nowMs),
                      old(autoboot.files.power), error)
    {
      hide FailureReason, CommitKnownGood;
      ghost var d, power := autoboot.files.View(), autoboot.files.power;
      assert ApplyAll(d, []) == d;
      var last := if autoboot.files.receipt.Some? then autoboot.files.receipt.value else Receipt(0, 0);
      if request.generation <= last.generation { return None; }
      if last.processedAtMs != 0 && nowMs - last.processedAtMs < platform.cooldownSeconds * 1000 { return None; }
      var loaded := guard.store.LoadState(nowMs);
      if loaded.Err? { return Some(loaded.error); }
      var boot := loaded.value;
      ghost var rollback := Plan([], None);
      ghost var rest := Then(CommitKnownGood(platform, ExecutorBoot(d, request, nowMs)),
                             Plan([WriteReceipt(Receipt(request.generation, nowMs))], None));
      if request.action == RollbackRebootKnownGood {
        rollback := Save(ReportFailure(Load(d, nowMs), FailureReason(request)), nowMs);
        var reported := guard.ReportFailure(FailureReason(request), nowMs);
        if reported.Err? {
          RanShort(d, autoboot.files.View(), rollback, rest, power, Some(reported.error));
          return Some(reported.error);
        }
        boot := reported.value;
      }
      ghost var mid := autoboot.files.View();
      SavingKeepsCommit(platform, ReportFailure(Load(d, nowMs), FailureReason(request)), nowMs);
      error := CommitAndReceipt(boot, request.generation, nowMs);
      RanThen(d, mid, autoboot.files.View(), rollback, rest, power, error);
    }
  }

  /** The `main` commands that write more than the boot state. */
  class Commands {
    const guard: BootGuard
    const config: RaspberryPiTrybootConfig

    constructor (guard: BootGuard, config: RaspberryPiTrybootConfig)
      ensures this.guard == guard && this.config == config
    {
      this.guard, this.config := guard, config;
    }

    ghost predicate Wired() {
      guard.store.files == config.files
    }

    method Prepare(apply: bool, nowMs: int) returns (error: Option<Error>)
      requires Wired()
      modifies config.files
      ensures RanPlan(old(config.files.View()), config.files.View(),
                      Loading(old(config.files.View()), PreparePlan(Load(old(config.files.View()), nowMs), apply)),
                      old(config.files.power), error)
    {
      assert ApplyAll(config.files.View(), []) == config.files.View();
      var loaded := guard.store.LoadState(nowMs);
      if loaded.Err? { return Some(loaded.error); }
      var state := loaded.value;
      if state.phase != CandidateStaged || state.candidatePartition.None? { return Some(WrongPhase); }
      var rendered := Render(state.knownGoodPartition, state.candidatePartition.value);
      if rendered.Err? { return Some(rendered.error); }
      if apply { error := config.WriteFile(state.knownGoodPartition, state.candidatePartition.value); }
      else { error := None; }
    }

    method Accept(observed: int, tryboot: bool, applyAutoboot: bool, nowMs: int) returns (error: Option<Error>)
      requires Wired()
      modifies config.files
      ensures RanPlan(old(config.files.View()), config.files.View(),
                      Loading(old(config.files.View()),
                        AcceptPlan(Load(old(config.files.View()), nowMs), observed, tryboot, applyAutoboot, nowMs)),
                      old(config.files.power), error)
    {
      ghost var d, power := config.files.View(), config.files.power;
      assert ApplyAll(d, []) == d;
      var loaded := guard.store.LoadState(nowMs);
      if loaded.Err? { return Some(loaded.error); }
      var before := loaded.value;
      ghost var spec := BootSpec.AcceptCandidate(before, observed, tryboot);
      ghost var save := SaveResult(spec, nowMs);
      ghost var rest := if applyAutoboot && spec.Ok?
                        then WriteAtomic(spec.value.knownGoodPartition, before.knownGoodPartition) else Plan([], None);
      var accepted := guard.AcceptCandidate(observed, tryboot, nowMs);
      ghost var mid := config.files.View();
      if accepted.Err? {
        RanShort(d, mid, save, rest, power, Some(accepted.error));
        return Some(accepted.error);
      }
      error := None;
      assert ApplyAll(mid, []) == mid;
      if applyAutoboot {
        error := config.WriteFile(accepted.value.knownGoodPartition, before.knownGoodPartition);
      }
      RanThen(d, mid, config.files.View(), save, rest, power, error);
    }

    method Reboot(nowMs: int) returns (error: Option<Error>)
      requires Wired()
      modifies config.files
      ensures RanPlan(old(config.files.View()), config.files.View(),
                      Loading(old(config.files.View()), BeginPlan(Load(old(config.files.View()), nowMs), nowMs)),
                      old(config.files.power), error)
    {
      ghost var d, power := config.files.View(), config.files.power;
      ghost var spec := BootSpec.BeginCandidateBoot(Load(d, nowMs));
      ghost var rest := Plan([], if spec.Ok? && spec.value.phase == RollbackRequired
                                 then Some(AttemptBudgetExhausted) else None);
      var begun := guard.BeginCandidateBoot(nowMs);
      ghost var mid := config.files.View();
      if begun.Err? {
        if Loadable(d) { RanShort(d, mid, SaveResult(spec, nowMs), rest, power, Some(begun.error)); }
        return Some(begun.error);
      }
      error := if begun.value.phase == RollbackRequired then Some(AttemptBudgetExhausted) else None;
      assert ApplyAll(mid, []) == mid;
      RanThen(d, mid, mid, SaveResult(spec, nowMs), rest, power, error);
    }
  }
}
