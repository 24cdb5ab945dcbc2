/** Which commands end without an error, told from the disk they find
    (edge/pi-resilience/boot_guard.py:105-178, 277-304, recovery_executor.py:86-130). */
module BootOutcomes {
  import opened Collections
  import opened Decimals
  import opened BootSpec
  import opened BootEffects
  import BootSafety
  import BootText

  /** Two partitions an autoboot file can name. */
  predicate Writable(d: int, t: int) {
    d >= 1 && t >= 1 && d != t && |Integer(d)| + |Integer(t)| <= 450
  }

  function Other(p: Platform, s: BootState): int {
    if s.knownGoodSlot == A then p.slotB else p.slotA
  }

  predicate Committable(p: Platform, s: BootState) {
    p.slotA >= 1 && p.slotB >= 1 && p.slotA != p.slotB && Writable(s.knownGoodPartition, Other(p, s))
  }

  predicate Succeeds(p: Platform, d: Disk, c: Command, nowMs: int) {
    var s := if d.boot.Some? then d.boot.value else DefaultState(nowMs);
    match c
    case StageCandidate(slot, partition, version) => Stageable(s, slot, partition, version)
    case PrepareTryboot(_) =>
      s.phase == CandidateStaged && s.candidatePartition.Some? &&
      Writable(s.knownGoodPartition, s.candidatePartition.value)
    case RebootTryboot => UnderWay(s) && s.candidateAttempts < s.maxCandidateAttempts
    case AcceptCurrent(observed, tryboot, applyAutoboot) =>
      s.phase == CandidateBooting && tryboot && s.candidatePartition == Some(observed) &&
      (applyAutoboot ==> Writable(observed, s.knownGoodPartition))
    case FailCurrent(_) => true
    case RecoverUnclean(_, _) => true
    case ExecuteOnce(None) => false
    case ExecuteOnce(Some(r)) => r.generation >= 1 && (Due(p, d, r, nowMs) ==> Committable(p, s))
  }

  lemma StateKept(p: Platform, d: Disk, nowMs: int)
    requires BootSafety.DiskInv(d)
    ensures BootSafety.StateInv(Load(d, nowMs)) && Loadable(d)
  {
    BootSafety.LoadInv(d, nowMs);
  }

  lemma RequestSucceedsIff(p: Platform, d: Disk, r: Request, nowMs: int)
    requires BootSafety.DiskInv(d) && r.generation >= 1
    ensures PlanOf(p, d, ExecuteOnce(Some(r)), nowMs).error.None? <==>
            (Due(p, d, r, nowMs) ==> Committable(p, Load(d, nowMs)))
  {
    hide Render, Strip, AutobootText, Integer;
    StateKept(p, d, nowMs);
    var s := Load(d, nowMs);
    BootText.RenderIff(s.knownGoodPartition, Other(p, s));
  }

  /** A command ends without an error exactly when the disk allows it. */
  lemma SucceedsIff(p: Platform, d: Disk, c: Command, nowMs: int)
    requires BootSafety.DiskInv(d)
    ensures PlanOf(p, d, c, nowMs).error.None? <==> Succeeds(p, d, c, nowMs)
  {
    hide Render, Strip, AutobootText, Integer, IsReason;
    StateKept(p, d, nowMs);
    var s := Load(d, nowMs);
    match c
    case StageCandidate(slot, partition, version) => StripIsReason(version);
    case PrepareTryboot(_) =>
      if s.candidatePartition.Some? { BootText.RenderIff(s.knownGoodPartition, s.candidatePartition.value); }
    case AcceptCurrent(observed, _, _) => BootText.RenderIff(observed, s.knownGoodPartition);
    case ExecuteOnce(Some(r)) => if r.generation >= 1 { RequestSucceedsIff(p, d, r, nowMs); }
    case _ =>
  }
}
