/** What each command puts on disk when its writes succeed, told from the disk it found
    (edge/pi-resilience/boot_guard.py:105-178, 277-304, recovery_executor.py:103-130). */
module BootEffects {
  import opened Collections
  import opened BootSpec
  import opened BootSafety

  // ------------------------------------------------------- what calls a rollback

  /** The request is read, new, and not held back by the cooldown. */
  predicate Due(p: Platform, d: Disk, r: Request, nowMs: int) {
    var last := if d.receipt.Some? then d.receipt.value else Receipt(0, 0);
    r.generation >= 1 && r.generation > last.generation &&
    (last.processedAtMs == 0 || nowMs >= last.processedAtMs + p.cooldownSeconds * 1000)
  }

  /** The command tells of a failure of the candidate. */
  predicate TellsFailure(p: Platform, d: Disk, e: Event) {
    match e.command
    case FailCurrent(_) => true
    case ExecuteOnce(Some(r)) => r.action == RollbackRebootKnownGood && Due(p, d, r, e.nowMs)
    case RecoverUnclean(observed, tryboot) =>
      d.boot.Some? && d.boot.value.phase == CandidateBooting &&
      (!tryboot || d.boot.value.candidatePartition != Some(observed))
    case _ => false
  }

  predicate UnderWay(s: BootState) {
    s.phase == CandidateStaged || s.phase == CandidateBooting
  }

  /** The candidate is given up: known-good is active again, nothing else is forgotten. */
  predicate GivenUp(s: BootState, s': BootState, nowMs: int, reason: string) {
    s' == s.(phase := RollbackRequired, activeSlot := s.knownGoodSlot, lastReason := Some(reason),
             generation := s.generation + 1, updatedAtMs := nowMs)
  }

  /** The reason given, without the white space around it; a stock one if that is empty. */
  predicate IsReason(given: string, reason: string) {
    if forall i :: 0 <= i < |given| ==> IsSpace(given[i]) then reason == "candidate-health-failed"
    else
      reason != [] && !IsSpace(reason[0]) && !IsSpace(reason[|reason| - 1]) &&
      exists i, j :: 0 <= i <= j <= |given| && reason == given[i..j] &&
        (forall k :: 0 <= k < i ==> IsSpace(given[k])) && forall k :: j <= k < |given| ==> IsSpace(given[k])
  }

  lemma {:induction false} StripLeftCut(s: string) returns (i: nat)
    ensures i <= |s| && StripLeft(s) == s[i..] && forall k :: 0 <= k < i ==> IsSpace(s[k])
    ensures i < |s| ==> !IsSpace(s[i])
  {
    if s != [] && IsSpace(s[0]) {
      var j := StripLeftCut(s[1..]);
      i := j + 1;
      assert s[1..][j..] == s[i..];
      forall k | 0 <= k < i ensures IsSpace(s[k]) {
        if k > 0 { assert s[1..][k - 1] == s[k]; }
      }
      assert i < |s| ==> s[1..][j] == s[i];
    } else {
      i := 0;
    }
  }

  lemma {:induction false} StripRightCut(s: string) returns (j: nat)
    ensures j <= |s| && StripRight(s) == s[..j] && forall k :: j <= k < |s| ==> IsSpace(s[k])
    ensures j > 0 ==> !IsSpace(s[j - 1])
  {
    var n := |s| - 1;
    if s != [] && IsSpace(s[n]) {
      j := StripRightCut(s[..n]);
      assert s[..n][..j] == s[..j];
      forall k | j <= k < |s| ensures IsSpace(s[k]) {
        if k < n { assert s[..n][k] == s[k]; }
      }
      assert j > 0 ==> s[..n][j - 1] == s[j - 1];
    } else {
      j := |s|;
      assert s[..j] == s;
    }
  }

  lemma StripIsReason(given: string)
    ensures IsReason(given, if Strip(given) == [] then "candidate-health-failed" else Strip(given))
    ensures Strip(given) == [] <==> forall i :: 0 <= i < |given| ==> IsSpace(given[i])
  {
    hide StripLeft, StripRight;
    var i := StripLeftCut(given);
    var rest := given[i..];
    var j := StripRightCut(rest);
    var reason := rest[..j];
    assert Strip(given) == reason == given[i..i + j];
    forall k | i + j <= k < |given| ensures IsSpace(given[k]) { assert rest[k - i] == given[k]; }
    if j > 0 {
      assert reason[0] == rest[0] == given[i] && reason[j - 1] == rest[j - 1];
    } else {
      forall k | 0 <= k < |given| ensures IsSpace(given[k]) {}
    }
  }

  /** The text given with the failure. */
  function ReasonGiven(c: Command): string {
    match c
    case FailCurrent(reason) => reason
    case ExecuteOnce(Some(r)) => if r.reason.Some? then r.reason.value else "candidate-health-failed"
    case _ => ""
  }

  predicate RightReason(c: Command, reason: string) {
    if c.RecoverUnclean? then reason == "unclean-candidate-boot-or-automatic-tryboot-rollback"
    else IsReason(ReasonGiven(c), reason)
  }

  lemma FailureSaves(p: Platform, d: Disk, e: Event)
    requires DiskInv(d) && d.boot.Some? && UnderWay(d.boot.value) && TellsFailure(p, d, e)
    ensures var s' := SavedBoot(p, d, e.command, e.nowMs);
            s'.Some? && exists reason ::
              GivenUp(d.boot.value, s'.value, e.nowMs, reason) && RightReason(e.command, reason)
  {
    hide Strip, Render, IsReason;
    var s, c := d.boot.value, e.command;
    var given := ReasonGiven(c);
    StripIsReason(given);
    var reason := if c.RecoverUnclean? then "unclean-candidate-boot-or-automatic-tryboot-rollback"
                  else if Strip(given) == [] then "candidate-health-failed" else Strip(given);
    var s' := SavedBoot(p, d, c, e.nowMs);
    assert s'.Some? && GivenUp(s, s'.value, e.nowMs, reason);
  }

  /** A failure told while a candidate is staged or booting, and saved, gives it up: by a
      failed command, by a due rollback request, or by a boot found not to be the
      candidate's. */
  lemma FailureTakesEffect(p: Platform, d: Disk, e: Event)
    requires DiskInv(d) && d.boot.Some? && UnderWay(d.boot.value) && TellsFailure(p, d, e) && e.power > 0
    ensures var after := After(p, d, e).boot;
            after.Some? && after.value.phase == RollbackRequired &&
            after.value.activeSlot == after.value.knownGoodSlot &&
            exists reason ::
              GivenUp(d.boot.value, after.value, e.nowMs, reason) && RightReason(e.command, reason)
  {
    hide Execute, SavedBoot, RightReason, TellsFailure;
    BootAfter(p, d, e);
    FailureSaves(p, d, e);
  }

  lemma {:induction false} RunConcat(p: Platform, d: Disk, a: seq<Event>, b: seq<Event>)
    ensures Run(p, d, a + b) == Run(p, Run(p, d, a), b)
    decreases |a|
  {
    hide After;
    if a == [] {
      assert a + b == b;
    } else {
      assert (a + b)[1..] == a[1..] + b;
      RunConcat(p, After(p, d, a[0]), a[1..], b);
    }
  }

  /** Over every run: after such a failure the disk asks for a rollback with the known-good
      slot active, and the candidate is never booted again without another stage. */
  lemma FailureEndsBooting(p: Platform, d: Disk, before: seq<Event>, e: Event, rest: seq<Event>)
    requires DiskInv(d)
    requires var found := Run(p, d, before);
             found.boot.Some? && UnderWay(found.boot.value) && TellsFailure(p, found, e) && e.power > 0
    requires forall i :: 0 <= i < |rest| ==> !rest[i].command.StageCandidate?
    ensures var after := After(p, Run(p, d, before), e);
            after.boot.Some? && after.boot.value.phase == RollbackRequired &&
            after.boot.value.activeSlot == after.boot.value.knownGoodSlot && CandidateBoots(p, after, rest) == 0
  {
    hide After, Run, CandidateBoots, TellsFailure;
    var found := Run(p, d, before);
    RunKeepsStateInv(p, d, before);
    FailureTakesEffect(p, found, e);
    AfterKeepsInv(p, found, e);
    StageBudget(p, After(p, found, e), rest);
  }

  lemma AfterKeepsInv(p: Platform, d: Disk, e: Event)
    requires DiskInv(d)
    ensures DiskInv(After(p, d, e))
  {
    hide After;
    RunKeepsStateInv(p, d, [e]);
    assert [e][1..] == [];
    assert Run(p, d, [e]) == Run(p, After(p, d, e), []) == After(p, d, e);
  }

  // ------------------------------------------------------ the other transitions

  /** A failure told when no candidate is under way changes nothing but the record of the
      save. */
  lemma IdleFailureKeepsState(p: Platform, d: Disk, e: Event)
    requires DiskInv(d) && d.boot.Some? && !UnderWay(d.boot.value) && e.command.FailCurrent? && e.power > 0
    ensures var s := d.boot.value;
            After(p, d, e).boot == Some(s.(generation := s.generation + 1, updatedAtMs := e.nowMs))
  {
    hide Execute, Strip, Render;
    BootAfter(p, d, e);
  }

  /** What every save does besides: it counts and dates, and keeps the budget. */
  predicate SavedOver(s: BootState, after: BootState, nowMs: int) {
    after.generation == s.generation + 1 && after.updatedAtMs == nowMs &&
    after.maxCandidateAttempts == s.maxCandidateAttempts
  }

  /** A candidate may be staged: on the other slot and another partition, with a version. */
  predicate Stageable(s: BootState, slot: Option<Slot>, partition: int, version: string) {
    (s.phase == Stable || s.phase == RollbackRequired) && slot.Some? && slot.value != s.knownGoodSlot &&
    partition >= 1 && partition != s.knownGoodPartition &&
    exists i :: 0 <= i < |version| && !IsSpace(version[i])
  }

  /** A legal stage is on disk as asked, with no attempt spent; any other leaves the
      boot state alone. */
  lemma StageTakesEffect(p: Platform, d: Disk, e: Event)
    requires DiskInv(d) && e.command.StageCandidate? && e.power > 0
    ensures var s := if d.boot.Some? then d.boot.value else DefaultState(e.nowMs);
            var c, after := e.command, After(p, d, e).boot;
            if Stageable(s, c.slot, c.partition, c.version) then
              after.Some? && after.value.phase == CandidateStaged && after.value.candidateSlot == c.slot &&
              after.value.candidatePartition == Some(c.partition) && after.value.candidateAttempts == 0 &&
              after.value.activeSlot == after.value.knownGoodSlot == s.knownGoodSlot &&
              after.value.knownGoodPartition == s.knownGoodPartition &&
              SavedOver(s, after.value, e.nowMs) && after.value.lastReason == None &&
              after.value.candidateVersion.Some? && IsReason(c.version, after.value.candidateVersion.value)
            else after == d.boot
  {
    hide Execute, Strip, Render, IsReason;
    BootAfter(p, d, e);
    StripIsReason(e.command.version);
  }

  /** Booting a candidate under way spends one attempt while there are any left, and then
      gives it up; in any other phase it leaves the boot state alone. */
  lemma BootTakesEffect(p: Platform, d: Disk, e: Event)
    requires DiskInv(d) && d.boot.Some? && e.command.RebootTryboot? && e.power > 0
    ensures var s, after := d.boot.value, After(p, d, e).boot;
            if !UnderWay(s) then after == d.boot
            else
              after.Some? && SavedOver(s, after.value, e.nowMs) &&
              after.value.(phase := s.phase, activeSlot := s.activeSlot, lastReason := s.lastReason,
                           generation := s.generation, updatedAtMs := s.updatedAtMs, candidateAttempts := 0)
                == s.(candidateAttempts := 0) &&
              after.value.candidateAttempts == s.candidateAttempts + 1 &&
              if s.candidateAttempts < s.maxCandidateAttempts then
                after.value.phase == CandidateBooting && Some(after.value.activeSlot) == s.candidateSlot &&
                after.value.lastReason == None
              else
                after.value.phase == RollbackRequired && after.value.activeSlot == s.knownGoodSlot &&
                after.value.lastReason == Some("candidate-attempt-budget-exhausted")
  {
    hide Execute, Strip, Render;
    BootAfter(p, d, e);
  }

  /** A candidate that is booting, seen on its own partition in a tryboot boot, becomes
      known-good; otherwise the boot state stays. */
  lemma AcceptTakesEffect(p: Platform, d: Disk, e: Event)
    requires DiskInv(d) && d.boot.Some? && e.command.AcceptCurrent? && e.power > 0
    ensures var s, c, after := d.boot.value, e.command, After(p, d, e).boot;
            if s.phase == CandidateBooting && c.tryboot && s.candidatePartition == Some(c.observed) then
              after.Some? && after.value.phase == Stable && Some(after.value.knownGoodSlot) == s.candidateSlot &&
              after.value.knownGoodPartition == c.observed && after.value.activeSlot == after.value.knownGoodSlot &&
              after.value.candidateSlot == None && after.value.candidatePartition == None &&
              after.value.candidateVersion == None && after.value.candidateAttempts == 0 &&
              after.value.lastReason == None && SavedOver(s, after.value, e.nowMs)
            else after == d.boot
  {
    hide Execute, Strip, Render;
    BootAfter(p, d, e);
  }

  /** A boot that is the candidate's own, or none under way: recovery leaves the state. */
  lemma CleanRecoveryKeepsState(p: Platform, d: Disk, e: Event)
    requires DiskInv(d) && d.boot.Some? && e.command.RecoverUnclean? && !TellsFailure(p, d, e)
    ensures After(p, d, e) == d
  {
    hide Strip, Render;
  }

  // ----------------------------------------------------- the budget is reached

  function Reboots(nowMs: int, n: nat): seq<Event> {
    if n == 0 then [] else [Event(RebootTryboot, nowMs, 1)] + Reboots(nowMs, n - 1)
  }

  lemma BootCounts(p: Platform, d: Disk, e: Event)
    requires DiskInv(d) && d.boot.Some? && e.command.RebootTryboot? && e.power > 0
    ensures BootsCandidate(p, d, e) <==>
            UnderWay(d.boot.value) && d.boot.value.candidateAttempts < d.boot.value.maxCandidateAttempts
  {
    hide Strip, Render;
  }

  /** From a staged candidate, reboots one after the other boot it exactly as often as the
      budget says; one more gives it up. */
  lemma {:induction false} BudgetIsReached(p: Platform, d: Disk, nowMs: int, n: nat)
    requires DiskInv(d) && d.boot.Some? && UnderWay(d.boot.value)
    requires n == d.boot.value.maxCandidateAttempts - d.boot.value.candidateAttempts
    ensures CandidateBoots(p, d, Reboots(nowMs, n + 1)) == n
    ensures var after := Run(p, d, Reboots(nowMs, n + 1)).boot;
            after.Some? && after.value.phase == RollbackRequired
    decreases n
  {
    hide After, BootsCandidate;
    var e := Event(RebootTryboot, nowMs, 1);
    var d' := After(p, d, e);
    assert Reboots(nowMs, n + 1)[1..] == Reboots(nowMs, n);
    BootTakesEffect(p, d, e);
    BootCounts(p, d, e);
    AfterKeepsInv(p, d, e);
    if n > 0 {
      BudgetIsReached(p, d', nowMs, n - 1);
    } else {
      assert Run(p, d', Reboots(nowMs, 0)) == d' && CandidateBoots(p, d', Reboots(nowMs, 0)) == 0;
    }
  }

  /** Whatever budget is saved, a candidate is never booted more than five times. */
  lemma AtMostFiveBoots(p: Platform, d: Disk, events: seq<Event>)
    requires DiskInv(d) && forall i :: 0 <= i < |events| ==> !events[i].command.StageCandidate?
    ensures CandidateBoots(p, d, events) <= 5
  {
    hide CandidateBoots;
    StageBudget(p, d, events);
    LoadInv(d, 0);
  }

  // -------------------------------------------------- partitions for the firmware

  /** What a prepared tryboot writes: known-good by default, the candidate on trial. */
  lemma PrepareTakesEffect(p: Platform, d: Disk, e: Event)
    requires DiskInv(d) && d.boot.Some? && d.boot.value.phase == CandidateStaged && e.power > 0
    requires e.command == PrepareTryboot(true)
    requires Render(d.boot.value.knownGoodPartition, d.boot.value.candidatePartition.value).Ok?
    ensures var s := d.boot.value;
            After(p, d, e) == d.(autoboot := Some(Autoboot(s.knownGoodPartition, s.candidatePartition.value)))
  {
    hide Render;
    var w := WriteAutoboot(Autoboot(d.boot.value.knownGoodPartition, d.boot.value.candidatePartition.value));
    assert [w][1..] == [];
    assert ApplyAll(d, [w]) == ApplyAll(Apply(d, w), []);
  }

  /** What an acceptance writes when asked to: the new known-good by default, the one
      before it on trial. */
  lemma AcceptWritesAutoboot(p: Platform, d: Disk, e: Event)
    requires DiskInv(d) && d.boot.Some? && e.power > 1 && e.command.AcceptCurrent? && e.command.applyAutoboot
    requires var s := d.boot.value;
             s.phase == CandidateBooting && e.command.tryboot && s.candidatePartition == Some(e.command.observed) &&
             Render(e.command.observed, s.knownGoodPartition).Ok?
    ensures After(p, d, e).autoboot == Some(Autoboot(e.command.observed, d.boot.value.knownGoodPartition))
  {
    hide Render, Strip;
    var r := AcceptCandidate(d.boot.value, e.command.observed, true).value;
    var v := SaveBoot(Saved(r, e.nowMs));
    var w := WriteAutoboot(Autoboot(e.command.observed, d.boot.value.knownGoodPartition));
    assert PlanOf(p, d, e.command, e.nowMs).writes == [v, w];
    TwoWrites(d, v, w);
  }

  lemma TwoWrites(d: Disk, v: Write, w: Write)
    ensures ApplyAll(d, [v, w]) == Apply(Apply(d, v), w)
  {
    assert [v, w][1..] == [w] && [w][1..] == [];
    assert ApplyAll(d, [v, w]) == ApplyAll(Apply(d, v), [w]) == ApplyAll(Apply(Apply(d, v), w), []);
  }

  /** What a due request leaves when nothing fails: known-good by default, the other slot's
      partition on trial, and the receipt. */
  lemma RequestTakesEffect(p: Platform, d: Disk, e: Event, r: Request)
    requires DiskInv(d) && d.boot.Some? && e.command == ExecuteOnce(Some(r)) && Due(p, d, r, e.nowMs) && e.power >= 3
    requires p.slotA >= 1 && p.slotB >= 1 && p.slotA != p.slotB
    requires Render(d.boot.value.knownGoodPartition,
                    if d.boot.value.knownGoodSlot == A then p.slotB else p.slotA).Ok?
    ensures var s, after := d.boot.value, After(p, d, e);
            after.autoboot == Some(Autoboot(s.knownGoodPartition, if s.knownGoodSlot == A then p.slotB else p.slotA)) &&
            after.receipt == Some(Receipt(r.generation, e.nowMs)) &&
            (r.action == RebootKnownGood ==> after.boot == d.boot)
  {
    hide Render, Strip;
    var s := d.boot.value;
    var w := WriteAutoboot(Autoboot(s.knownGoodPartition, if s.knownGoodSlot == A then p.slotB else p.slotA));
    var x := WriteReceipt(Receipt(r.generation, e.nowMs));
    if r.action == RebootKnownGood {
      assert PlanOf(p, d, e.command, e.nowMs).writes == [w, x];
      TwoWrites(d, w, x);
    } else {
      var v := SaveBoot(Saved(ReportFailure(s, FailureReason(r)), e.nowMs));
      assert PlanOf(p, d, e.command, e.nowMs).writes == [v, w, x];
      assert [v, w, x][1..] == [w, x];
      TwoWrites(Apply(d, v), w, x);
    }
  }
}
