/** What runs of the guard commands and the executor keep, one command at a time,
    each of which may lose power between any two of its writes. */
module BootSafety {
  import opened Collections
  import opened Decimals
  import opened BootSpec

  /** One command, when it runs, and how many of its writes succeed before power fails. */
  datatype Event = Event(command: Command, nowMs: int, power: nat)

  function After(p: Platform, d: Disk, e: Event): Disk {
    Execute(p, d, e.command, e.nowMs, e.power)
  }

  function Run(p: Platform, d: Disk, events: seq<Event>): Disk
    decreases |events|
  {
    if events == [] then d else Run(p, After(p, d, events[0]), events[1..])
  }

  // ------------------------------------------------------ the state machine

  predicate CandidateSet(s: BootState) {
    s.candidateSlot.Some? && s.candidateSlot.value != s.knownGoodSlot &&
    s.candidatePartition.Some? && s.candidatePartition.value != s.knownGoodPartition &&
    s.candidateVersion.Some?
  }

  predicate StateInv(s: BootState) {
    Validates(s) &&
    (s.phase != CandidateBooting ==> s.activeSlot == s.knownGoodSlot) &&
    (s.phase == CandidateBooting ==> s.candidateSlot == Some(s.activeSlot)) &&
    (s.phase == Stable ==> s.candidateSlot.None? && s.candidatePartition.None? && s.candidateVersion.None?) &&
    (s.phase != Stable ==> CandidateSet(s)) &&
    match s.phase
    case Stable => s.candidateAttempts == 0
    case CandidateStaged => s.candidateAttempts == 0
    case CandidateBooting => 1 <= s.candidateAttempts <= s.maxCandidateAttempts
    case RollbackRequired => s.candidateAttempts <= s.maxCandidateAttempts + 1
  }

  /** The boot states on disk and the one a missing file stands for. */
  predicate DiskInv(d: Disk) {
    d.boot.Some? ==> StateInv(d.boot.value)
  }

  lemma LoadInv(d: Disk, nowMs: int)
    requires DiskInv(d)
    ensures StateInv(Load(d, nowMs))
  {
  }

  lemma {:induction false} ApplyPrefix(d: Disk, writes: seq<Write>, n: nat)
    requires n <= |writes|
    ensures ApplyAll(d, writes) == ApplyAll(ApplyAll(d, writes[..n]), writes[n..])
    decreases n
  {
    if n > 0 {
      ApplyPrefix(Apply(d, writes[0]), writes[1..], n - 1);
      assert writes[1..][..n - 1] == writes[..n][1..] && writes[1..][n - 1..] == writes[n..];
    }
  }

  /** The boot state a command saves, if any: at most one. */
  function SavedBoot(p: Platform, d: Disk, c: Command, nowMs: int): Option<BootState> {
    var writes := PlanOf(p, d, c, nowMs).writes;
    if writes != [] && writes[0].SaveBoot? then Some(writes[0].state) else None
  }

  lemma {:induction false} OtherWritesKeepBoot(d: Disk, writes: seq<Write>)
    requires forall i :: 0 <= i < |writes| ==> !writes[i].SaveBoot?
    ensures ApplyAll(d, writes).boot == d.boot
    decreases |writes|
  {
    if writes != [] { OtherWritesKeepBoot(Apply(d, writes[0]), writes[1..]); }
  }

  /** Only the first write of a command can be to the boot state. */
  lemma OneBootWrite(p: Platform, d: Disk, c: Command, nowMs: int)
    ensures forall i :: 0 < i < |PlanOf(p, d, c, nowMs).writes| ==> !PlanOf(p, d, c, nowMs).writes[i].SaveBoot?
  {
    hide Render, Strip;
  }

  lemma BootAfter(p: Platform, d: Disk, e: Event)
    ensures After(p, d, e).boot ==
            if e.power > 0 && SavedBoot(p, d, e.command, e.nowMs).Some? then SavedBoot(p, d, e.command, e.nowMs)
              else d.boot
  {
    hide Render, Strip;
    var writes := PlanOf(p, d, e.command, e.nowMs).writes;
    var done := if e.power < |writes| then writes[..e.power] else writes;
    OneBootWrite(p, d, e.command, e.nowMs);
    if done != [] {
      OtherWritesKeepBoot(Apply(d, done[0]), done[1..]);
    }
  }

  function Computed(r: Result<BootState, Error>): Option<BootState> {
    if r.Ok? then Some(r.value) else None
  }

  /** The state a command computes from the one it loads, before saving it. */
  function NextState(s: BootState, c: Command): Option<BootState> {
    match c
    case StageCandidate(slot, partition, version) => Computed(Stage(s, slot, partition, version))
    case PrepareTryboot(_) => None
    case RebootTryboot => Computed(BeginCandidateBoot(s))
    case AcceptCurrent(observed, tryboot, _) => Computed(AcceptCandidate(s, observed, tryboot))
    case FailCurrent(reason) => Some(ReportFailure(s, reason))
    case RecoverUnclean(observed, tryboot) => RecoverAfterUncleanBoot(s, observed, tryboot)
    case ExecuteOnce(request) =>
      if request.Some? && request.value.action == RollbackRebootKnownGood
      then Some(ReportFailure(s, FailureReason(request.value))) else None
  }

  lemma SavedIsNext(p: Platform, d: Disk, c: Command, nowMs: int)
    ensures var s' := SavedBoot(p, d, c, nowMs);
            s'.Some? ==>
              var next := NextState(Load(d, nowMs), c);
              next.Some? && s'.value == Saved(next.value, nowMs) && Validates(next.value)
  {
    hide Render, Strip;
  }

  lemma NextKeepsInv(s: BootState, c: Command)
    requires StateInv(s)
    ensures var next := NextState(s, c); next.Some? ==> StateInv(next.value)
  {
    hide Strip;
  }

  /** Every saved state keeps the invariant. */
  lemma SavedKeepsInv(p: Platform, d: Disk, c: Command, nowMs: int)
    requires DiskInv(d)
    ensures var s' := SavedBoot(p, d, c, nowMs); s'.Some? ==> StateInv(s'.value)
  {
    hide SavedBoot, NextState;
    LoadInv(d, nowMs);
    SavedIsNext(p, d, c, nowMs);
    NextKeepsInv(Load(d, nowMs), c);
  }

  /** In every run from the default state, with power lost anywhere, the state on disk
      satisfies the boot invariant. */
  lemma {:induction false} RunKeepsStateInv(p: Platform, d: Disk, events: seq<Event>)
    requires DiskInv(d)
    ensures DiskInv(Run(p, d, events))
    decreases |events|
  {
    if events != [] {
      SavedKeepsInv(p, d, events[0].command, events[0].nowMs);
      BootAfter(p, d, events[0]);
      RunKeepsStateInv(p, After(p, d, events[0]), events[1..]);
    }
  }

  function KnownGood(d: Disk): (Slot, int) {
    var s := Load(d, 0); (s.knownGoodSlot, s.knownGoodPartition)
  }

  lemma NextKeepsKnownGood(s: BootState, c: Command)
    requires !c.AcceptCurrent?
    ensures var next := NextState(s, c);
            next.Some? ==>
              next.value.knownGoodSlot == s.knownGoodSlot && next.value.knownGoodPartition == s.knownGoodPartition
  {
    hide Strip;
  }

  /** Known-good changes only by accepting a candidate that is booting, in a verified
      tryboot boot, observed on its own partition, which then is the known-good one. */
  lemma KnownGoodOnlyByAcceptance(p: Platform, d: Disk, e: Event)
    requires DiskInv(d) && KnownGood(After(p, d, e)) != KnownGood(d)
    ensures e.command.AcceptCurrent? && e.command.tryboot && e.power > 0
    ensures var s := Load(d, e.nowMs);
            s.phase == CandidateBooting && s.candidatePartition == Some(e.command.observed) &&
            KnownGood(After(p, d, e)) == (s.candidateSlot.value, e.command.observed)
  {
    hide Execute, SavedBoot, Strip;
    BootAfter(p, d, e);
    SavedIsNext(p, d, e.command, e.nowMs);
    if !e.command.AcceptCurrent? {
      NextKeepsKnownGood(Load(d, e.nowMs), e.command);
    }
  }

  /** The event saves a candidate boot: the caller goes on to reboot into it. */
  predicate BootsCandidate(p: Platform, d: Disk, e: Event) {
    e.command.RebootTryboot? && e.power > 0 &&
    var s' := SavedBoot(p, d, e.command, e.nowMs); s'.Some? && s'.value.phase == CandidateBooting
  }

  function CandidateBoots(p: Platform, d: Disk, events: seq<Event>): nat
    decreases |events|
  {
    if events == [] then 0
    else (if BootsCandidate(p, d, events[0]) then 1 else 0) + CandidateBoots(p, After(p, d, events[0]), events[1..])
  }

  /** Boots the current stage still allows. */
  function BootsLeft(s: BootState): int {
    if s.phase == CandidateStaged || s.phase == CandidateBooting then s.maxCandidateAttempts - s.candidateAttempts
      else 0
  }

  lemma NextUsesOne(s: BootState, c: Command)
    requires StateInv(s) && !c.StageCandidate?
    ensures BootsLeft(s) >= 0
    ensures var next := NextState(s, c);
            next.Some? ==>
              BootsLeft(next.value) + (if c.RebootTryboot? && next.value.phase == CandidateBooting then 1 else 0)
              <= BootsLeft(s)
  {
    hide Strip;
  }

  lemma BootUsesOne(p: Platform, d: Disk, e: Event)
    requires DiskInv(d) && !e.command.StageCandidate?
    ensures BootsLeft(Load(d, 0)) >= 0
    ensures BootsLeft(Load(After(p, d, e), 0)) + (if BootsCandidate(p, d, e) then 1 else 0) <= BootsLeft(Load(d, 0))
  {
    hide Execute, SavedBoot, NextState;
    LoadInv(d, e.nowMs);
    BootAfter(p, d, e);
    SavedIsNext(p, d, e.command, e.nowMs);
    NextUsesOne(Load(d, e.nowMs), e.command);
  }

  /** Without another stage, a run boots the candidate at most as often as the budget
      allows; right after a stage that is `maxCandidateAttempts`. */
  lemma {:induction false} StageBudget(p: Platform, d: Disk, events: seq<Event>)
    requires DiskInv(d) && forall i :: 0 <= i < |events| ==> !events[i].command.StageCandidate?
    ensures CandidateBoots(p, d, events) <= BootsLeft(Load(d, 0)) <= Load(d, 0).maxCandidateAttempts
    decreases |events|
  {
    LoadInv(d, 0);
    if events != [] {
      BootUsesOne(p, d, events[0]);
      SavedKeepsInv(p, d, events[0].command, events[0].nowMs);
      BootAfter(p, d, events[0]);
      StageBudget(p, After(p, d, events[0]), events[1..]);
    }
  }

  // ---------------------------------------------------------------- executor

  /** The receipt an event writes, if any. */
  function ReceiptOf(p: Platform, d: Disk, e: Event): seq<Receipt> {
    var writes := PlanOf(p, d, e.command, e.nowMs).writes;
    if writes != [] && writes[|writes| - 1].WriteReceipt? && e.power >= |writes|
    then [writes[|writes| - 1].receipt] else []
  }

  function Receipts(p: Platform, d: Disk, events: seq<Event>): seq<Receipt>
    decreases |events|
  {
    if events == [] then [] else ReceiptOf(p, d, events[0]) + Receipts(p, After(p, d, events[0]), events[1..])
  }

  /** `next` may follow `last`: a larger generation and, unless the last receipt is
      stamped zero, a whole cooldown later. */
  predicate MayFollow(p: Platform, last: Receipt, next: Receipt) {
    next.generation > last.generation &&
    (last.processedAtMs != 0 ==> next.processedAtMs - last.processedAtMs >= p.cooldownSeconds * 1000)
  }

  lemma {:induction false} ReceiptAfterWrites(d: Disk, writes: seq<Write>)
    requires forall i :: 0 <= i < |writes| ==> !writes[i].WriteReceipt?
    ensures ApplyAll(d, writes).receipt == d.receipt
    decreases |writes|
  {
    if writes != [] { ReceiptAfterWrites(Apply(d, writes[0]), writes[1..]); }
  }

  /** A receipt is the last write of a command, if it is one at all, and may follow
      the receipt on disk. */
  predicate ReceiptLast(p: Platform, d: Disk, writes: seq<Write>) {
    (forall i :: 0 <= i < |writes| - 1 ==> !writes[i].WriteReceipt?) &&
    (writes != [] && writes[|writes| - 1].WriteReceipt? ==>
      MayFollow(p, LastReceipt(d), writes[|writes| - 1].receipt))
  }

  lemma ExecuteReceipt(p: Platform, d: Disk, r: Request, nowMs: int)
    ensures ReceiptLast(p, d, ExecutePlan(p, d, r, nowMs).writes)
  {
    hide Render, Strip;
  }

  lemma OneReceipt(p: Platform, d: Disk, c: Command, nowMs: int)
    ensures ReceiptLast(p, d, PlanOf(p, d, c, nowMs).writes)
  {
    hide Render, Strip, ExecutePlan;
    if c.ExecuteOnce? && c.request.Some? {
      ExecuteReceipt(p, d, c.request.value, nowMs);
    }
  }

  lemma EventReceipt(p: Platform, d: Disk, e: Event)
    ensures var r := ReceiptOf(p, d, e);
            |r| <= 1 && (r == [] ==> After(p, d, e).receipt == d.receipt) &&
            (r != [] ==> After(p, d, e).receipt == Some(r[0]) && MayFollow(p, LastReceipt(d), r[0]))
  {
    hide Render, Strip;
    var writes := PlanOf(p, d, e.command, e.nowMs).writes;
    OneReceipt(p, d, e.command, e.nowMs);
    if writes != [] && e.power >= |writes| {
      var n := |writes| - 1;
      ApplyPrefix(d, writes, n);
      ReceiptAfterWrites(d, writes[..n]);
      assert writes[n..] == [writes[n]];
      assert ApplyAll(ApplyAll(d, writes[..n]), [writes[n]]) == Apply(ApplyAll(d, writes[..n]), writes[n]) by {
        assert [writes[n]][1..] == [];
      }
    } else if e.power < |writes| {
      ReceiptAfterWrites(d, writes[..e.power]);
    }
  }

  predicate Chained(p: Platform, last: Receipt, rs: seq<Receipt>) {
    (rs != [] ==> MayFollow(p, last, rs[0])) &&
    forall i :: 0 < i < |rs| ==> MayFollow(p, rs[i - 1], rs[i])
  }

  /** Over every run, receipted generations strictly increase, so each is receipted
      at most once, and a receipt not stamped zero is followed no sooner than the
      cooldown, whatever the clock does. */
  lemma {:induction false} ReceiptsChained(p: Platform, d: Disk, events: seq<Event>)
    ensures Chained(p, LastReceipt(d), Receipts(p, d, events))
    decreases |events|
  {
    if events != [] {
      EventReceipt(p, d, events[0]);
      ReceiptsChained(p, After(p, d, events[0]), events[1..]);
    }
  }

  function RebootRequest(generation: int): Command {
    ExecuteOnce(Some(Request(RebootKnownGood, generation, None)))
  }

  /** One uninterrupted execution of a due reboot request, seen from its receipt. */
  lemma RebootReceipt(p: Platform, d: Disk, generation: int, nowMs: int)
    requires generation >= 1 && generation > LastReceipt(d).generation && !CoolingDown(p, LastReceipt(d), nowMs)
    requires Loadable(d) && CommitKnownGood(p, Load(d, nowMs)).error.None?
    ensures var e := Event(RebootRequest(generation), nowMs, 2);
            ReceiptOf(p, d, e) == [Receipt(generation, nowMs)] &&
            After(p, d, e).boot == d.boot && LastReceipt(After(p, d, e)) == Receipt(generation, nowMs)
  {
    hide Render;
    var e := Event(RebootRequest(generation), nowMs, 2);
    var w, receipt := CommitKnownGood(p, Load(d, nowMs)).writes[0], WriteReceipt(Receipt(generation, nowMs));
    assert PlanOf(p, d, e.command, nowMs).writes == [w, receipt];
    ApplyTwo(d, w, receipt);
  }

  /** The run that skips the cooldown: two requests a millisecond apart on a clock that
      starts at the epoch, both executed and receipted. */
  lemma EpochSkipsCooldown(p: Platform, d: Disk) returns (events: seq<Event>)
    requires d.receipt.None? && Loadable(d) && CommitKnownGood(p, Load(d, 0)).error.None?
    ensures events == [Event(RebootRequest(1), 0, 2), Event(RebootRequest(2), 1, 2)]
    ensures Receipts(p, d, events) == [Receipt(1, 0), Receipt(2, 1)]
  {
    hide ReceiptOf, After, CommitKnownGood;
    events := [Event(RebootRequest(1), 0, 2), Event(RebootRequest(2), 1, 2)];
    var d' := After(p, d, events[0]);
    RebootReceipt(p, d, 1, 0);
    SameCommit(p, Load(d, 0), Load(d', 1));
    RebootReceipt(p, d', 2, 1);
    assert events[1..] == [events[1]] && [events[1]][1..] == [];
    var d'' := After(p, d', events[1]);
    assert Receipts(p, d'', []) == [];
    assert Receipts(p, d', [events[1]]) == [Receipt(2, 1)] + [];
  }

  lemma SameCommit(p: Platform, s: BootState, t: BootState)
    requires s.knownGoodSlot == t.knownGoodSlot && s.knownGoodPartition == t.knownGoodPartition
    ensures CommitKnownGood(p, s) == CommitKnownGood(p, t)
  {
  }

  /** With the slots the executor assumes by default, an empty disk is such a disk. */
  lemma EpochSkipsCooldownExample(cooldownSeconds: int) returns (events: seq<Event>)
    ensures Receipts(Platform(2, 3, cooldownSeconds), Disk(None, None, None), events) == [Receipt(1, 0), Receipt(2, 1)]
  {
    assert Natural(2) == "2" && Natural(3) == "3";
    events := EpochSkipsCooldown(Platform(2, 3, cooldownSeconds), Disk(None, None, None));
  }

  /** In every run, a receipt stamped `stampMs` is followed no sooner than the cooldown. */
  ghost predicate CooldownAfter(p: Platform, stampMs: int) {
    forall d, events :: FollowedLate(p, Receipts(p, d, events), stampMs)
  }

  predicate FollowedLate(p: Platform, rs: seq<Receipt>, stampMs: int) {
    forall i :: 0 < i < |rs| && rs[i - 1].processedAtMs == stampMs ==>
      rs[i].processedAtMs - stampMs >= p.cooldownSeconds * 1000
  }

  /** Receipts are a cooldown apart over every run exactly where the earlier one is not
      stamped zero. */
  lemma CooldownKeptIff(p: Platform, stampMs: int)
    requires SlotsUsable(p) && 10 <= p.cooldownSeconds <= 3600
    ensures CooldownAfter(p, stampMs) <==> stampMs != 0
  {
    if stampMs != 0 {
      forall d, events ensures FollowedLate(p, Receipts(p, d, events), stampMs) {
        LateUnlessZero(p, d, events, stampMs);
      }
    } else {
      var boot := DefaultState(0).(knownGoodPartition := p.slotA);
      CommitSucceedsIff(p, boot);
      var d := Disk(Some(boot), None, None);
      var events := EpochSkipsCooldown(p, d);
      var rs := Receipts(p, d, events);
      assert rs[1] == Receipt(2, 1) && rs[1 - 1] == Receipt(1, 0);
      assert !FollowedLate(p, rs, 0);
    }
  }

  lemma LateUnlessZero(p: Platform, d: Disk, events: seq<Event>, stampMs: int)
    requires stampMs != 0
    ensures FollowedLate(p, Receipts(p, d, events), stampMs)
  {
    hide Receipts;
    ReceiptsChained(p, d, events);
    var rs := Receipts(p, d, events);
    forall i | 0 < i < |rs| && rs[i - 1].processedAtMs == stampMs
      ensures rs[i].processedAtMs - stampMs >= p.cooldownSeconds * 1000
    {
      assert MayFollow(p, rs[i - 1], rs[i]);
    }
  }

  /** When a readable request with a new generation is acted on: the cooldown guard is
      off exactly while the last receipt is stamped zero (no receipt, or a clock that
      still stood at the epoch), and on otherwise. */
  lemma ActsIff(p: Platform, d: Disk, r: Request, nowMs: int)
    requires r.generation >= 1 && r.generation > LastReceipt(d).generation
    requires CommitKnownGood(p, ExecutorBoot(d, r, nowMs)).error.None? && StateInv(Load(d, nowMs))
    ensures PlanOf(p, d, ExecuteOnce(Some(r)), nowMs).writes != [] <==>
      LastReceipt(d).processedAtMs == 0 || nowMs - LastReceipt(d).processedAtMs >= p.cooldownSeconds * 1000
  {
    hide Strip;
  }

  lemma {:induction false} GenerationsIncrease(p: Platform, last: Receipt, rs: seq<Receipt>, i: nat, j: nat)
    requires Chained(p, last, rs) && i < j < |rs|
    ensures rs[i].generation < rs[j].generation
    decreases j
  {
    assert MayFollow(p, rs[j - 1], rs[j]);
    if i < j - 1 { GenerationsIncrease(p, last, rs, i, j - 1); }
  }

  /** The platform can name a pair of partitions the boot file can hold. */
  predicate SlotsUsable(p: Platform) {
    p.slotA >= 1 && p.slotB >= 1 && p.slotA != p.slotB &&
    |AutobootText(p.slotA, p.slotB)| <= AUTOBOOT_LIMIT && |AutobootText(p.slotB, p.slotA)| <= AUTOBOOT_LIMIT
  }

  function PartitionOf(p: Platform, slot: Slot): int {
    if slot == A then p.slotA else p.slotB
  }

  /** Slots and partitions of a boot state agree with the platform's map. */
  predicate FollowsMap(p: Platform, s: BootState) {
    s.knownGoodPartition == PartitionOf(p, s.knownGoodSlot) &&
    (s.candidateSlot.Some? && s.candidatePartition.Some? ==>
      s.candidatePartition.value == PartitionOf(p, s.candidateSlot.value))
  }

  predicate MapInv(p: Platform, d: Disk) {
    DiskInv(d) && FollowsMap(p, Load(d, 0))
  }

  predicate StagesByMap(p: Platform, e: Event) {
    e.command.StageCandidate? && e.command.slot.Some? ==> e.command.partition == PartitionOf(p, e.command.slot.value)
  }

  /** The executor can commit the known-good slot exactly when the platform's slots are
      legal and the partition of the other slot is not the known-good one itself. */
  lemma CommitSucceedsIff(p: Platform, s: BootState)
    requires s.knownGoodPartition >= 1
    ensures var alternate := if s.knownGoodSlot == A then p.slotB else p.slotA;
            CommitKnownGood(p, s).error.None? <==>
            p.slotA >= 1 && p.slotB >= 1 && p.slotA != p.slotB && alternate != s.knownGoodPartition &&
            |AutobootText(s.knownGoodPartition, alternate)| <= AUTOBOOT_LIMIT
  {
    hide AutobootText, Strip;
  }

  lemma NextFollowsMap(p: Platform, s: BootState, c: Command)
    requires StateInv(s) && FollowsMap(p, s)
    requires c.StageCandidate? && c.slot.Some? ==> c.partition == PartitionOf(p, c.slot.value)
    ensures var next := NextState(s, c); next.Some? ==> FollowsMap(p, next.value)
  {
    hide Strip;
  }

  lemma MapStep(p: Platform, d: Disk, e: Event)
    requires MapInv(p, d) && StagesByMap(p, e)
    ensures MapInv(p, After(p, d, e))
  {
    hide Execute, SavedBoot, NextState;
    LoadInv(d, e.nowMs);
    SavedKeepsInv(p, d, e.command, e.nowMs);
    BootAfter(p, d, e);
    SavedIsNext(p, d, e.command, e.nowMs);
    NextFollowsMap(p, Load(d, e.nowMs), e.command);
  }

  /** Staged partitions follow the slot map: then on every run no execution of an
      accepted request fails, and preparing a staged candidate never fails. */
  lemma {:induction false} RenderNeverFails(p: Platform, d: Disk, events: seq<Event>, r: Request, nowMs: int)
    requires SlotsUsable(p) && MapInv(p, d) && r.generation >= 1
    requires forall i :: 0 <= i < |events| ==> StagesByMap(p, events[i])
    ensures var d' := Run(p, d, events);
            MapInv(p, d') && PlanOf(p, d', ExecuteOnce(Some(r)), nowMs).error.None? &&
            (Load(d', nowMs).phase == CandidateStaged ==> PlanOf(p, d', PrepareTryboot(true), nowMs).error.None?)
    decreases |events|
  {
    if events == [] {
      ExecutionSucceeds(p, d, r, nowMs);
      PrepareSucceeds(p, d, nowMs);
    } else {
      MapStep(p, d, events[0]);
      RenderNeverFails(p, After(p, d, events[0]), events[1..], r, nowMs);
    }
  }

  lemma ExecutionSucceeds(p: Platform, d: Disk, r: Request, nowMs: int)
    requires SlotsUsable(p) && MapInv(p, d) && r.generation >= 1
    ensures PlanOf(p, d, ExecuteOnce(Some(r)), nowMs).error.None?
  {
    hide AutobootText, Strip;
    LoadInv(d, nowMs);
    CommitSucceedsIff(p, ExecutorBoot(d, r, nowMs));
  }

  lemma PrepareSucceeds(p: Platform, d: Disk, nowMs: int)
    requires SlotsUsable(p) && MapInv(p, d)
    ensures Load(d, nowMs).phase == CandidateStaged ==> PlanOf(p, d, PrepareTryboot(true), nowMs).error.None?
  {
    hide AutobootText, Strip;
    LoadInv(d, nowMs);
  }

  /** The executor's request is due: new, the cooldown is over, and the boot state loads. */
  predicate Due(d: Disk, p: Platform, r: Request, nowMs: int) {
    Loadable(d) && r.generation >= 1 && r.generation > LastReceipt(d).generation &&
    !CoolingDown(p, LastReceipt(d), nowMs)
  }

  /** A due request whose commit can be rendered: the autoboot file and the receipt it
      leaves when nothing interrupts it. */
  lemma ExecuteEffect(p: Platform, d: Disk, r: Request, nowMs: int)
    requires Due(d, p, r, nowMs) && CommitKnownGood(p, ExecutorBoot(d, r, nowMs)).error.None?
    ensures var plan := PlanOf(p, d, ExecuteOnce(Some(r)), nowMs);
            var commit := CommitKnownGood(p, ExecutorBoot(d, r, nowMs));
            plan.error.None? && plan.writes != [] && |commit.writes| == 1 && commit.writes[0].WriteAutoboot? &&
            ApplyAll(d, plan.writes).autoboot == Some(commit.writes[0].autoboot) &&
            ApplyAll(d, plan.writes).receipt == Some(Receipt(r.generation, nowMs))
  {
    hide Render, Strip;
    ExecuteUnfold(p, d, r, nowMs);
    var boot := ExecutorBoot(d, r, nowMs);
    var w, receipt := CommitKnownGood(p, boot).writes[0], WriteReceipt(Receipt(r.generation, nowMs));
    var tail := [w, receipt];
    var writes := PlanOf(p, d, ExecuteOnce(Some(r)), nowMs).writes;
    if r.action == RollbackRebootKnownGood {
      assert writes == [SaveBoot(boot), w, receipt] && writes[1..] == tail;
      ApplyTwo(Apply(d, SaveBoot(boot)), w, receipt);
    } else {
      assert writes == tail;
      ApplyTwo(d, w, receipt);
    }
  }

  lemma ApplyTwo(d: Disk, v: Write, w: Write)
    ensures ApplyAll(d, [v, w]) == Apply(Apply(d, v), w)
  {
    assert [v, w][1..] == [w] && [w][1..] == [];
    assert ApplyAll(d, [v, w]) == ApplyAll(Apply(d, v), [w]);
    assert ApplyAll(Apply(d, v), [w]) == ApplyAll(Apply(Apply(d, v), w), []);
  }

  lemma InterruptedKeeps(p: Platform, d: Disk, r: Request, t1: int, power: nat)
    requires Due(d, p, r, t1) && CommitKnownGood(p, ExecutorBoot(d, r, t1)).error.None?
    requires power < |PlanOf(p, d, ExecuteOnce(Some(r)), t1).writes|
    ensures var interrupted := Execute(p, d, ExecuteOnce(Some(r)), t1, power);
            interrupted.receipt == d.receipt && KnownGood(interrupted) == KnownGood(d) && Loadable(interrupted)
  {
    hide Render, Strip;
    var e := Event(ExecuteOnce(Some(r)), t1, power);
    EventReceipt(p, d, e);
    BootAfter(p, d, e);
    ExecuteUnfold(p, d, r, t1);
  }

  /** Power lost before the receipt, and the same request run again: the autoboot file
      ends as an uninterrupted first run would have left it, and the receipt is written. */
  lemma RerunSameAutoboot(p: Platform, d: Disk, r: Request, t1: int, t2: int, power: nat)
    requires Due(d, p, r, t1) && PlanOf(p, d, ExecuteOnce(Some(r)), t1).error.None?
    requires power < |PlanOf(p, d, ExecuteOnce(Some(r)), t1).writes|
    requires !CoolingDown(p, LastReceipt(d), t2)
    ensures var c := ExecuteOnce(Some(r));
            var interrupted := Execute(p, d, c, t1, power);
            var plan := PlanOf(p, interrupted, c, t2);
            plan.error.None? && plan.writes != [] &&
            ApplyAll(interrupted, plan.writes).autoboot == ApplyAll(d, PlanOf(p, d, c, t1).writes).autoboot &&
            ApplyAll(interrupted, plan.writes).receipt == Some(Receipt(r.generation, t2))
  {
    hide Render, Strip;
    ExecuteUnfold(p, d, r, t1);
    ExecuteEffect(p, d, r, t1);
    InterruptedKeeps(p, d, r, t1, power);
    var interrupted := Execute(p, d, ExecuteOnce(Some(r)), t1, power);
    CommitDependsOnKnownGood(p, ExecutorBoot(d, r, t1), ExecutorBoot(interrupted, r, t2));
    ExecuteEffect(p, interrupted, r, t2);
  }

  lemma CommitDependsOnKnownGood(p: Platform, a: BootState, b: BootState)
    requires a.knownGoodSlot == b.knownGoodSlot && a.knownGoodPartition == b.knownGoodPartition
    ensures CommitKnownGood(p, a) == CommitKnownGood(p, b)
  {
  }

  lemma ExecuteUnfold(p: Platform, d: Disk, r: Request, nowMs: int)
    requires Due(d, p, r, nowMs)
    ensures var plan := PlanOf(p, d, ExecuteOnce(Some(r)), nowMs);
            var boot := ExecutorBoot(d, r, nowMs);
            var commit := CommitKnownGood(p, boot);
            plan.error == commit.error &&
            (commit.error.None? ==>
              plan.writes ==
              (if r.action == RollbackRebootKnownGood then [SaveBoot(boot)] else []) +
              commit.writes + [WriteReceipt(Receipt(r.generation, nowMs))])
  {
    hide Render, Strip;
  }

  // ------------------------------------------------------------ autoboot text

  /** Digits followed by a newline can be read back from the front of a text. */
  lemma {:induction false} SameAfterDigits(a: string, b: string, x: string, y: string)
    requires AllDigits(a) && AllDigits(b) && a + "\n" + x == b + "\n" + y
    ensures a == b && x == y
  {
    var s := a + "\n" + x;
    if a == [] || b == [] {
      DigitsEnd(a, x);
      DigitsEnd(b, y);
      assert x == s[1..] && y == s[1..];
    } else {
      assert s[0] == a[0] && s[0] == b[0];
      assert a[1..] + "\n" + x == s[1..];
      assert b[1..] + "\n" + y == s[1..];
      SameAfterDigits(a[1..], b[1..], x, y);
    }
  }

  lemma DigitsEnd(a: string, x: string)
    requires AllDigits(a)
    ensures (a + "\n" + x)[0] == '\n' <==> a == []
  {
  }

  const AUTOBOOT_HEAD := "[all]\n" + "tryboot_a_b=1\n" + "boot_partition="
  const AUTOBOOT_MID := "[tryboot]\n" + "boot_partition="

  lemma AutobootParts(d: int, t: int)
    ensures AutobootText(d, t) == AUTOBOOT_HEAD + (Integer(d) + "\n" + (AUTOBOOT_MID + (Integer(t) + "\n" + "")))
  {
  }

  lemma {:induction false} DropCommon(head: string, x: string, y: string)
    requires head + x == head + y
    ensures x == y
  {
    assert (head + x)[|head|..] == x && (head + y)[|head|..] == y;
  }

  /** The text of the boot file determines both partitions. */
  lemma AutobootTextDetermines(d: int, t: int, d': int, t': int)
    requires Render(d, t).Ok? && Render(d, t) == Render(d', t')
    ensures d == d' && t == t'
  {
    hide AutobootText, Integer;
    AutobootParts(d, t);
    AutobootParts(d', t');
    var x, y := Integer(t) + "\n" + "", Integer(t') + "\n" + "";
    DropCommon(AUTOBOOT_HEAD, Integer(d) + "\n" + (AUTOBOOT_MID + x), Integer(d') + "\n" + (AUTOBOOT_MID + y));
    PositiveIsDigits(d);
    PositiveIsDigits(d');
    SameAfterDigits(Integer(d), Integer(d'), AUTOBOOT_MID + x, AUTOBOOT_MID + y);
    DropCommon(AUTOBOOT_MID, x, y);
    PositiveIsDigits(t);
    PositiveIsDigits(t');
    SameAfterDigits(Integer(t), Integer(t'), "", "");
    IntegerInjective(d, d');
    IntegerInjective(t, t');
  }

  lemma PositiveIsDigits(n: int)
    requires n >= 1
    ensures AllDigits(Integer(n))
  {
  }
}
