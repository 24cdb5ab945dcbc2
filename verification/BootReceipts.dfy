/** Receipts of executors that interleave
    (edge/pi-resilience/recovery_executor.py:97-126). */
module BootReceipts {
  import opened Collections
  import opened BootSpec
  import opened BootInterleaving
  import BootSafety

  /** Past the generation and cooldown tests, with the receipt yet to be written. */
  predicate Executing(q: Process) {
    q.Admitted? || q.RollingBack? || q.Committing? || q.Receipting?
  }

  /** The receipt the process will write if it gets there. */
  function Pending(q: Process): Receipt
    requires Executing(q)
  {
    Receipt(q.request.generation, q.at)
  }

  predicate OneExecutor(s: System) {
    forall i, j :: i in s.processes && j in s.processes && Executing(s.processes[i]) && Executing(s.processes[j]) ==>
      i == j
  }

  /** At no moment of the run are two executors past their tests. */
  predicate NeverTwo(p: Platform, s: System, steps: seq<Step>)
    decreases |steps|
  {
    OneExecutor(s) && (steps == [] || NeverTwo(p, After(p, s, steps[0]), steps[1..]))
  }

  /** The receipt that one step writes. */
  function ReceiptBy(s: System, step: Step): seq<Receipt> {
    if step.Advancing? && step.pid in s.processes && s.processes[step.pid].Receipting?
    then [Pending(s.processes[step.pid])] else []
  }

  function Receipts(p: Platform, s: System, steps: seq<Step>): seq<Receipt>
    decreases |steps|
  {
    if steps == [] then [] else ReceiptBy(s, steps[0]) + Receipts(p, After(p, s, steps[0]), steps[1..])
  }

  /** Every receipt on its way may follow the last one written. */
  predicate AllDue(p: Platform, s: System) {
    forall pid :: pid in s.processes && Executing(s.processes[pid]) ==>
      BootSafety.MayFollow(p, LastReceipt(s.disk), Pending(s.processes[pid]))
  }

  lemma SaveKeepsReceipt(d: Disk, b: BootState, nowMs: int, next: Process)
    ensures var (d', q') := SaveStep(d, b, nowMs, next); d'.receipt == d.receipt && (q' == next || q' == Finished)
  {
  }

  lemma WriteKeepsReceipt(d: Disk, defaultPartition: int, tryPartition: int, next: Process)
    ensures var (d', q') := WriteStep(d, defaultPartition, tryPartition, next);
            d'.receipt == d.receipt && (q' == next || q' == Finished)
  {
    hide Render;
  }

  /** One access writes a receipt only as its process's last; a process that is admitted
      by it may follow the receipt it read, and one admitted before keeps its receipt. */
  lemma AdvanceReceipt(p: Platform, d: Disk, q: Process, nowMs: int)
    ensures var (d', q') := Advance(p, d, q, nowMs);
            (d'.receipt == if q.Receipting? then Some(Pending(q)) else d.receipt) &&
            (q.Receipting? ==> !Executing(q')) &&
            (Executing(q') ==>
              if Executing(q) then Pending(q') == Pending(q)
              else BootSafety.MayFollow(p, LastReceipt(d), Pending(q')))
  {
    hide Render, Strip, SaveStep, WriteStep;
    match q
    case Loaded(c, b) => ComputedReceipt(d, c, b, nowMs);
    case AcceptLoaded(_, _, _, _, _) => AcceptReceipt(d, q, nowMs);
    case AcceptSaved(before, saved) =>
      WriteKeepsReceipt(d, saved.knownGoodPartition, before.knownGoodPartition, Finished);
    case Preparing(b) => WriteKeepsReceipt(d, b.knownGoodPartition, b.candidatePartition.GetOr(0), Finished);
    case RollingBack(r, at, b) =>
      var failed := ReportFailure(b, FailureReason(r));
      SaveKeepsReceipt(d, failed, nowMs, Committing(r, at, Saved(failed, nowMs)));
    case Committing(r, at, boot) =>
      var alternate := OtherPartition(boot.knownGoodSlot, p.slotA, p.slotB);
      if alternate.Ok? { WriteKeepsReceipt(d, boot.knownGoodPartition, alternate.value, Receipting(r, at)); }
    case _ =>
  }

  lemma ComputedReceipt(d: Disk, c: Command, b: BootState, nowMs: int)
    ensures var (d', q') := SaveComputed(d, c, b, nowMs); d'.receipt == d.receipt && !Executing(q')
  {
    hide Strip;
  }

  lemma AcceptReceipt(d: Disk, q: Process, nowMs: int)
    requires q.AcceptLoaded?
    ensures var (d', q') := Accept(d, q, nowMs); d'.receipt == d.receipt && !Executing(q')
  {
    hide Strip;
  }

  lemma StepKeepsDue(p: Platform, s: System, step: Step)
    requires OneExecutor(s) && AllDue(p, s)
    ensures AllDue(p, After(p, s, step))
    ensures var written := ReceiptBy(s, step);
            |written| <= 1 && (written == [] ==> After(p, s, step).disk.receipt == s.disk.receipt) &&
            (written != [] ==>
              After(p, s, step).disk.receipt == Some(written[0]) &&
              BootSafety.MayFollow(p, LastReceipt(s.disk), written[0]))
  {
    hide Advance, BootSafety.MayFollow;
    if step.Advancing? && step.pid in s.processes {
      AdvanceReceipt(p, s.disk, s.processes[step.pid], step.nowMs);
    }
  }

  /** While no two executors are past their tests at once, receipts are written as when
      one command runs after the other: generations strictly increase, and a receipt not
      stamped zero is followed no sooner than the cooldown. Guard commands may interleave
      and power may be lost anywhere. */
  lemma {:induction false} InterleavedReceiptsChained(p: Platform, s: System, steps: seq<Step>)
    requires AllDue(p, s) && NeverTwo(p, s, steps)
    ensures BootSafety.Chained(p, LastReceipt(s.disk), Receipts(p, s, steps))
    decreases |steps|
  {
    hide After, AllDue, OneExecutor, BootSafety.MayFollow, ReceiptBy;
    if steps != [] {
      var next, written := After(p, s, steps[0]), ReceiptBy(s, steps[0]);
      StepKeepsDue(p, s, steps[0]);
      InterleavedReceiptsChained(p, next, steps[1..]);
      if written != [] {
        assert written == [written[0]];
      } else {
        assert [] + Receipts(p, next, steps[1..]) == Receipts(p, next, steps[1..]);
      }
    }
  }

  /** From a disk with no process running: one receipt per generation. */
  lemma GenerationsIncrease(p: Platform, d: Disk, steps: seq<Step>, i: nat, j: nat)
    requires NeverTwo(p, System(d, map[], {}), steps)
    requires i < j < |Receipts(p, System(d, map[], {}), steps)|
    ensures var rs := Receipts(p, System(d, map[], {}), steps);
            LastReceipt(d).generation < rs[i].generation < rs[j].generation
  {
    hide Receipts, NeverTwo;
    var s := System(d, map[], {});
    InterleavedReceiptsChained(p, s, steps);
    var rs := Receipts(p, s, steps);
    BootSafety.GenerationsIncrease(p, LastReceipt(d), rs, i, j);
    AboveFirst(p, LastReceipt(d), rs, i);
  }

  lemma AboveFirst(p: Platform, last: Receipt, rs: seq<Receipt>, i: nat)
    requires BootSafety.Chained(p, last, rs) && i < |rs|
    ensures last.generation < rs[i].generation
  {
    if i > 0 { BootSafety.GenerationsIncrease(p, last, rs, 0, i); }
  }

  // --------------------------------------------------------- two executors at once

  function Two(d: Disk, a: Process, b: Process): System {
    System(d, map[0 := a, 1 := b], {})
  }

  /** A step of either of two processes, in a run that goes on with `rest`. */
  lemma TwoStep(p: Platform, d: Disk, a: Process, b: Process, nowMs: int, rest: seq<Step>)
    requires !a.AcceptLoaded? && !b.AcceptLoaded?
    ensures var (d', a') := Advance(p, d, a, nowMs);
            Receipts(p, Two(d, a, b), [Advancing(0, nowMs)] + rest) ==
            (if a.Receipting? then [Pending(a)] else []) + Receipts(p, Two(d', a', b), rest)
    ensures var (d', b') := Advance(p, d, b, nowMs);
            Receipts(p, Two(d, a, b), [Advancing(1, nowMs)] + rest) ==
            (if b.Receipting? then [Pending(b)] else []) + Receipts(p, Two(d', a, b'), rest)
  {
    hide Advance;
    var s := Two(d, a, b);
    var (d0, a') := Advance(p, d, a, nowMs);
    var (d1, b') := Advance(p, d, b, nowMs);
    assert map[0 := a, 1 := b][0 := a'] == map[0 := a', 1 := b];
    assert map[0 := a, 1 := b][1 := b'] == map[0 := a, 1 := b'];
    RunStep(p, s, Advancing(0, nowMs), rest);
    RunStep(p, s, Advancing(1, nowMs), rest);
    assert After(p, s, Advancing(0, nowMs)) == Two(d0, a', b);
    assert After(p, s, Advancing(1, nowMs)) == Two(d1, a, b');
  }

  lemma RunStep(p: Platform, s: System, step: Step, rest: seq<Step>)
    ensures Receipts(p, s, [step] + rest) == ReceiptBy(s, step) + Receipts(p, After(p, s, step), rest)
    ensures Receipts(p, s, []) == []
  {
    assert ([step] + rest)[1..] == rest;
  }

  lemma TwoSpawned(p: Platform, d: Disk, c: Command, rest: seq<Step>)
    ensures Receipts(p, System(d, map[], {}), [Spawn(0, c)] + ([Spawn(1, c)] + rest)) ==
            Receipts(p, Two(d, Starting(c), Starting(c)), rest)
  {
    var s := System(d, map[], {});
    var s' := After(p, s, Spawn(0, c));
    RunStep(p, s, Spawn(0, c), [Spawn(1, c)] + rest);
    RunStep(p, s', Spawn(1, c), rest);
    assert After(p, s', Spawn(1, c)) == Two(d, Starting(c), Starting(c));
    var rs := Receipts(p, Two(d, Starting(c), Starting(c)), rest);
    assert [] + rs == rs;
  }

  /** The accesses of one executor that is asked to reboot. */
  lemma RebootAccesses(p: Platform, d: Disk, generation: int, nowMs: int)
    requires Loadable(d) && CommitKnownGood(p, Load(d, nowMs)).error.None?
    ensures var r := Request(RebootKnownGood, generation, None);
            var boot := Load(d, nowMs);
            Advance(p, d, Admitted(r, nowMs), nowMs) == (d, Committing(r, nowMs, boot)) &&
            var (d', q') := Advance(p, d, Committing(r, nowMs, boot), nowMs);
            q' == Receipting(r, nowMs) && d'.boot == d.boot && d'.receipt == d.receipt
    ensures generation >= 1 && generation > LastReceipt(d).generation && !CoolingDown(p, LastReceipt(d), nowMs) ==>
            Advance(p, d, Starting(BootSafety.RebootRequest(generation)), nowMs) ==
            (d, Admitted(Request(RebootKnownGood, generation, None), nowMs))
  {
    hide Strip, Render;
  }

  /** From both admitted on. */
  lemma BothReceipt(p: Platform, d: Disk, generation: int, nowMs: int) returns (steps: seq<Step>)
    requires Loadable(d) && CommitKnownGood(p, Load(d, nowMs)).error.None?
    ensures var q := Admitted(Request(RebootKnownGood, generation, None), nowMs);
            Receipts(p, Two(d, q, q), steps) == [Receipt(generation, nowMs), Receipt(generation, nowMs)]
  {
    hide Advance, Receipts, CommitKnownGood, Load, Loadable;
    var go0, go1 := Advancing(0, nowMs), Advancing(1, nowMs);
    steps := [go0] + ([go0] + ([go1] + ([go1] + ([go0] + ([go1] + [])))));
    var r := Request(RebootKnownGood, generation, None);
    var admitted, receipting := Admitted(r, nowMs), Receipting(r, nowMs);
    var committing := Committing(r, nowMs, Load(d, nowMs));
    RebootAccesses(p, d, generation, nowMs);
    TwoStep(p, d, admitted, admitted, nowMs, [go0] + ([go1] + ([go1] + ([go0] + ([go1] + [])))));
    TwoStep(p, d, committing, admitted, nowMs, [go1] + ([go1] + ([go0] + ([go1] + []))));
    var d1 := Advance(p, d, committing, nowMs).0;
    SameBoot(p, d, d1, nowMs);
    RebootAccesses(p, d1, generation, nowMs);
    TwoStep(p, d1, receipting, admitted, nowMs, [go1] + ([go0] + ([go1] + [])));
    TwoStep(p, d1, receipting, committing, nowMs, [go0] + ([go1] + []));
    var d2 := Advance(p, d1, committing, nowMs).0;
    TwoStep(p, d2, receipting, receipting, nowMs, [go1] + []);
    var (d3, finished) := Advance(p, d2, receipting, nowMs);
    ReceiptIsLast(p, d2, r, nowMs);
    TwoStep(p, d3, finished, receipting, nowMs, []);
    RunStep(p, Two(Advance(p, d3, receipting, nowMs).0, finished, Advance(p, d3, receipting, nowMs).1), go0, []);
  }

  lemma SameBoot(p: Platform, d: Disk, d': Disk, nowMs: int)
    requires d'.boot == d.boot
    ensures Load(d', nowMs) == Load(d, nowMs) && Loadable(d') == Loadable(d)
  {
  }

  lemma ReceiptIsLast(p: Platform, d: Disk, r: Request, nowMs: int)
    ensures Advance(p, d, Receipting(r, nowMs), nowMs).1 == Finished
  {
  }

  /** Why one at a time: whenever a reboot request is due, two processes can both pass the
      tests before either writes, and its generation is receipted twice. */
  lemma TwoExecutorsReceiptTwice(p: Platform, d: Disk, generation: int, nowMs: int) returns (steps: seq<Step>)
    requires generation >= 1 && generation > LastReceipt(d).generation && !CoolingDown(p, LastReceipt(d), nowMs)
    requires Loadable(d) && CommitKnownGood(p, Load(d, nowMs)).error.None?
    ensures Receipts(p, System(d, map[], {}), steps) == [Receipt(generation, nowMs), Receipt(generation, nowMs)]
  {
    hide Advance, Receipts, CommitKnownGood, Load, Loadable;
    var c := BootSafety.RebootRequest(generation);
    var admitted := Admitted(Request(RebootKnownGood, generation, None), nowMs);
    RebootAccesses(p, d, generation, nowMs);
    var rest := BothReceipt(p, d, generation, nowMs);
    var go0, go1 := Advancing(0, nowMs), Advancing(1, nowMs);
    TwoStep(p, d, Starting(c), Starting(c), nowMs, [go1] + rest);
    TwoStep(p, d, admitted, Starting(c), nowMs, rest);
    TwoSpawned(p, d, c, [go0] + ([go1] + rest));
    steps := [Spawn(0, c)] + ([Spawn(1, c)] + ([go0] + ([go1] + rest)));
  }
}
