/** What every run of the history store keeps
    (edge/pi-storage/storage_runtime.py:123-211). */
module RingStoreSafety {
  import opened Collections
  import opened LineRepair
  import opened StoragePlans
  import opened RingStoreSpec

  /** The complete object lines on disk, oldest segment first. */
  function AllLines(cfg: Config, files: Files): seq<Bytes> {
    if files == [] then []
    else KeptLines(files[0].data, cfg.objects) + AllLines(cfg, files[1..])
  }

  function Contents(files: Files): Bytes {
    if files == [] then [] else files[0].data + Contents(files[1..])
  }

  predicate AllClean(cfg: Config, files: Files) {
    forall seg :: seg in files ==> Clean(seg.data, cfg.objects)
  }

  predicate CurrentIsLast(s: State) {
    s.current.Some? ==> s.files != [] && s.files[|s.files| - 1].name == s.current.value
  }

  predicate WellFormed(cfg: Config, s: State) {
    Ordered(s.files) && CurrentIsLast(s) &&
    (s.recoveryChecked ==> AllClean(cfg, s.files)) &&
    (s.current.Some? ==> s.recoveryChecked)
  }

  /** The run invariant: what is retained is a suffix of `log`, everything that
      was ever completely written. */
  predicate Inv(cfg: Config, s: State, log: seq<Bytes>) {
    WellFormed(cfg, s) && IsSuffix(AllLines(cfg, s.files), log)
  }

  /** The clock assumption: the next segment sorts after every existing one. */
  predicate NamesIncrease(s: State, now: nat) {
    forall i :: 0 <= i < |s.files| ==> Before(s.files[i].name, NextName(s, now))
  }

  /** The same where it matters: a record about to open a segment, whose name is not
      taken already (that append fails), gets the newest name. */
  predicate FreshNameNewest(cfg: Config, s: State, incoming: nat, now: nat) {
    NeedsNewSegment(cfg, s, incoming) && !Exists(s.files, NextName(s, now)) ==> NamesIncrease(s, now)
  }

  /** What an append asks of the clock: nothing, unless after repair and pruning it has
      to open a segment. */
  predicate AppendInOrder(cfg: Config, s: State, text: Bytes, disk: Disk, now: nat) {
    var room := EnsureCapacity(cfg, RepairAll(cfg, s).0, |text| + 1, disk);
    |text| + 1 <= cfg.maxRecordBytes && room.result.Ok? ==> FreshNameNewest(cfg, room.state, |text| + 1, now)
  }

  // -------------------------------------------------- lines and directories

  lemma {:induction false} AllLinesConcat(cfg: Config, a: Files, b: Files)
    ensures AllLines(cfg, a + b) == AllLines(cfg, a) + AllLines(cfg, b)
  {
    hide KeptLines, ComputeStoragePlan;
    if a == [] {
      assert a + b == b;
    } else {
      assert (a + b)[1..] == a[1..] + b;
      AllLinesConcat(cfg, a[1..], b);
    }
  }

  lemma {:induction false} CleanContents(cfg: Config, files: Files)
    requires AllClean(cfg, files)
    ensures Contents(files) == Flatten(AllLines(cfg, files))
  {
    if files != [] {
      assert files[0] in files;
      assert AllClean(cfg, files[1..]) by {
        forall seg | seg in files[1..] ensures Clean(seg.data, cfg.objects) { assert seg in files; }
      }
      CleanContents(cfg, files[1..]);
      FlattenConcat(KeptLines(files[0].data, cfg.objects), AllLines(cfg, files[1..]));
    }
  }

  lemma AllLinesUpdate(cfg: Config, files: Files, i: nat, seg: Segment)
    requires i < |files|
    requires KeptLines(seg.data, cfg.objects) == KeptLines(files[i].data, cfg.objects)
    ensures AllLines(cfg, files[i := seg]) == AllLines(cfg, files)
  {
    hide KeptLines, ComputeStoragePlan;
    assert files == files[..i] + ([files[i]] + files[i + 1..]);
    assert files[i := seg] == files[..i] + ([seg] + files[i + 1..]);
    AllLinesConcat(cfg, files[..i], [files[i]] + files[i + 1..]);
    AllLinesConcat(cfg, files[..i], [seg] + files[i + 1..]);
    assert ([files[i]] + files[i + 1..])[1..] == ([seg] + files[i + 1..])[1..];
  }

  lemma AllLinesSnoc(cfg: Config, files: Files, seg: Segment)
    ensures AllLines(cfg, files + [seg]) == AllLines(cfg, files) + KeptLines(seg.data, cfg.objects)
  {
    hide KeptLines, ComputeStoragePlan;
    AllLinesConcat(cfg, files, [seg]);
    assert AllLines(cfg, [seg]) == KeptLines(seg.data, cfg.objects) + AllLines(cfg, []);
  }

  // ---------------------------------------------------------------- repair

  lemma InvReopen(cfg: Config, s: State, log: seq<Bytes>)
    requires Inv(cfg, s, log)
    ensures Inv(cfg, Reopen(s.files), log)
  {
  }

  predicate SameNames(a: Files, b: Files) {
    |a| == |b| && forall j :: 0 <= j < |a| ==> a[j].name == b[j].name
  }

  predicate CleanUpTo(cfg: Config, files: Files, i: nat) {
    i <= |files| && forall j :: 0 <= j < i ==> Clean(files[j].data, cfg.objects)
  }

  /** What repair, however far it gets, may do to the store. */
  predicate RepairedFrom(cfg: Config, s: State, s': State, log: seq<Bytes>) {
    Inv(cfg, s', log) && AllLines(cfg, s'.files) == AllLines(cfg, s.files) &&
    SameNames(s.files, s'.files) && s'.current == s.current && s'.counter == s.counter
  }

  predicate ImagesSafe(cfg: Config, images: seq<Files>, log: seq<Bytes>) {
    forall k :: 0 <= k < |images| ==> Inv(cfg, Reopen(images[k]), log)
  }

  lemma RepairOneFile(cfg: Config, s: State, i: nat, log: seq<Bytes>) returns (s': State)
    requires CleanUpTo(cfg, s.files, i) && i < |s.files| && !s.recoveryChecked && Inv(cfg, s, log)
    ensures var data := s.files[i].data;
            var kept := Repaired(data, cfg.objects);
            |kept| <= |data| && (|kept| == |data| ==> kept == data) &&
            s' == s.(files := s.files[i := s.files[i].(data := kept)],
                     recoveredSegments := s.recoveredSegments + 1,
                     discardedPartialBytes := s.discardedPartialBytes + (|data| - |kept|))
    ensures RepairedFrom(cfg, s, s', log) && CleanUpTo(cfg, s'.files, i + 1) && !s'.recoveryChecked
  {
    var data := s.files[i].data;
    var kept := Repaired(data, cfg.objects);
    KeptAreLines(data, cfg.objects);
    RepairIdempotent(data, cfg.objects);
    var seg := s.files[i].(data := kept);
    AllLinesUpdate(cfg, s.files, i, seg);
    s' := s.(files := s.files[i := seg],
             recoveredSegments := s.recoveredSegments + 1,
             discardedPartialBytes := s.discardedPartialBytes + (|data| - |kept|));
    SameNamesOrdered(s.files, s'.files);
  }

  lemma SameNamesOrdered(a: Files, b: Files)
    requires SameNames(a, b) && Ordered(a)
    ensures Ordered(b)
  {
  }

  lemma AllCleanNow(cfg: Config, s: State, log: seq<Bytes>)
    requires Inv(cfg, s, log) && CleanUpTo(cfg, s.files, |s.files|)
    ensures Inv(cfg, s.(recoveryChecked := true), log)
  {
  }

  lemma RepairFromUnfold(cfg: Config, s: State, s': State, i: nat)
    requires i < |s.files| && |Repaired(s.files[i].data, cfg.objects)| <= |s.files[i].data|
    requires var data := s.files[i].data;
             var kept := Repaired(data, cfg.objects);
             s' == s.(files := s.files[i := s.files[i].(data := kept)],
                      recoveredSegments := s.recoveredSegments + 1,
                      discardedPartialBytes := s.discardedPartialBytes + (|data| - |kept|))
    ensures |Repaired(s.files[i].data, cfg.objects)| == |s.files[i].data| ==>
      RepairFrom(cfg, s, i) == RepairFrom(cfg, s, i + 1)
    ensures |Repaired(s.files[i].data, cfg.objects)| < |s.files[i].data| ==>
      RepairFrom(cfg, s, i).0 == RepairFrom(cfg, s', i + 1).0 &&
      RepairFrom(cfg, s, i).1 == [s'.files] + RepairFrom(cfg, s', i + 1).1
  {
  }

  lemma RepairedTransitive(cfg: Config, s: State, s': State, s'': State, log: seq<Bytes>)
    requires RepairedFrom(cfg, s, s', log) && RepairedFrom(cfg, s', s'', log)
    ensures RepairedFrom(cfg, s, s'', log)
  {
  }

  lemma ImagesSafeCons(cfg: Config, files: Files, images: seq<Files>, log: seq<Bytes>)
    requires Inv(cfg, Reopen(files), log) && ImagesSafe(cfg, images, log)
    ensures ImagesSafe(cfg, [files] + images, log)
  {
  }

  /** Repair, wherever it is interrupted, leaves the complete lines alone; when it
      finishes every file consists of complete object lines only. */
  lemma {:induction false} RepairFromSafe(cfg: Config, s: State, i: nat, log: seq<Bytes>)
    returns (r: (State, seq<Files>))
    requires CleanUpTo(cfg, s.files, i) && !s.recoveryChecked && Inv(cfg, s, log)
    ensures r == RepairFrom(cfg, s, i)
    ensures RepairedFrom(cfg, s, r.0, log) && r.0.recoveryChecked
    ensures ImagesSafe(cfg, r.1, log)
    decreases |s.files| - i
  {
    if i < |s.files| {
      var s' := RepairOneFile(cfg, s, i, log);
      RepairFromUnfold(cfg, s, s', i);
      if |Repaired(s.files[i].data, cfg.objects)| == |s.files[i].data| {
        r := RepairFromSafe(cfg, s, i + 1, log);
      } else {
        InvReopen(cfg, s', log);
        var rest := RepairFromSafe(cfg, s', i + 1, log);
        RepairedTransitive(cfg, s, s', rest.0, log);
        ImagesSafeCons(cfg, s'.files, rest.1, log);
        r := (rest.0, [s'.files] + rest.1);
      }
    } else {
      AllCleanNow(cfg, s, log);
      r := RepairFrom(cfg, s, i);
    }
  }

  lemma RepairAllSafe(cfg: Config, s: State, log: seq<Bytes>) returns (s': State, images: seq<Files>)
    requires Inv(cfg, s, log)
    ensures (s', images) == RepairAll(cfg, s)
    ensures RepairedFrom(cfg, s, s', log) && s'.recoveryChecked
    ensures ImagesSafe(cfg, images, log)
  {
    if s.recoveryChecked {
      s', images := s, [];
    } else {
      var r := RepairFromSafe(cfg, s, 0, log);
      s', images := r.0, r.1;
    }
  }

  // -------------------------------------------------------------- capacity

  lemma {:induction false} WithoutAbsent(files: Files, name: Name)
    requires !Exists(files, name)
    ensures Without(files, name) == files
  {
    if files != [] {
      assert files[0].name != name;
      forall i | 0 <= i < |files[1..]| ensures files[1..][i].name != name { assert files[i + 1].name != name; }
      WithoutAbsent(files[1..], name);
    }
  }

  lemma OrderedTail(files: Files)
    requires files != [] && Ordered(files)
    ensures Ordered(files[1..]) && !Exists(files[1..], files[0].name)
  {
    forall i, j | 0 <= i < j < |files[1..]| ensures Before(files[1..][i].name, files[1..][j].name) {
      assert Before(files[i + 1].name, files[j + 1].name);
    }
    forall i | 0 <= i < |files[1..]| ensures files[1..][i].name != files[0].name {
      assert Before(files[0].name, files[i + 1].name);
    }
  }

  /** In an ordered directory whose newest segment is the one being written, the
      victim is the oldest segment. */
  lemma VictimIsOldest(s: State)
    requires Ordered(s.files) && CurrentIsLast(s)
    ensures s.files == [] ==> Victim(s.files, s.current).None?
    ensures s.files != [] ==> Victim(s.files, s.current) == Some(s.files[0].name)
    ensures s.files != [] ==>
      PruneOne(s, s.files[0].name) == DropOldest(s, 1) &&
      Ordered(DropOldest(s, 1).files) && CurrentIsLast(DropOldest(s, 1))
  {
    if s.files != [] {
      OrderedTail(s.files);
      WithoutAbsent(s.files[1..], s.files[0].name);
      if s.current.Some? && |s.files| > 1 {
        assert Before(s.files[0].name, s.files[|s.files| - 1].name);
        assert Without(s.files, s.current.value)[0] == s.files[0];
      }
    }
  }

  /** The store after its `n` oldest segments are gone. */
  function DropOldest(s: State, n: nat): State
    requires n <= |s.files|
  {
    s.(files := s.files[n..], pruned := s.pruned + n,
       current := if n == |s.files| then None else s.current)
  }

  /** With the `dropped` oldest segments gone there is room for the record. */
  predicate RoomAfterDropping(cfg: Config, files: Files, dropped: nat, incoming: nat, disk: Disk)
    requires dropped <= |files|
  {
    var plan := PlanFor(cfg, files[dropped..], disk);
    plan.Ok? && HasRoom(plan.value, UsageBytes(files[dropped..]), incoming)
  }

  lemma PruneUnfold(cfg: Config, s: State, incoming: nat, disk: Disk)
    requires Ordered(s.files) && CurrentIsLast(s)
    ensures var o := EnsureCapacity(cfg, s, incoming, disk);
            var plan := PlanFor(cfg, s.files, disk);
            if plan.Err? then o == Outcome(s, [], Err(plan.error))
            else if HasRoom(plan.value, UsageBytes(s.files), incoming) then o == Outcome(s, [], Ok(plan.value))
            else if s.files == [] then o == Outcome(s, [], Err(CapacityReserved))
            else
              var s' := DropOldest(s, 1);
              var rest := EnsureCapacity(cfg, s', incoming, disk);
              Ordered(s'.files) && CurrentIsLast(s') && PlanFor(cfg, s'.files, disk).Ok? &&
              o == Outcome(rest.state, [s'.files] + rest.images, rest.result)
  {
    VictimIsOldest(s);
  }

  /** The directory contents pruning passes through: one oldest segment less each time. */
  predicate DroppingImages(files: Files, images: seq<Files>) {
    |images| <= |files| && forall k :: 0 <= k < |images| ==> images[k] == files[k + 1..]
  }

  predicate FewestDropped(cfg: Config, files: Files, dropped: nat, incoming: nat, disk: Disk) {
    dropped <= |files| &&
    forall k :: 0 <= k < dropped ==> !RoomAfterDropping(cfg, files, k, incoming, disk)
  }

  lemma DroppingImagesCons(files: Files, images: seq<Files>)
    requires files != [] && DroppingImages(files[1..], images)
    ensures DroppingImages(files, [files[1..]] + images)
  {
    forall k | 0 <= k < |images| + 1 ensures ([files[1..]] + images)[k] == files[k + 1..] {
      if k > 0 { assert images[k - 1] == files[1..][k..]; }
    }
  }

  /** What pruning `s` to make room for `incoming` bytes comes to: the fewest oldest
      segments dropped, or everything when even the empty store has no room. */
  predicate Pruned(cfg: Config, s: State, incoming: nat, disk: Disk, dropped: nat, o: Outcome<StoragePlan>) {
    FewestDropped(cfg, s.files, dropped, incoming, disk) &&
    o.state == DropOldest(s, dropped) && CurrentIsLast(o.state) &&
    |o.images| == dropped && DroppingImages(s.files, o.images) &&
    (o.result.Ok? <==> RoomAfterDropping(cfg, s.files, dropped, incoming, disk)) &&
    (o.result.Ok? ==> o.result == PlanFor(cfg, o.state.files, disk)) &&
    (o.result == Err(CapacityReserved) ==> dropped == |s.files|) &&
    (o.result.Err? && o.result != Err(CapacityReserved) ==> dropped == 0 && PlanFor(cfg, s.files, disk).Err?)
  }

  lemma PrunedNothing(cfg: Config, s: State, incoming: nat, disk: Disk) returns (o: Outcome<StoragePlan>)
    requires Ordered(s.files) && CurrentIsLast(s)
    requires var plan := PlanFor(cfg, s.files, disk);
             plan.Err? || HasRoom(plan.value, UsageBytes(s.files), incoming) || s.files == []
    ensures o == EnsureCapacity(cfg, s, incoming, disk)
    ensures Pruned(cfg, s, incoming, disk, 0, o)
  {
    PruneUnfold(cfg, s, incoming, disk);
    o := EnsureCapacity(cfg, s, incoming, disk);
    assert s.files[0..] == s.files;
  }

  lemma FewestDroppedStep(cfg: Config, files: Files, rest: nat, incoming: nat, disk: Disk)
    requires files != [] && !RoomAfterDropping(cfg, files, 0, incoming, disk)
    requires FewestDropped(cfg, files[1..], rest, incoming, disk)
    ensures FewestDropped(cfg, files, rest + 1, incoming, disk)
  {
    forall k | 0 <= k < rest + 1 ensures !RoomAfterDropping(cfg, files, k, incoming, disk) {
      if k > 0 {
        assert files[1..][k - 1..] == files[k..];
        assert !RoomAfterDropping(cfg, files[1..], k - 1, incoming, disk);
      }
    }
  }

  lemma PrunedStep(cfg: Config, s: State, incoming: nat, disk: Disk, rest: nat, o': Outcome<StoragePlan>)
    requires s.files != [] && CurrentIsLast(s) && !RoomAfterDropping(cfg, s.files, 0, incoming, disk)
    requires PlanFor(cfg, DropOldest(s, 1).files, disk).Ok?
    requires Pruned(cfg, DropOldest(s, 1), incoming, disk, rest, o')
    ensures Pruned(cfg, s, incoming, disk, rest + 1,
                   Outcome(o'.state, [DropOldest(s, 1).files] + o'.images, o'.result))
  {
    FewestDroppedStep(cfg, s.files, rest, incoming, disk);
    DroppingImagesCons(s.files, o'.images);
    assert s.files[1..][rest..] == s.files[rest + 1..];
  }

  lemma NoRoomYet(cfg: Config, s: State, incoming: nat, disk: Disk)
    requires Ordered(s.files) && CurrentIsLast(s) && s.files != []
    requires var plan := PlanFor(cfg, s.files, disk);
             plan.Ok? && !HasRoom(plan.value, UsageBytes(s.files), incoming)
    ensures !RoomAfterDropping(cfg, s.files, 0, incoming, disk)
    ensures var s' := DropOldest(s, 1);
            var rest := EnsureCapacity(cfg, s', incoming, disk);
            Ordered(s'.files) && CurrentIsLast(s') && PlanFor(cfg, s'.files, disk).Ok? &&
            EnsureCapacity(cfg, s, incoming, disk) == Outcome(rest.state, [s'.files] + rest.images, rest.result)
  {
    PruneUnfold(cfg, s, incoming, disk);
    assert s.files[0..] == s.files;
  }

  /** The pruning loop drops the fewest oldest segments that make room. It gives
      up only when the whole store is gone and even that does not make room, or
      before touching anything when the disk figures make no sense. */
  lemma {:induction false} PrunesFewestOldest(cfg: Config, s: State, incoming: nat, disk: Disk)
    returns (dropped: nat, o: Outcome<StoragePlan>)
    requires Ordered(s.files) && CurrentIsLast(s)
    ensures o == EnsureCapacity(cfg, s, incoming, disk)
    ensures Pruned(cfg, s, incoming, disk, dropped, o)
    decreases |s.files|
  {
    var plan := PlanFor(cfg, s.files, disk);
    if plan.Err? || HasRoom(plan.value, UsageBytes(s.files), incoming) || s.files == [] {
      dropped := 0;
      o := PrunedNothing(cfg, s, incoming, disk);
    } else {
      NoRoomYet(cfg, s, incoming, disk);
      var rest, o' := PrunesFewestOldest(cfg, DropOldest(s, 1), incoming, disk);
      PrunedStep(cfg, s, incoming, disk, rest, o');
      dropped, o := rest + 1, Outcome(o'.state, [DropOldest(s, 1).files] + o'.images, o'.result);
    }
  }

  lemma {:induction false} UsageConcat(a: Files, b: Files)
    ensures UsageBytes(a + b) == UsageBytes(a) + UsageBytes(b)
  {
    if a == [] {
      assert a + b == b;
    } else {
      assert (a + b)[1..] == a[1..] + b;
      UsageConcat(a[1..], b);
    }
  }

  /** Room left after some segments are gone is room left after all are. */
  lemma RoomMonotone(cfg: Config, files: Files, dropped: nat, incoming: nat, disk: Disk)
    requires dropped <= |files| && RoomAfterDropping(cfg, files, dropped, incoming, disk)
    ensures RoomAfterDropping(cfg, files, |files|, incoming, disk)
  {
    assert UsageBytes(files[|files|..]) == 0;
  }

  /** The whole history is given up exactly when the disk figures make sense and not
      even the empty store has room for the record. */
  lemma CapacityReservedIff(cfg: Config, s: State, incoming: nat, disk: Disk)
    requires Ordered(s.files) && CurrentIsLast(s)
    ensures var o := EnsureCapacity(cfg, s, incoming, disk);
            (o.result == Err(CapacityReserved) <==>
             PlanFor(cfg, s.files, disk).Ok? && !RoomAfterDropping(cfg, s.files, |s.files|, incoming, disk)) &&
            (o.result == Err(CapacityReserved) ==> o.state.files == [])
  {
    hide RoomAfterDropping, ComputeStoragePlan;
    var dropped, o := PrunesFewestOldest(cfg, s, incoming, disk);
    if o.result.Ok? { RoomMonotone(cfg, s.files, dropped, incoming, disk); }
    PlanNeverReserves(cfg, s.files, disk);
  }

  /** The plan itself never reports a full store. */
  lemma PlanNeverReserves(cfg: Config, files: Files, disk: Disk)
    ensures PlanFor(cfg, files, disk) != Err(CapacityReserved)
  {
  }

  // ---------------------------------------------------------------- append

  lemma {:induction false} InsertNewest(files: Files, seg: Segment)
    requires forall i :: 0 <= i < |files| ==> Before(files[i].name, seg.name)
    ensures Insert(files, seg) == files + [seg] && !Exists(files, seg.name)
  {
    if files != [] {
      assert Before(files[0].name, seg.name);
      forall i | 0 <= i < |files[1..]| ensures Before(files[1..][i].name, seg.name) {
        assert Before(files[i + 1].name, seg.name);
      }
      InsertNewest(files[1..], seg);
      assert files == [files[0]] + files[1..];
    }
  }

  lemma {:induction false} ExtendNewest(front: Files, seg: Segment, bytes: Bytes)
    requires Ordered(front + [seg])
    ensures Extend(front + [seg], seg.name, bytes) == front + [seg.(data := seg.data + bytes)]
    ensures SizeOf(front + [seg], seg.name) == |seg.data|
  {
    var files := front + [seg];
    if front != [] {
      OrderedTail(files);
      assert files[1..] == front[1..] + [seg];
      assert Before(files[0].name, files[|front|].name);
      ExtendNewest(front[1..], seg, bytes);
      assert front == [front[0]] + front[1..];
    } else {
      assert files == [seg] && files[1..] == [];
    }
  }

  predicate Writing(cfg: Config, s: State, front: Files, seg: Segment, log: seq<Bytes>) {
    Inv(cfg, s, log) && s.recoveryChecked && s.files == front + [seg] && s.current == Some(seg.name)
  }

  lemma WithNewestData(cfg: Config, s: State, front: Files, seg: Segment, data: Bytes)
    requires WellFormed(cfg, s) && s.files == front + [seg]
    ensures Ordered(front + [seg.(data := data)])
    ensures AllLines(cfg, front + [seg.(data := data)]) == AllLines(cfg, front) + KeptLines(data, cfg.objects)
  {
    hide KeptLines, ComputeStoragePlan;
    AllLinesSnoc(cfg, front, seg.(data := data));
    assert SameNames(front + [seg], front + [seg.(data := data)]);
    SameNamesOrdered(s.files, front + [seg.(data := data)]);
  }

  /** The log once `n` bytes of `line` have reached the disk: the line counts only
      when all of it has. */
  function LogAfter(log: seq<Bytes>, line: Bytes, n: nat): seq<Bytes> {
    if n >= |line| then log + [line] else log
  }

  /** Power loss after any number of bytes of the line. */
  lemma TornWriteSafe(cfg: Config, s: State, front: Files, seg: Segment, text: Bytes, n: nat, log: seq<Bytes>)
    requires Writing(cfg, s, front, seg, log) && Encoded(text, cfg.objects) && n <= |text| + 1
    ensures var files := Extend(s.files, seg.name, (text + [LF])[..n]);
            files == front + [seg.(data := seg.data + (text + [LF])[..n])] &&
            Inv(cfg, Reopen(files), LogAfter(log, text + [LF], n)) &&
            AllLines(cfg, files) == AllLines(cfg, s.files) + (if n == |text| + 1 then [text + [LF]] else [])
  {
    hide KeptLines, ComputeStoragePlan;
    var line := text + [LF];
    var data := seg.data + line[..n];
    assert seg in s.files;
    ExtendNewest(front, seg, line[..n]);
    WithNewestData(cfg, s, front, seg, data);
    WithNewestData(cfg, s, front, seg, seg.data);
    assert seg.(data := seg.data) == seg;
    RepairAfterTornWrite(seg.data, text, n, cfg.objects);
    var kept, before := KeptLines(seg.data, cfg.objects), AllLines(cfg, front);
    if n == |line| {
      assert before + (kept + [line]) == before + kept + [line];
      SuffixExtend(AllLines(cfg, s.files), log, [line]);
    } else {
      assert kept + [] == kept && before + kept + [] == before + kept;
    }
  }

  lemma CleanMember(cfg: Config, files: Files, seg: Segment)
    requires AllClean(cfg, files) && seg in files
    ensures Clean(seg.data, cfg.objects)
  {
  }

  lemma CleanAfterLine(data: Bytes, text: Bytes, objects: Recogniser)
    requires Clean(data, objects) && Encoded(text, objects)
    ensures Clean(data + (text + [LF]), objects)
  {
    hide KeptLines;
    RepairAfterTornWrite(data, text, |text| + 1, objects);
    assert (text + [LF])[..|text| + 1] == text + [LF];
    assert data + text + [LF] == data + (text + [LF]);
  }

  lemma CleanWithNewest(cfg: Config, front: Files, seg: Segment, full: Segment)
    requires AllClean(cfg, front + [seg]) && Clean(full.data, cfg.objects)
    ensures AllClean(cfg, front + [full])
  {
    hide Clean;
    forall f | f in front ensures Clean(f.data, cfg.objects) { assert f in front + [seg]; }
  }

  /** The whole line written: the file stays clean and the line is the newest. */
  lemma WriteLineSafe(cfg: Config, s: State, front: Files, seg: Segment, text: Bytes, log: seq<Bytes>)
    requires Writing(cfg, s, front, seg, log) && Encoded(text, cfg.objects)
    ensures var line := text + [LF];
            var s' := WriteLine(s, seg.name, line);
            Inv(cfg, s', log + [line]) &&
            AllLines(cfg, s'.files) == AllLines(cfg, s.files) + [line]
  {
    hide KeptLines, Extend, IsSuffix, Ordered, AllLines, AllClean, Encoded, Clean;
    var line := text + [LF];
    var full := seg.(data := seg.data + line);
    TornWriteSafe(cfg, s, front, seg, text, |line|, log);
    assert line[..|line|] == line;
    assert Clean(full.data, cfg.objects) by {
      assert Clean(seg.data, cfg.objects) by { CleanMember(cfg, s.files, seg); }
      CleanAfterLine(seg.data, text, cfg.objects);
    }
    CleanWithNewest(cfg, front, seg, full);
  }

  /** Where a run of images that ends in a write leaves the log: only the very
      last image holds the whole line. */
  predicate ImagesTrackLog(cfg: Config, images: seq<Files>, log: seq<Bytes>, log': seq<Bytes>) {
    forall k :: 0 <= k < |images| ==>
      Inv(cfg, Reopen(images[k]), if k == |images| - 1 then log' else log)
  }

  lemma WriteImagesSafe(cfg: Config, s: State, front: Files, seg: Segment, text: Bytes, log: seq<Bytes>)
    requires Writing(cfg, s, front, seg, log) && Encoded(text, cfg.objects)
    ensures ImagesTrackLog(cfg, WriteImages(s.files, seg.name, text + [LF]), log, log + [text + [LF]])
  {
    hide KeptLines, ComputeStoragePlan;
    var line := text + [LF];
    var images := WriteImages(s.files, seg.name, line);
    forall k | 0 <= k < |images|
      ensures Inv(cfg, Reopen(images[k]), if k == |images| - 1 then log + [line] else log)
    {
      TornWriteSafe(cfg, s, front, seg, text, k, log);
    }
  }

  lemma ImagesAppend(cfg: Config, a: seq<Files>, b: seq<Files>, log: seq<Bytes>, log': seq<Bytes>)
    requires ImagesSafe(cfg, a, log) && ImagesTrackLog(cfg, b, log, log') && b != []
    ensures ImagesTrackLog(cfg, a + b, log, log')
  {
    forall k | 0 <= k < |a + b|
      ensures Inv(cfg, Reopen((a + b)[k]), if k == |a + b| - 1 then log' else log)
    {
      if k >= |a| { assert (a + b)[k] == b[k - |a|]; }
    }
  }

  lemma DropOldestSafe(cfg: Config, s: State, dropped: nat, log: seq<Bytes>)
    requires Inv(cfg, s, log) && dropped <= |s.files|
    ensures Inv(cfg, DropOldest(s, dropped), log)
    ensures IsSuffix(AllLines(cfg, s.files[dropped..]), AllLines(cfg, s.files))
  {
    hide KeptLines, ComputeStoragePlan;
    var files := s.files[dropped..];
    assert s.files == s.files[..dropped] + files;
    AllLinesConcat(cfg, s.files[..dropped], files);
    var front := AllLines(cfg, s.files[..dropped]);
    assert AllLines(cfg, s.files)[|front|..] == AllLines(cfg, files);
    SuffixTransitive(AllLines(cfg, files), AllLines(cfg, s.files), log);
    assert Ordered(files) by {
      forall i, j | 0 <= i < j < |files| ensures Before(files[i].name, files[j].name) {
        assert Before(s.files[dropped + i].name, s.files[dropped + j].name);
      }
    }
    assert s.recoveryChecked ==> AllClean(cfg, files) by {
      forall seg | seg in files && s.recoveryChecked ensures Clean(seg.data, cfg.objects) { assert seg in s.files; }
    }
  }

  lemma DroppingImagesSafe(cfg: Config, s: State, images: seq<Files>, log: seq<Bytes>)
    requires Inv(cfg, s, log) && DroppingImages(s.files, images)
    ensures ImagesSafe(cfg, images, log)
  {
    hide KeptLines, ComputeStoragePlan;
    forall k | 0 <= k < |images| ensures Inv(cfg, Reopen(images[k]), log) {
      DropOldestSafe(cfg, s, k + 1, log);
      InvReopen(cfg, DropOldest(s, k + 1), log);
    }
  }

  /** Pruning keeps the invariant in every directory content it passes through. */
  lemma PruningSafe(cfg: Config, s: State, incoming: nat, disk: Disk, log: seq<Bytes>)
    returns (o: Outcome<StoragePlan>)
    requires Inv(cfg, s, log)
    ensures o == EnsureCapacity(cfg, s, incoming, disk)
    ensures Inv(cfg, o.state, log) && ImagesSafe(cfg, o.images, log)
    ensures o.state.recoveryChecked == s.recoveryChecked
    ensures IsSuffix(AllLines(cfg, o.state.files), AllLines(cfg, s.files))
    ensures o.result.Ok? ==>
      o.result == PlanFor(cfg, o.state.files, disk) &&
      HasRoom(o.result.value, UsageBytes(o.state.files), incoming)
  {
    hide KeptLines, ComputeStoragePlan;
    var dropped;
    dropped, o := PrunesFewestOldest(cfg, s, incoming, disk);
    DropOldestSafe(cfg, s, dropped, log);
    DroppingImagesSafe(cfg, s, o.images, log);
  }

  lemma WithEmptySegment(cfg: Config, files: Files, seg: Segment)
    requires seg.data == [] && Ordered(files) && AllClean(cfg, files)
    requires forall i :: 0 <= i < |files| ==> Before(files[i].name, seg.name)
    ensures Ordered(files + [seg]) && AllClean(cfg, files + [seg])
    ensures AllLines(cfg, files + [seg]) == AllLines(cfg, files)
  {
    AllLinesSnoc(cfg, files, seg);
    assert KeptLines([], cfg.objects) == [];
    assert Clean(seg.data, cfg.objects);
  }

  lemma NewSegmentUnfold(s: State, now: nat)
    requires NamesIncrease(s, now)
    ensures var seg := Segment(NextName(s, now), []);
            NewSegment(s, now) ==
            Outcome(s.(counter := seg.name.counter, files := s.files + [seg], current := Some(seg.name)),
                    [s.files + [seg]], Ok(seg.name))
  {
    InsertNewest(s.files, Segment(NextName(s, now), []));
  }

  lemma WithNewestSafe(cfg: Config, s: State, s': State, seg: Segment, log: seq<Bytes>)
    requires Inv(cfg, s, log) && s.recoveryChecked && s'.recoveryChecked && seg.data == []
    requires forall i :: 0 <= i < |s.files| ==> Before(s.files[i].name, seg.name)
    requires s'.files == s.files + [seg] && s'.current == Some(seg.name)
    ensures Inv(cfg, s', log) && AllLines(cfg, s'.files) == AllLines(cfg, s.files)
  {
    hide AllLines, Clean, IsSuffix, Before, Ordered;
    WithEmptySegment(cfg, s.files, seg);
  }

  lemma NewSegmentSafe(cfg: Config, s: State, now: nat, log: seq<Bytes>)
    requires Inv(cfg, s, log) && s.recoveryChecked && NamesIncrease(s, now)
    ensures var o := NewSegment(s, now);
            var seg := Segment(NextName(s, now), []);
            o.result == Ok(seg.name) && o.images == [s.files + [seg]] &&
            Writing(cfg, o.state, s.files, seg, log) && ImagesSafe(cfg, o.images, log) &&
            AllLines(cfg, o.state.files) == AllLines(cfg, s.files)
  {
    hide Inv, AllLines, NewSegment, Before;
    NewSegmentUnfold(s, now);
    WithNewestSafe(cfg, s, NewSegment(s, now).state, Segment(NextName(s, now), []), log);
    InvReopen(cfg, NewSegment(s, now).state, log);
  }

  /** What one successful append leaves behind. */
  predicate Stored(cfg: Config, s: State, s': State, mode: Mode, line: Bytes, disk: Disk) {
    var lines := AllLines(cfg, s'.files);
    lines != [] && lines[|lines| - 1] == line && IsSuffix(lines[..|lines| - 1], AllLines(cfg, s.files)) &&
    var plan := PlanFor(cfg, s'.files, disk);
    plan.Ok? && UsageBytes(s'.files) <= plan.value.quotaBytes &&
    plan.value.freeBytes >= plan.value.reserveBytes && mode != Critical
  }

  lemma UsageWithNewestData(front: Files, seg: Segment, data: Bytes)
    ensures UsageBytes(front + [seg.(data := data)]) + |seg.data| == UsageBytes(front + [seg]) + |data|
  {
    UsageConcat(front, [seg]);
    UsageConcat(front, [seg.(data := data)]);
    assert UsageBytes([seg]) == |seg.data| && UsageBytes([seg.(data := data)]) == |data|;
  }

  /** Room checked before the write is room left after it. */
  lemma RoomAfterWrite(cfg: Config, before: Files, after: Files, incoming: nat, disk: Disk)
    requires incoming >= 1 && UsageBytes(after) == UsageBytes(before) + incoming
    requires PlanFor(cfg, before, disk).Ok?
    requires HasRoom(PlanFor(cfg, before, disk).value, UsageBytes(before), incoming)
    ensures var plan := PlanFor(cfg, after, disk);
            plan.Ok? && UsageBytes(after) <= plan.value.quotaBytes &&
            plan.value.freeBytes >= plan.value.reserveBytes
    ensures PlanFor(cfg, before, disk).value.mode != Critical
  {
    var free := disk.total - disk.other - UsageBytes(before);
    QuotaAndReserveFit(disk.total, free, cfg.requestedPercent, cfg.reservePercent);
    RoomMeansNotCritical(disk.total, free, cfg.requestedPercent, cfg.reservePercent, incoming);
  }

  /** What one append does to a store that satisfies the run invariant: every
      directory content it passes through can be recovered to a suffix of the log,
      and only the last image of a successful append contains the new line. */
  predicate AppendKeeps(cfg: Config, s: State, o: Outcome<Mode>, line: Bytes, disk: Disk, log: seq<Bytes>) {
    if o.result.Ok? then
      Inv(cfg, o.state, log + [line]) && ImagesTrackLog(cfg, o.images, log, log + [line]) &&
      o.images != [] && o.images[|o.images| - 1] == o.state.files &&
      Stored(cfg, s, o.state, o.result.value, line, disk)
    else
      Inv(cfg, o.state, log) && ImagesSafe(cfg, o.images, log)
  }

  lemma StoredByWrite(cfg: Config, s0: State, room: Files, s: State, front: Files, seg: Segment,
                      text: Bytes, mode: Mode, disk: Disk, log: seq<Bytes>)
    requires Writing(cfg, s, front, seg, log) && Encoded(text, cfg.objects)
    requires UsageBytes(s.files) == UsageBytes(room) && AllLines(cfg, s.files) == AllLines(cfg, room)
    requires IsSuffix(AllLines(cfg, room), AllLines(cfg, s0.files))
    requires var plan := PlanFor(cfg, room, disk);
             plan.Ok? && HasRoom(plan.value, UsageBytes(room), |text| + 1) && mode == plan.value.mode
    ensures var s' := WriteLine(s, seg.name, text + [LF]);
            Inv(cfg, s', log + [text + [LF]]) && Stored(cfg, s0, s', mode, text + [LF], disk)
  {
    hide KeptLines, ComputeStoragePlan;
    var line := text + [LF];
    var s' := WriteLine(s, seg.name, line);
    WriteLineSafe(cfg, s, front, seg, text, log);
    ExtendNewest(front, seg, line);
    UsageWithNewestData(front, seg, seg.data + line);
    assert seg.(data := seg.data) == seg;
    RoomAfterWrite(cfg, room, s'.files, |line|, disk);
    var lines := AllLines(cfg, s'.files);
    assert lines[..|lines| - 1] == AllLines(cfg, room);
  }

  lemma WriteImagesEnd(files: Files, name: Name, line: Bytes)
    ensures var images := WriteImages(files, name, line);
            images != [] && images[|images| - 1] == Extend(files, name, line)
  {
    assert line[..|line|] == line;
  }

  /** The write that ends a successful append: `room` is what pruning left, `s` the
      store with its newest segment open. */
  lemma StoreInto(cfg: Config, s0: State, room: Files, s: State, front: Files, seg: Segment, images: seq<Files>,
                  text: Bytes, mode: Mode, disk: Disk, log: seq<Bytes>)
    requires Writing(cfg, s, front, seg, log) && Encoded(text, cfg.objects)
    requires UsageBytes(s.files) == UsageBytes(room) && AllLines(cfg, s.files) == AllLines(cfg, room)
    requires IsSuffix(AllLines(cfg, room), AllLines(cfg, s0.files)) && ImagesSafe(cfg, images, log)
    requires var plan := PlanFor(cfg, room, disk);
             plan.Ok? && HasRoom(plan.value, UsageBytes(room), |text| + 1) && mode == plan.value.mode
    ensures var line := text + [LF];
            AppendKeeps(cfg, s0,
              Outcome(WriteLine(s, seg.name, line), images + WriteImages(s.files, seg.name, line), Ok(mode)),
              line, disk, log)
  {
    hide KeptLines, ComputeStoragePlan;
    var line := text + [LF];
    StoredByWrite(cfg, s0, room, s, front, seg, text, mode, disk, log);
    WriteImagesSafe(cfg, s, front, seg, text, log);
    WriteImagesEnd(s.files, seg.name, line);
    ImagesAppend(cfg, images, WriteImages(s.files, seg.name, line), log, log + [line]);
  }

  lemma WriteFresh(cfg: Config, s0: State, s: State, text: Bytes, mode: Mode, disk: Disk, now: nat, log: seq<Bytes>)
    returns (o: Outcome<Mode>)
    requires Inv(cfg, s, log) && s.recoveryChecked && NamesIncrease(s, now) && Encoded(text, cfg.objects)
    requires IsSuffix(AllLines(cfg, s.files), AllLines(cfg, s0.files))
    requires var plan := PlanFor(cfg, s.files, disk);
             plan.Ok? && HasRoom(plan.value, UsageBytes(s.files), |text| + 1) && mode == plan.value.mode
    ensures var created := NewSegment(s, now);
            var line := text + [LF];
            created.result.Ok? &&
            o == Outcome(WriteLine(created.state, created.result.value, line),
                         created.images + WriteImages(created.state.files, created.result.value, line), Ok(mode))
    ensures AppendKeeps(cfg, s0, o, text + [LF], disk, log)
  {
    hide KeptLines, ComputeStoragePlan;
    var created := NewSegment(s, now);
    var seg := Segment(NextName(s, now), []);
    var line := text + [LF];
    NewSegmentSafe(cfg, s, now, log);
    UsageConcat(s.files, [seg]);
    assert UsageBytes([seg]) == 0;
    StoreInto(cfg, s0, s.files, created.state, s.files, seg, created.images, text, mode, disk, log);
    o := Outcome(WriteLine(created.state, seg.name, line),
                 created.images + WriteImages(created.state.files, seg.name, line), Ok(mode));
  }

  lemma WriteCurrent(cfg: Config, s0: State, s: State, text: Bytes, mode: Mode, disk: Disk, log: seq<Bytes>)
    returns (o: Outcome<Mode>)
    requires Inv(cfg, s, log) && s.recoveryChecked && s.current.Some? && Encoded(text, cfg.objects)
    requires IsSuffix(AllLines(cfg, s.files), AllLines(cfg, s0.files))
    requires var plan := PlanFor(cfg, s.files, disk);
             plan.Ok? && HasRoom(plan.value, UsageBytes(s.files), |text| + 1) && mode == plan.value.mode
    ensures o == Outcome(WriteLine(s, s.current.value, text + [LF]),
                         WriteImages(s.files, s.current.value, text + [LF]), Ok(mode))
    ensures AppendKeeps(cfg, s0, o, text + [LF], disk, log)
  {
    hide KeptLines, ComputeStoragePlan;
    var n := |s.files| - 1;
    var front, seg := s.files[..n], s.files[n];
    assert s.files == front + [seg];
    StoreInto(cfg, s0, s.files, s, front, seg, [], text, mode, disk, log);
    var writes := WriteImages(s.files, seg.name, text + [LF]);
    assert [] + writes == writes;
    o := Outcome(WriteLine(s, seg.name, text + [LF]), writes, Ok(mode));
  }

  /** A taken name fails the append and leaves the disk alone. */
  lemma NameTaken(cfg: Config, s0: State, s: State, text: Bytes, mode: Mode, disk: Disk, now: nat, log: seq<Bytes>)
    returns (o: Outcome<Mode>)
    requires Inv(cfg, s, log) && NeedsNewSegment(cfg, s, |text| + 1) && Exists(s.files, NextName(s, now))
    ensures o == WriteStep(cfg, s, text + [LF], mode, now)
    ensures AppendKeeps(cfg, s0, o, text + [LF], disk, log)
  {
    hide KeptLines, ComputeStoragePlan, Exists;
    o := WriteStep(cfg, s, text + [LF], mode, now);
  }

  lemma WriteStepSafe(cfg: Config, s0: State, s: State, text: Bytes, mode: Mode, disk: Disk, now: nat, log: seq<Bytes>)
    returns (o: Outcome<Mode>)
    requires Inv(cfg, s, log) && s.recoveryChecked && Encoded(text, cfg.objects)
    requires FreshNameNewest(cfg, s, |text| + 1, now)
    requires IsSuffix(AllLines(cfg, s.files), AllLines(cfg, s0.files))
    requires var plan := PlanFor(cfg, s.files, disk);
             plan.Ok? && HasRoom(plan.value, UsageBytes(s.files), |text| + 1) && mode == plan.value.mode
    ensures o == WriteStep(cfg, s, text + [LF], mode, now)
    ensures AppendKeeps(cfg, s0, o, text + [LF], disk, log)
  {
    hide KeptLines, ComputeStoragePlan;
    if NeedsNewSegment(cfg, s, |text| + 1) && Exists(s.files, NextName(s, now)) {
      o := NameTaken(cfg, s0, s, text, mode, disk, now, log);
    } else if NeedsNewSegment(cfg, s, |text| + 1) {
      o := WriteFresh(cfg, s0, s, text, mode, disk, now, log);
    } else {
      o := WriteCurrent(cfg, s0, s, text, mode, disk, log);
    }
  }

  lemma KeepsAfterPrefix(cfg: Config, s: State, images: seq<Files>, step: Outcome<Mode>, line: Bytes, disk: Disk,
      log: seq<Bytes>)
    returns (o: Outcome<Mode>)
    requires AppendKeeps(cfg, s, step, line, disk, log) && ImagesSafe(cfg, images, log)
    ensures o == Outcome(step.state, images + step.images, step.result)
    ensures AppendKeeps(cfg, s, o, line, disk, log)
  {
    o := Outcome(step.state, images + step.images, step.result);
    if step.result.Ok? {
      ImagesAppend(cfg, images, step.images, log, log + [line]);
    }
  }

  lemma StoreSafe(cfg: Config, s: State, text: Bytes, disk: Disk, now: nat, log: seq<Bytes>) returns (o: Outcome<Mode>)
    requires Inv(cfg, s, log) && s.recoveryChecked && Encoded(text, cfg.objects)
    requires var room := EnsureCapacity(cfg, s, |text| + 1, disk);
             room.result.Ok? ==> FreshNameNewest(cfg, room.state, |text| + 1, now)
    ensures o == Store(cfg, s, text + [LF], disk, now)
    ensures AppendKeeps(cfg, s, o, text + [LF], disk, log)
  {
    hide KeptLines, ComputeStoragePlan;
    var room := PruningSafe(cfg, s, |text| + 1, disk, log);
    StoreUnfold(cfg, s, text + [LF], disk, now, room);
    if room.result.Ok? {
      var step := WriteStepSafe(cfg, s, room.state, text, room.result.value.mode, disk, now, log);
      o := KeepsAfterPrefix(cfg, s, room.images, step, text + [LF], disk, log);
    } else {
      o := FailedKeeps(cfg, s, room, text + [LF], disk, log);
    }
  }

  lemma FailedKeeps(cfg: Config, s: State, room: Outcome<StoragePlan>, line: Bytes, disk: Disk, log: seq<Bytes>)
    returns (o: Outcome<Mode>)
    requires room.result.Err? && Inv(cfg, room.state, log) && ImagesSafe(cfg, room.images, log)
    ensures o == Failed(room.state, room.images, room.result.error)
    ensures AppendKeeps(cfg, s, o, line, disk, log)
  {
    o := Failed(room.state, room.images, room.result.error);
  }

  lemma AppendSafe(cfg: Config, s: State, text: Bytes, disk: Disk, now: nat, log: seq<Bytes>) returns (o: Outcome<Mode>)
    requires Inv(cfg, s, log) && AppendInOrder(cfg, s, text, disk, now) && Encoded(text, cfg.objects)
    ensures o == Append(cfg, s, text, disk, now)
    ensures AppendKeeps(cfg, s, o, text + [LF], disk, log)
  {
    hide KeptLines, ComputeStoragePlan;
    var s', images := RepairAllSafe(cfg, s, log);
    AppendUnfold(cfg, s, text, disk, now, s', images);
    if |text| + 1 <= cfg.maxRecordBytes {
      var stored := StoreSafe(cfg, s', text, disk, now, log);
      StoredSince(cfg, s, s', stored, text + [LF], disk, log);
      o := KeepsAfterPrefix(cfg, s, images, stored, text + [LF], disk, log);
    } else {
      o := Outcome(s', images, Err(RecordTooLarge));
    }
  }

  lemma StoredSince(cfg: Config, s: State, s': State, o: Outcome<Mode>, line: Bytes, disk: Disk, log: seq<Bytes>)
    requires AllLines(cfg, s.files) == AllLines(cfg, s'.files) && AppendKeeps(cfg, s', o, line, disk, log)
    ensures AppendKeeps(cfg, s, o, line, disk, log)
  {
  }

  // ------------------------------------------------------------------ runs

  /** What may happen to the store: an append, a power loss that leaves the disk
      at one of the contents an append passes through, a clean restart, or a status
      request (which repairs). After the first three of these a new instance starts
      or goes on; losing power keeps nothing but the disk. */
  datatype Event =
    | AppendEvent(text: Bytes, disk: Disk, now: nat)
    | PowerLoss(text: Bytes, disk: Disk, now: nat, cut: nat)
    | Restart
    | StatusEvent

  predicate EventAllowed(cfg: Config, s: State, e: Event) {
    match e
    case AppendEvent(text, disk, now) => Encoded(text, cfg.objects) && AppendInOrder(cfg, s, text, disk, now)
    case PowerLoss(text, disk, now, _) => Encoded(text, cfg.objects) && AppendInOrder(cfg, s, text, disk, now)
    case Restart => true
    case StatusEvent => true
  }

  function After(cfg: Config, s: State, e: Event): State {
    match e
    case AppendEvent(text, disk, now) => Append(cfg, s, text, disk, now).state
    case PowerLoss(text, disk, now, cut) =>
      var images := Append(cfg, s, text, disk, now).images;
      Reopen(if cut < |images| then images[cut] else s.files)
    case Restart => Reopen(s.files)
    case StatusEvent => RepairAll(cfg, s).0
  }

  /** The lines completely written by an event: the acknowledged one, or an
      in-flight one whose last byte reached the disk. */
  function Written(cfg: Config, s: State, e: Event): seq<Bytes> {
    match e
    case AppendEvent(text, disk, now) =>
      if Append(cfg, s, text, disk, now).result.Ok? then [text + [LF]] else []
    case PowerLoss(text, disk, now, cut) =>
      var o := Append(cfg, s, text, disk, now);
      if o.result.Ok? && cut == |o.images| - 1 then [text + [LF]] else []
    case Restart => []
    case StatusEvent => []
  }

  function Run(cfg: Config, s: State, events: seq<Event>): State
    decreases |events|
  {
    if events == [] then s else Run(cfg, After(cfg, s, events[0]), events[1..])
  }

  function RunLog(cfg: Config, s: State, events: seq<Event>): seq<Bytes>
    decreases |events|
  {
    if events == [] then []
    else Written(cfg, s, events[0]) + RunLog(cfg, After(cfg, s, events[0]), events[1..])
  }

  predicate RunAllowed(cfg: Config, s: State, events: seq<Event>)
    decreases |events|
  {
    events == [] ||
    (EventAllowed(cfg, s, events[0]) && RunAllowed(cfg, After(cfg, s, events[0]), events[1..]))
  }

  lemma EventSafe(cfg: Config, s: State, e: Event, log: seq<Bytes>) returns (s': State, line: seq<Bytes>)
    requires Inv(cfg, s, log) && EventAllowed(cfg, s, e)
    ensures s' == After(cfg, s, e) && line == Written(cfg, s, e)
    ensures Inv(cfg, s', log + line)
  {
    s', line := After(cfg, s, e), Written(cfg, s, e);
    assert log + [] == log;
    match e
    case AppendEvent(text, disk, now) =>
      var o := AppendSafe(cfg, s, text, disk, now, log);
    case PowerLoss(text, disk, now, cut) =>
      var o := AppendSafe(cfg, s, text, disk, now, log);
      InvReopen(cfg, s, log);
    case Restart => InvReopen(cfg, s, log);
    case StatusEvent =>
      var _, _ := RepairAllSafe(cfg, s, log);
  }

  lemma RunUnfold(cfg: Config, s: State, events: seq<Event>)
    requires events != []
    ensures var s' := After(cfg, s, events[0]);
            Run(cfg, s, events) == Run(cfg, s', events[1..]) &&
            RunLog(cfg, s, events) == Written(cfg, s, events[0]) + RunLog(cfg, s', events[1..]) &&
            (RunAllowed(cfg, s, events) ==> EventAllowed(cfg, s, events[0]) && RunAllowed(cfg, s', events[1..]))
  {
  }

  lemma {:induction false} RunSafe(cfg: Config, s: State, events: seq<Event>, log: seq<Bytes>)
    returns (s': State, log': seq<Bytes>)
    requires Inv(cfg, s, log) && RunAllowed(cfg, s, events)
    ensures s' == Run(cfg, s, events) && log' == log + RunLog(cfg, s, events)
    ensures Inv(cfg, s', log')
    decreases |events|
  {
    if events == [] {
      s', log' := s, log;
    } else {
      RunUnfold(cfg, s, events);
      var next, line := EventSafe(cfg, s, events[0], log);
      s', log' := RunSafe(cfg, next, events[1..], log + line);
      ConcatAssociative(log, line, RunLog(cfg, next, events[1..]));
    }
  }

  /** Over every run from any directory, torn or corrupt files included, what is
      retained is a suffix of the complete lines found at the start followed by
      every line written since; once repaired, the bytes on disk are exactly the
      retained lines. */
  lemma RetainedIsSuffix(cfg: Config, files: Files, events: seq<Event>)
    requires Ordered(files) && RunAllowed(cfg, Reopen(files), events)
    ensures var s := Run(cfg, Reopen(files), events);
            var lines := AllLines(cfg, s.files);
            IsSuffix(lines, AllLines(cfg, files) + RunLog(cfg, Reopen(files), events)) &&
            (s.recoveryChecked ==> Contents(s.files) == Flatten(lines)) &&
            Contents(RepairAll(cfg, s).0.files) == Flatten(lines)
  {
    var start := AllLines(cfg, files);
    var s, log := RunSafe(cfg, Reopen(files), events, start);
    var s', images := RepairAllSafe(cfg, s, log);
    CleanContents(cfg, s'.files);
    if s.recoveryChecked { CleanContents(cfg, s.files); }
  }

  /** An acknowledged append ends the retained log with its record, within quota
      and above the reserve, and never in critical mode. */
  lemma AcknowledgedIsNewest(cfg: Config, files: Files, events: seq<Event>, text: Bytes, disk: Disk, now: nat)
    requires Ordered(files) && RunAllowed(cfg, Reopen(files), events)
    requires var s := Run(cfg, Reopen(files), events);
             Encoded(text, cfg.objects) && AppendInOrder(cfg, s, text, disk, now) &&
             Append(cfg, s, text, disk, now).result.Ok?
    ensures var s := Run(cfg, Reopen(files), events);
            var o := Append(cfg, s, text, disk, now);
            Stored(cfg, s, o.state, o.result.value, text + [LF], disk)
  {
    var s, log := RunSafe(cfg, Reopen(files), events, AllLines(cfg, files));
    var o := AppendSafe(cfg, s, text, disk, now, log);
  }
}
