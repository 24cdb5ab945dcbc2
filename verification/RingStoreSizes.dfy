/** How large segments get, where a record goes and what pruning makes room for, told
    from segment sizes, contents and disk figures alone
    (edge/pi-storage/storage_runtime.py:29-65, 162-211). */
module RingStoreSizes {
  import opened Collections
  import opened LineRepair
  import opened StoragePlans
  import opened RingStoreSpec
  import opened RingStoreSafety

  // ---------------------------------------------------------- segment sizes

  /** One line, or a part of one that power loss left. */
  predicate AtMostOneLine(data: Bytes) {
    forall i :: 0 <= i < |data| - 1 ==> data[i] != 10
  }

  predicate Small(cfg: Config, data: Bytes) {
    |data| <= cfg.segmentBytes || AtMostOneLine(data)
  }

  /** A segment that was there at the start, whole or cut short by repair. */
  predicate FoundAtStart(start: Files, seg: Segment) {
    exists i :: 0 <= i < |start| && start[i].name == seg.name && seg.data <= start[i].data
  }

  predicate SegmentSmall(cfg: Config, start: Files, seg: Segment) {
    Small(cfg, seg.data) || FoundAtStart(start, seg)
  }

  predicate SegmentsSmall(cfg: Config, start: Files, files: Files) {
    forall seg :: seg in files ==> SegmentSmall(cfg, start, seg)
  }

  predicate ImagesSmall(cfg: Config, start: Files, images: seq<Files>) {
    forall k :: 0 <= k < |images| ==> SegmentsSmall(cfg, start, images[k])
  }

  lemma CutStaysSmall(cfg: Config, start: Files, seg: Segment, data: Bytes)
    requires SegmentSmall(cfg, start, seg) && data <= seg.data
    ensures SegmentSmall(cfg, start, seg.(data := data))
  {
    if FoundAtStart(start, seg) {
      var i :| 0 <= i < |start| && start[i].name == seg.name && seg.data <= start[i].data;
      assert data <= start[i].data;
    }
  }

  lemma {:induction false} RepairStaysSmall(cfg: Config, start: Files, s: State, i: nat)
    requires SegmentsSmall(cfg, start, s.files)
    ensures SegmentsSmall(cfg, start, RepairFrom(cfg, s, i).0.files)
    ensures ImagesSmall(cfg, start, RepairFrom(cfg, s, i).1)
    decreases |s.files| - i
  {
    hide SegmentSmall, Repaired;
    if i < |s.files| {
      var seg := s.files[i];
      var kept := Repaired(seg.data, cfg.objects);
      if |kept| >= |seg.data| {
        RepairStaysSmall(cfg, start, s, i + 1);
      } else {
        var s' := s.(files := s.files[i := seg.(data := kept)],
                     recoveredSegments := s.recoveredSegments + 1,
                     discardedPartialBytes := s.discardedPartialBytes + (|seg.data| - |kept|));
        assert kept <= seg.data by { KeptAreLines(seg.data, cfg.objects); }
        CutStaysSmall(cfg, start, seg, kept);
        forall f | f in s'.files ensures SegmentSmall(cfg, start, f) {
          assert f == seg.(data := kept) || f in s.files;
        }
        RepairStaysSmall(cfg, start, s', i + 1);
        var rest := RepairFrom(cfg, s', i + 1).1;
        forall k | 0 <= k < |rest| + 1 ensures SegmentsSmall(cfg, start, ([s'.files] + rest)[k]) {}
      }
    }
  }

  lemma RepairAllStaysSmall(cfg: Config, start: Files, s: State)
    requires SegmentsSmall(cfg, start, s.files)
    ensures SegmentsSmall(cfg, start, RepairAll(cfg, s).0.files)
    ensures ImagesSmall(cfg, start, RepairAll(cfg, s).1)
  {
    if !s.recoveryChecked { RepairStaysSmall(cfg, start, s, 0); }
  }

  lemma {:induction false} PruningStaysSmall(cfg: Config, start: Files, s: State, incoming: nat, disk: Disk)
    requires SegmentsSmall(cfg, start, s.files)
    ensures SegmentsSmall(cfg, start, EnsureCapacity(cfg, s, incoming, disk).state.files)
    ensures ImagesSmall(cfg, start, EnsureCapacity(cfg, s, incoming, disk).images)
    decreases LoopMeasure(s)
  {
    hide SegmentSmall, ComputeStoragePlan, HasRoom;
    var plan := PlanFor(cfg, s.files, disk);
    var victim := Victim(s.files, s.current);
    if plan.Ok? && !HasRoom(plan.value, UsageBytes(s.files), incoming) && victim.Some? {
      var s' := PruneOne(s, victim.value);
      WithoutKeeps(s.files, victim.value);
      PruningStaysSmall(cfg, start, s', incoming, disk);
      var rest := EnsureCapacity(cfg, s', incoming, disk).images;
      forall k | 0 <= k < |rest| + 1 ensures SegmentsSmall(cfg, start, ([s'.files] + rest)[k]) {}
    }
  }

  /** What a write leaves: the other segments, and the one written. */
  lemma {:induction false} ExtendedMember(files: Files, name: Name, bytes: Bytes, seg: Segment)
    requires seg in Extend(files, name, bytes)
    ensures seg in files ||
            (seg.name == name && |seg.data| == SizeOf(files, name) + |bytes|)
  {
    if files != [] && files[0].name != name && seg != files[0] {
      ExtendedMember(files[1..], name, bytes, seg);
    }
  }

  lemma {:induction false} ExtendedFresh(files: Files, added: Segment, bytes: Bytes, seg: Segment)
    requires !Exists(files, added.name) && added.data == []
    requires seg in Extend(Insert(files, added), added.name, bytes)
    ensures seg in files || seg == Segment(added.name, bytes)
  {
    if files == [] || Before(added.name, files[0].name) {
      assert [] + bytes == bytes;
      assert ([added] + files)[1..] == files;
    } else {
      assert files[0].name != added.name;
      forall i | 0 <= i < |files[1..]| ensures files[1..][i].name != added.name {
        assert files[i + 1].name != added.name;
      }
      assert ([files[0]] + Insert(files[1..], added))[1..] == Insert(files[1..], added);
      if seg != files[0] { ExtendedFresh(files[1..], added, bytes, seg); }
    }
  }

  lemma {:induction false} InsertedMember(files: Files, added: Segment, seg: Segment)
    requires seg in Insert(files, added)
    ensures seg in files || seg == added
  {
    if files != [] && !Before(added.name, files[0].name) && seg != files[0] {
      InsertedMember(files[1..], added, seg);
    }
  }

  lemma InsertStaysSmall(cfg: Config, start: Files, files: Files, seg: Segment)
    requires SegmentsSmall(cfg, start, files) && seg.data == []
    ensures SegmentsSmall(cfg, start, Insert(files, seg))
  {
    hide Insert;
    forall f | f in Insert(files, seg) ensures SegmentSmall(cfg, start, f) { InsertedMember(files, seg, f); }
  }

  lemma OpenWriteSmall(cfg: Config, start: Files, files: Files, name: Name, line: Bytes, n: nat)
    requires SegmentsSmall(cfg, start, files) && n <= |line|
    requires SizeOf(files, name) + |line| <= cfg.segmentBytes
    ensures SegmentsSmall(cfg, start, Extend(files, name, line[..n]))
  {
    hide Extend;
    forall f | f in Extend(files, name, line[..n]) ensures SegmentSmall(cfg, start, f) {
      ExtendedMember(files, name, line[..n], f);
    }
  }

  lemma FreshWriteSmall(cfg: Config, start: Files, files: Files, seg: Segment, line: Bytes, n: nat)
    requires SegmentsSmall(cfg, start, files) && n <= |line| && AtMostOneLine(line)
    requires seg.data == [] && !Exists(files, seg.name)
    ensures SegmentsSmall(cfg, start, Extend(Insert(files, seg), seg.name, line[..n]))
  {
    hide Extend, Insert, Exists;
    forall f | f in Extend(Insert(files, seg), seg.name, line[..n]) ensures SegmentSmall(cfg, start, f) {
      ExtendedFresh(files, seg, line[..n], f);
    }
  }

  lemma WriteStepStaysSmall(cfg: Config, start: Files, s: State, line: Bytes, mode: Mode, now: nat)
    requires SegmentsSmall(cfg, start, s.files) && AtMostOneLine(line)
    ensures SegmentsSmall(cfg, start, WriteStep(cfg, s, line, mode, now).state.files)
    ensures ImagesSmall(cfg, start, WriteStep(cfg, s, line, mode, now).images)
  {
    hide SegmentsSmall, AtMostOneLine, Extend, Insert, Exists, SizeOf;
    var seg := Segment(NextName(s, now), []);
    assert line[..|line|] == line;
    if NeedsNewSegment(cfg, s, |line|) {
      if !Exists(s.files, seg.name) {
        InsertStaysSmall(cfg, start, s.files, seg);
        forall n: nat | n <= |line|
          ensures SegmentsSmall(cfg, start, Extend(Insert(s.files, seg), seg.name, line[..n]))
        {
          FreshWriteSmall(cfg, start, s.files, seg, line, n);
        }
      }
    } else {
      forall n: nat | n <= |line|
        ensures SegmentsSmall(cfg, start, Extend(s.files, s.current.value, line[..n]))
      {
        OpenWriteSmall(cfg, start, s.files, s.current.value, line, n);
      }
    }
  }

  lemma ImagesSmallConcat(cfg: Config, start: Files, a: seq<Files>, b: seq<Files>)
    requires ImagesSmall(cfg, start, a) && ImagesSmall(cfg, start, b)
    ensures ImagesSmall(cfg, start, a + b)
  {
    hide SegmentsSmall;
  }

  lemma StoreStaysSmall(cfg: Config, start: Files, s: State, line: Bytes, disk: Disk, now: nat)
    requires SegmentsSmall(cfg, start, s.files) && AtMostOneLine(line)
    ensures SegmentsSmall(cfg, start, Store(cfg, s, line, disk, now).state.files)
    ensures ImagesSmall(cfg, start, Store(cfg, s, line, disk, now).images)
  {
    hide SegmentsSmall, ImagesSmall, AtMostOneLine, WriteStep, EnsureCapacity;
    var room := EnsureCapacity(cfg, s, |line|, disk);
    StoreUnfold(cfg, s, line, disk, now, room);
    PruningStaysSmall(cfg, start, s, |line|, disk);
    if room.result.Ok? {
      var step := WriteStep(cfg, room.state, line, room.result.value.mode, now);
      WriteStepStaysSmall(cfg, start, room.state, line, room.result.value.mode, now);
      ImagesSmallConcat(cfg, start, room.images, step.images);
    }
  }

  lemma AppendStaysSmall(cfg: Config, start: Files, s: State, text: Bytes, disk: Disk, now: nat)
    requires SegmentsSmall(cfg, start, s.files) && LF !in text
    ensures SegmentsSmall(cfg, start, Append(cfg, s, text, disk, now).state.files)
    ensures ImagesSmall(cfg, start, Append(cfg, s, text, disk, now).images)
  {
    hide SegmentsSmall, ImagesSmall, Store, RepairAll;
    var (s', images) := RepairAll(cfg, s);
    AppendUnfold(cfg, s, text, disk, now, s', images);
    RepairAllStaysSmall(cfg, start, s);
    var line := text + [LF];
    assert forall i :: 0 <= i < |text| ==> line[i] == text[i] && text[i] in text;
    if |line| <= cfg.maxRecordBytes {
      StoreStaysSmall(cfg, start, s', line, disk, now);
      ImagesSmallConcat(cfg, start, images, Store(cfg, s', line, disk, now).images);
    }
  }

  /** Records are lines of JSON, which hold no raw newline. */
  predicate LinesOnly(events: seq<Event>) {
    forall i :: 0 <= i < |events| ==>
      (events[i].AppendEvent? || events[i].PowerLoss? ==> LF !in events[i].text)
  }

  lemma EventStaysSmall(cfg: Config, start: Files, s: State, e: Event)
    requires SegmentsSmall(cfg, start, s.files) && (e.AppendEvent? || e.PowerLoss? ==> LF !in e.text)
    ensures SegmentsSmall(cfg, start, After(cfg, s, e).files)
  {
    hide SegmentsSmall, Append, RepairAll;
    match e
    case AppendEvent(text, disk, now) => AppendStaysSmall(cfg, start, s, text, disk, now);
    case PowerLoss(text, disk, now, cut) => AppendStaysSmall(cfg, start, s, text, disk, now);
    case Restart =>
    case StatusEvent => RepairAllStaysSmall(cfg, start, s);
  }

  lemma {:induction false} RunStaysSmall(cfg: Config, start: Files, s: State, events: seq<Event>)
    requires SegmentsSmall(cfg, start, s.files) && LinesOnly(events)
    ensures SegmentsSmall(cfg, start, Run(cfg, s, events).files)
    decreases |events|
  {
    hide SegmentsSmall, After;
    if events != [] {
      EventStaysSmall(cfg, start, s, events[0]);
      RunStaysSmall(cfg, start, After(cfg, s, events[0]), events[1..]);
    }
  }

  lemma StartIsSmall(cfg: Config, files: Files)
    ensures SegmentsSmall(cfg, files, files)
  {
    forall seg | seg in files ensures FoundAtStart(files, seg) {
      var i :| 0 <= i < |files| && files[i] == seg;
      assert files[i].name == seg.name && seg.data <= files[i].data;
    }
  }

  /** Over every run from any directory, whatever the clock does and wherever power is
      lost: every segment on disk was there at the start, or holds at most
      `segmentBytes` bytes, or one line (or a part of it). */
  lemma SegmentsBounded(cfg: Config, files: Files, events: seq<Event>)
    requires LinesOnly(events)
    ensures forall seg :: seg in Run(cfg, Reopen(files), events).files ==>
      |seg.data| <= cfg.segmentBytes || AtMostOneLine(seg.data) || FoundAtStart(files, seg)
  {
    hide Run;
    StartIsSmall(cfg, files);
    RunStaysSmall(cfg, files, Reopen(files), events);
  }

  // -------------------------------------------------------- where a record goes

  /** `after` is `kept` with the line at the end of its last segment. */
  predicate WrittenIntoLast(kept: Files, after: Files, line: Bytes) {
    kept != [] &&
    var n := |kept| - 1;
    after == kept[..n] + [Segment(kept[n].name, kept[n].data + line)]
  }

  /** `after` is `kept` and a segment of its own for the line. */
  predicate WrittenIntoNew(kept: Files, after: Files, line: Bytes) {
    |after| == |kept| + 1 && after[..|kept|] == kept && after[|kept|].data == line
  }

  /** The open segment survived pruning and has room for the line. */
  predicate OpenHasRoom(cfg: Config, open: bool, kept: Files, line: Bytes) {
    open && kept != [] && |kept[|kept| - 1].data| + |line| <= cfg.segmentBytes
  }

  lemma WritePlaces(cfg: Config, s: State, line: Bytes, mode: Mode, now: nat)
    requires Ordered(s.files) && CurrentIsLast(s) && FreshNameNewest(cfg, s, |line|, now)
    requires WriteStep(cfg, s, line, mode, now).result.Ok?
    ensures var after := WriteStep(cfg, s, line, mode, now).state;
            after.current.Some? && after.files != [] &&
            after.files[|after.files| - 1].name == after.current.value &&
            if OpenHasRoom(cfg, s.current.Some?, s.files, line) then WrittenIntoLast(s.files, after.files, line)
            else WrittenIntoNew(s.files, after.files, line)
  {
    hide Before;
    var n := |s.files| - 1;
    if s.current.Some? {
      assert s.files == s.files[..n] + [s.files[n]];
      ExtendNewest(s.files[..n], s.files[n], line);
      assert Exists(s.files, s.current.value);
    }
    if NeedsNewSegment(cfg, s, |line|) {
      NewSegmentUnfold(s, now);
      var seg := Segment(NextName(s, now), []);
      NewestOrdered(s.files, seg);
      ExtendNewest(s.files, seg, line);
      assert [] + line == line;
    }
  }

  lemma NewestOrdered(files: Files, seg: Segment)
    requires Ordered(files) && forall i :: 0 <= i < |files| ==> Before(files[i].name, seg.name)
    ensures Ordered(files + [seg])
  {
  }

  /** Where a successful append puts its line, from contents alone: pruning drops some
      oldest segments; the line goes to the end of the open segment if that is kept and
      the two together fit `segmentBytes`, and else into a segment of its own; no other
      kept segment changes, and the segment written is the open one afterwards. */
  lemma AppendPlaces(cfg: Config, s: State, text: Bytes, disk: Disk, now: nat, log: seq<Bytes>) returns (dropped: nat)
    requires Inv(cfg, s, log) && AppendInOrder(cfg, s, text, disk, now)
    requires Append(cfg, s, text, disk, now).result.Ok?
    ensures var files, after := RepairAll(cfg, s).0.files, Append(cfg, s, text, disk, now).state;
            dropped <= |files| && after.current.Some? && after.files != [] &&
            after.files[|after.files| - 1].name == after.current.value &&
            if OpenHasRoom(cfg, s.current.Some?, files[dropped..], text + [LF])
            then WrittenIntoLast(files[dropped..], after.files, text + [LF])
            else WrittenIntoNew(files[dropped..], after.files, text + [LF])
  {
    hide ComputeStoragePlan, WriteStep, EnsureCapacity, RepairAll, IsSuffix, AllClean, NeedsNewSegment, WrittenIntoLast,
         WrittenIntoNew, AllLines;
    var s', images := RepairAllSafe(cfg, s, log);
    AppendUnfold(cfg, s, text, disk, now, s', images);
    var line, o := text + [LF], EnsureCapacity(cfg, s', |text| + 1, disk);
    dropped, o := PrunesFewestOldest(cfg, s', |line|, disk);
    StoreUnfold(cfg, s', line, disk, now, o);
    KeptOrdered(s'.files, dropped);
    WritePlaces(cfg, o.state, line, o.result.value.mode, now);
  }

  lemma KeptOrdered(files: Files, k: nat)
    requires Ordered(files) && k <= |files|
    ensures Ordered(files[k..])
  {
    forall i, j | 0 <= i < j < |files[k..]| ensures Before(files[k..][i].name, files[k..][j].name) {
      assert Before(files[k + i].name, files[k + j].name);
    }
  }

  /** The same after every run whose fresh segments get the newest name. */
  lemma AcknowledgedPlaces(cfg: Config, files: Files, events: seq<Event>, text: Bytes, disk: Disk, now: nat)
    returns (dropped: nat)
    requires Ordered(files) && RunAllowed(cfg, Reopen(files), events)
    requires var s := Run(cfg, Reopen(files), events);
             AppendInOrder(cfg, s, text, disk, now) && Append(cfg, s, text, disk, now).result.Ok?
    ensures var s := Run(cfg, Reopen(files), events);
            var before, after := RepairAll(cfg, s).0.files, Append(cfg, s, text, disk, now).state;
            dropped <= |before| &&
            if OpenHasRoom(cfg, s.current.Some?, before[dropped..], text + [LF])
            then WrittenIntoLast(before[dropped..], after.files, text + [LF])
            else WrittenIntoNew(before[dropped..], after.files, text + [LF])
  {
    hide Run, RunLog, Append, RepairAll, WrittenIntoLast, WrittenIntoNew, AppendInOrder;
    var s, log := RunSafe(cfg, Reopen(files), events, AllLines(cfg, files));
    dropped := AppendPlaces(cfg, s, text, disk, now, log);
  }

  // ------------------------------------------------------- what makes room

  /** The bytes in the segments from place `k` on. */
  function BytesFrom(files: Files, k: nat): nat
    requires k <= |files|
    decreases |files| - k
  {
    if k == |files| then 0 else |files[k].data| + BytesFrom(files, k + 1)
  }

  /** Quota and reserve in the disk's own figures: with `used` bytes in the store, the
      record still fits the requested share of the disk, and what it leaves free is
      not below the reserved share rounded down. */
  predicate Fits(cfg: Config, used: nat, incoming: nat, disk: Disk) {
    (100 * (used + incoming)) as real <= disk.total as real * cfg.requestedPercent &&
    (100 * (disk.total - disk.other - used - incoming + 1)) as real > disk.total as real * cfg.reservePercent
  }

  lemma {:induction false} UsageIsBytes(files: Files, k: nat)
    requires k <= |files|
    ensures UsageBytes(files[k..]) == BytesFrom(files, k)
    decreases |files| - k
  {
    if k < |files| {
      assert files[k..][1..] == files[k + 1..];
      UsageIsBytes(files, k + 1);
    }
  }

  lemma FloorAtLeast(n: int, x: real)
    ensures n <= (x / 100.0).Floor <==> (100 * n) as real <= x
    ensures n >= (x / 100.0).Floor <==> (100 * (n + 1)) as real > x
  {
    var f := (x / 100.0).Floor;
    assert f as real <= x / 100.0 < (f + 1) as real;
    assert (n as real <= x / 100.0) <==> (100 * n) as real <= x;
    assert ((n + 1) as real > x / 100.0) <==> (100 * (n + 1)) as real > x;
  }

  lemma PlanFigures(cfg: Config, files: Files, disk: Disk)
    requires PlanFor(cfg, files, disk).Ok?
    ensures var plan := PlanFor(cfg, files, disk).value;
            plan.freeBytes == disk.total - disk.other - UsageBytes(files) &&
            plan.quotaBytes == (disk.total as real * cfg.requestedPercent / 100.0).Floor &&
            plan.reserveBytes == (disk.total as real * cfg.reservePercent / 100.0).Floor
  {
  }

  lemma FitsIsRoom(cfg: Config, files: Files, dropped: nat, incoming: nat, disk: Disk)
    requires dropped <= |files| && PlanFor(cfg, files[dropped..], disk).Ok?
    ensures RoomAfterDropping(cfg, files, dropped, incoming, disk) <==>
            Fits(cfg, BytesFrom(files, dropped), incoming, disk)
  {
    hide UsageBytes, ComputeStoragePlan;
    UsageIsBytes(files, dropped);
    PlanFigures(cfg, files[dropped..], disk);
    var used := BytesFrom(files, dropped);
    FloorAtLeast(used + incoming, disk.total as real * cfg.requestedPercent);
    FloorAtLeast(disk.total - disk.other - used - incoming, disk.total as real * cfg.reservePercent);
  }

  lemma PlanAfterDropping(cfg: Config, files: Files, dropped: nat, disk: Disk)
    requires dropped <= |files| && PlanFor(cfg, files, disk).Ok?
    ensures PlanFor(cfg, files[dropped..], disk).Ok?
  {
    assert files == files[..dropped] + files[dropped..];
    UsageConcat(files[..dropped], files[dropped..]);
  }

  /** When an append prunes and how much, in the disk's own figures: with legal figures
      it drops the fewest oldest segments after which the record fits; it gives up when
      it would not fit an empty store. */
  lemma PrunesUntilFits(cfg: Config, s: State, incoming: nat, disk: Disk) returns (dropped: nat)
    requires Ordered(s.files) && CurrentIsLast(s) && PlanFor(cfg, s.files, disk).Ok?
    ensures var o := EnsureCapacity(cfg, s, incoming, disk);
            dropped <= |s.files| && o.state.files == s.files[dropped..] &&
            (forall k :: 0 <= k < dropped ==> !Fits(cfg, BytesFrom(s.files, k), incoming, disk)) &&
            (o.result.Ok? <==> Fits(cfg, BytesFrom(s.files, dropped), incoming, disk)) &&
            (o.result.Err? ==> dropped == |s.files|)
  {
    hide ComputeStoragePlan, RoomAfterDropping, Fits;
    var o;
    dropped, o := PrunesFewestOldest(cfg, s, incoming, disk);
    forall k | 0 <= k <= dropped
      ensures RoomAfterDropping(cfg, s.files, k, incoming, disk) <==> Fits(cfg, BytesFrom(s.files, k), incoming, disk)
    {
      PlanAfterDropping(cfg, s.files, k, disk);
      FitsIsRoom(cfg, s.files, k, incoming, disk);
    }
  }

  /** The mode, without dividing: critical while the free share is at most the reserved
      one, degraded up to five percent of the disk above it. */
  lemma ModeIff(total: int, free: int, requested: real, reserve: real)
    requires ComputeStoragePlan(total, free, requested, reserve).Ok?
    ensures var mode := ComputeStoragePlan(total, free, requested, reserve).value.mode;
            (mode == Critical <==> (100 * free) as real <= total as real * reserve) &&
            (mode == Normal <==> (100 * free) as real > total as real * (reserve + 5.0))
  {
    var t, ratio := total as real, free as real / total as real;
    assert ratio * t == free as real;
    CrossMultiplied(free, total, reserve);
    CrossMultiplied(free, total, reserve + 5.0);
  }

  lemma CrossMultiplied(free: int, total: int, percent: real)
    requires total > 0
    ensures free as real / total as real * 100.0 <= percent <==> (100 * free) as real <= total as real * percent
  {
    var t, ratio := total as real, free as real / total as real;
    assert ratio * t == free as real;
    assert ratio * 100.0 * t == (100 * free) as real;
    if ratio * 100.0 <= percent { assert ratio * 100.0 * t <= percent * t; }
    if ratio * 100.0 > percent { assert ratio * 100.0 * t > percent * t; }
  }
}
