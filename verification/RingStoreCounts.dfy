/** What the counters of `status` count, and what becomes of every byte and segment
    (edge/pi-storage/storage_runtime.py:146-160, 171-211, 225-240). */
module RingStoreCounts {
  import opened Collections
  import opened LineRepair
  import opened StoragePlans
  import opened RingStoreSpec
  import opened RingStoreSafety

  // ------------------------------------------------------------------ repair

  /** How many segments of `before` are shorter in `after`. */
  function Shortened(before: Files, after: Files): nat
    requires |before| == |after|
  {
    if before == [] then 0
    else (if |after[0].data| < |before[0].data| then 1 else 0) + Shortened(before[1..], after[1..])
  }

  lemma {:induction false} NoneShortened(files: Files)
    ensures Shortened(files, files) == 0
  {
    if files != [] { NoneShortened(files[1..]); }
  }

  lemma {:induction false} ShortenedAt(before: Files, after: Files, i: nat, seg: Segment)
    requires |before| == |after| && i < |after| && after[i] == before[i]
    ensures Shortened(before, after[i := seg]) ==
            Shortened(before, after) + if |seg.data| < |before[i].data| then 1 else 0
  {
    if i > 0 {
      assert after[i := seg][1..] == after[1..][i - 1 := seg];
      ShortenedAt(before[1..], after[1..], i - 1, seg);
    } else {
      assert after[0 := seg][1..] == after[1..];
    }
  }

  lemma {:induction false} UsageAt(files: Files, i: nat, data: Bytes)
    requires i < |files|
    ensures UsageBytes(files[i := files[i].(data := data)]) + |files[i].data| == UsageBytes(files) + |data|
  {
    var seg := files[i].(data := data);
    if i > 0 {
      assert files[i := seg][1..] == files[1..][i - 1 := seg];
      UsageAt(files[1..], i - 1, data);
    } else {
      assert files[0 := seg][1..] == files[1..];
    }
  }

  /** `s` has counted what has been done to the segments `start` so far, those from
      place `i` on being untouched. */
  predicate CountedUpTo(start: State, s: State, i: nat) {
    |s.files| == |start.files| && (forall k :: i <= k < |s.files| ==> s.files[k] == start.files[k]) &&
    s.recoveredSegments == start.recoveredSegments + Shortened(start.files, s.files) &&
    UsageBytes(s.files) + s.discardedPartialBytes == UsageBytes(start.files) + start.discardedPartialBytes &&
    s.written == start.written && s.pruned == start.pruned && s.writeErrors == start.writeErrors
  }

  lemma {:induction false} RepairCounted(cfg: Config, start: State, s: State, i: nat)
    requires CountedUpTo(start, s, i)
    ensures CountedUpTo(start, RepairFrom(cfg, s, i).0, |start.files|)
    decreases |s.files| - i
  {
    hide Repaired, Shortened, UsageBytes;
    if i < |s.files| {
      var seg := s.files[i];
      var kept := Repaired(seg.data, cfg.objects);
      if |kept| >= |seg.data| {
        RepairCounted(cfg, start, s, i + 1);
      } else {
        var s' := s.(files := s.files[i := seg.(data := kept)],
                     recoveredSegments := s.recoveredSegments + 1,
                     discardedPartialBytes := s.discardedPartialBytes + (|seg.data| - |kept|));
        ShortenedAt(start.files, s.files, i, seg.(data := kept));
        UsageAt(s.files, i, kept);
        RepairCounted(cfg, start, s', i + 1);
      }
    }
  }

  /** Repair accounts for every byte and every segment: what was found is what is left
      and what `discardedPartialBytes` rose by, and `recoveredSegments` rises by the
      number of segments now shorter. */
  lemma RepairCounts(cfg: Config, s: State)
    ensures var r := RepairAll(cfg, s).0;
            |r.files| == |s.files| &&
            r.recoveredSegments == s.recoveredSegments + Shortened(s.files, r.files) &&
            UsageBytes(s.files) == UsageBytes(r.files) + (r.discardedPartialBytes - s.discardedPartialBytes) &&
            r.written == s.written && r.pruned == s.pruned && r.writeErrors == s.writeErrors
  {
    hide Shortened, UsageBytes, RepairFrom;
    NoneShortened(s.files);
    RepairCounted(cfg, s, s, 0);
  }

  // ------------------------------------------------------------------ append

  lemma WriteCounts(cfg: Config, s: State, line: Bytes, mode: Mode, now: nat)
    ensures var step := WriteStep(cfg, s, line, mode, now);
            step.state.pruned == s.pruned && SameRepairCounts(s, step.state) &&
            Answered(s, step.state, step.result.Ok?)
  {
    hide NeedsNewSegment, WriteImages;
  }

  predicate SameRepairCounts(s: State, s': State) {
    s'.recoveredSegments == s.recoveredSegments && s'.discardedPartialBytes == s.discardedPartialBytes
  }

  /** One more success, or one more error. */
  predicate Answered(s: State, s': State, ok: bool) {
    s'.written == s.written + (if ok then 1 else 0) && s'.writeErrors == s.writeErrors + if ok then 0 else 1
  }

  lemma {:induction false} InsertedCount(files: Files, seg: Segment)
    ensures |Insert(files, seg)| == |files| + 1
  {
    if files != [] { InsertedCount(files[1..], seg); }
  }

  lemma {:induction false} ExtendedCount(files: Files, name: Name, bytes: Bytes)
    ensures |Extend(files, name, bytes)| == |files|
  {
    if files != [] { ExtendedCount(files[1..], name, bytes); }
  }

  lemma WriteOpens(cfg: Config, s: State, line: Bytes, mode: Mode, now: nat)
    requires s.current.Some? ==> Exists(s.files, s.current.value)
    ensures var after := WriteStep(cfg, s, line, mode, now).state;
            |after.files| == |s.files| + (if after.current == s.current then 0 else 1) &&
            (after.current == s.current || after.current.Some?)
  {
    hide WriteImages, Insert, Extend, SizeOf;
    var seg := Segment(NextName(s, now), []);
    InsertedCount(s.files, seg);
    ExtendedCount(Insert(s.files, seg), seg.name, line);
    if s.current.Some? { ExtendedCount(s.files, s.current.value, line); }
  }

  predicate SegmentsCounted(s: State, s': State, added: nat) {
    |s.files| + added == |s'.files| + (s'.pruned - s.pruned) && (added == 0 || (added == 1 && s'.current.Some?))
  }

  lemma PrunedCounts(cfg: Config, s: State, incoming: nat, disk: Disk) returns (o: Outcome<StoragePlan>)
    requires Ordered(s.files) && CurrentIsLast(s)
    ensures o == EnsureCapacity(cfg, s, incoming, disk) && SegmentsCounted(s, o.state, 0)
    ensures o.state.written == s.written && o.state.writeErrors == s.writeErrors
    ensures o.state.current.Some? ==> Exists(o.state.files, o.state.current.value)
  {
    hide EnsureCapacity, RoomAfterDropping, DroppingImages;
    var dropped;
    dropped, o := PrunesFewestOldest(cfg, s, incoming, disk);
  }

  lemma StoreCounts(cfg: Config, s: State, line: Bytes, disk: Disk, now: nat) returns (added: nat)
    requires Ordered(s.files) && CurrentIsLast(s)
    ensures var stored := Store(cfg, s, line, disk, now);
            Answered(s, stored.state, stored.result.Ok?) && SegmentsCounted(s, stored.state, added)
  {
    hide WriteStep, EnsureCapacity, Store, Ordered, CurrentIsLast;
    added := 0;
    var o := PrunedCounts(cfg, s, |line|, disk);
    StoreUnfold(cfg, s, line, disk, now, o);
    if o.result.Ok? {
      WriteCounts(cfg, o.state, line, o.result.value.mode, now);
      WriteOpens(cfg, o.state, line, o.result.value.mode, now);
      var after := WriteStep(cfg, o.state, line, o.result.value.mode, now).state;
      if after.current != o.state.current { added := 1; }
    }
  }

  /** Every append is counted once: as written when it succeeds, as an error when it
      fails, and not at all when the record is too large. No segment goes uncounted:
      those there before and the one opened are those there now and those pruned. */
  lemma AppendCounts(cfg: Config, s: State, text: Bytes, disk: Disk, now: nat, log: seq<Bytes>)
    returns (added: nat)
    requires Inv(cfg, s, log)
    ensures var o := Append(cfg, s, text, disk, now);
            SegmentsCounted(s, o.state, added) &&
            if |text| < cfg.maxRecordBytes then Answered(s, o.state, o.result.Ok?)
            else o.result == Err(RecordTooLarge) && o.state.written == s.written &&
                 o.state.writeErrors == s.writeErrors
  {
    hide RepairAll, Store, IsSuffix, AllLines, Append, Ordered;
    var s', images := RepairAllSafe(cfg, s, log);
    RepairCounts(cfg, s);
    AppendUnfold(cfg, s, text, disk, now, s', images);
    added := 0;
    if |text| < cfg.maxRecordBytes {
      added := StoreCounts(cfg, s', text + [LF], disk, now);
    }
  }
}
