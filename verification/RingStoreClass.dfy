/** The store as an object over a directory, proved against `RingStoreSpec`
    (edge/pi-storage/storage_runtime.py:68-237). */
module RingStores {
  import opened Collections
  import opened LineRepair
  import opened StoragePlans
  import opened RingStoreSpec

  /** The directory on disk. `images` is the ghost record of every content it has
      had: the points a power loss can leave behind. */
  class Directory {
    var files: Files
    ghost var images: seq<Files>

    constructor (files: Files)
      ensures this.files == files && images == []
    {
      this.files := files;
      images := [];
    }

    method Truncate(i: nat, length: nat)
      requires i < |files| && length <= |files[i].data|
      modifies this
      ensures files == old(files)[i := old(files)[i].(data := old(files)[i].data[..length])]
      ensures images == old(images) + [files]
    {
      files := files[i := files[i].(data := files[i].data[..length])];
      images := images + [files];
    }

    method Unlink(name: Name)
      modifies this
      ensures files == Without(old(files), name)
      ensures images == old(images) + [files]
    {
      files := Without(files, name);
      images := images + [files];
    }

    method Touch(name: Name) returns (ok: bool)
      modifies this
      ensures ok == !Exists(old(files), name)
      ensures ok ==> files == Insert(old(files), Segment(name, [])) && images == old(images) + [files]
      ensures !ok ==> files == old(files) && images == old(images)
    {
      ok := !Exists(files, name);
      if ok {
        files := Insert(files, Segment(name, []));
        images := images + [files];
      }
    }

    method AppendBytes(name: Name, line: Bytes)
      modifies this
      ensures files == Extend(old(files), name, line)
      ensures images == old(images) + WriteImages(old(files), name, line)
    {
      images := images + WriteImages(files, name, line);
      files := Extend(files, name, line);
    }
  }

  datatype ConfigError =
    | RequestedPercentRange | ReservePercentRange | PercentSum | SegmentBytesRange | RecordBytesRange

  function CheckConfig(cfg: Config): (r: Result<(), ConfigError>)
    ensures r.Ok? <==>
      PercentsAllowed(cfg.requestedPercent, cfg.reservePercent) &&
      0x400 <= cfg.segmentBytes <= 0x4000_0000 && 0x400 <= cfg.maxRecordBytes <= 0x10_0000
  {
    if !(1.0 <= cfg.requestedPercent <= 80.0) then Err(RequestedPercentRange)
    else if !(5.0 <= cfg.reservePercent <= 30.0) then Err(ReservePercentRange)
    else if cfg.requestedPercent + cfg.reservePercent > 90.0 then Err(PercentSum)
    else if cfg.segmentBytes < 1024 || cfg.segmentBytes > 1024 * 1024 * 1024 then Err(SegmentBytesRange)
    else if cfg.maxRecordBytes < 1024 || cfg.maxRecordBytes > 1024 * 1024 then Err(RecordBytesRange)
    else Ok(())
  }

  lemma LoopUnfold(cfg: Config, s: State, incoming: nat, disk: Disk, victim: Name)
    requires PlanFor(cfg, s.files, disk).Ok? && Victim(s.files, s.current) == Some(victim)
    requires !HasRoom(PlanFor(cfg, s.files, disk).value, UsageBytes(s.files), incoming)
    ensures LoopMeasure(PruneOne(s, victim)) < LoopMeasure(s)
    ensures var rest := EnsureCapacity(cfg, PruneOne(s, victim), incoming, disk);
            EnsureCapacity(cfg, s, incoming, disk) ==
            Outcome(rest.state, [PruneOne(s, victim).files] + rest.images, rest.result)
  {
  }

  class AdaptiveJsonlRingStore {
    const cfg: Config
    const dir: Directory
    var current: Option<Name>
    var counter: nat
    var written: nat
    var pruned: nat
    var writeErrors: nat
    var recoveredSegments: nat
    var discardedPartialBytes: nat
    var recoveryChecked: bool

    ghost function View(): State
      reads this, dir
    {
      State(dir.files, current, counter, written, pruned, writeErrors,
            recoveredSegments, discardedPartialBytes, recoveryChecked)
    }

    constructor (dir: Directory, cfg: Config)
      ensures this.cfg == cfg && this.dir == dir
      ensures View() == Reopen(dir.files)
    {
      this.cfg, this.dir := cfg, dir;
      current, counter, recoveryChecked := None, 0, false;
      written, pruned, writeErrors, recoveredSegments, discardedPartialBytes := 0, 0, 0, 0, 0;
    }

    /** Construction as callers see it: a bad configuration is refused. */
    static method Open(dir: Directory, cfg: Config) returns (r: Result<AdaptiveJsonlRingStore, ConfigError>)
      ensures CheckConfig(cfg).Err? ==> r.Err? && r.error == CheckConfig(cfg).error
      ensures CheckConfig(cfg).Ok? ==>
        r.Ok? && fresh(r.value) && r.value.dir == dir && r.value.cfg == cfg && r.value.View() == Reopen(dir.files)
    {
      var checked := CheckConfig(cfg);
      if checked.Err? { return Err(checked.error); }
      var store := new AdaptiveJsonlRingStore(dir, cfg);
      return Ok(store);
    }

    method RepairInterruptedSegments()
      modifies this, dir
      ensures View() == RepairAll(cfg, old(View())).0
      ensures dir.images == old(dir.images) + RepairAll(cfg, old(View())).1
    {
      hide Repaired;
      if recoveryChecked { return; }
      var i := 0;
      ghost var whole := RepairFrom(cfg, View(), 0);
      while i < |dir.files|
        invariant i <= |dir.files| && !recoveryChecked
        invariant RepairFrom(cfg, View(), i).0 == whole.0
        invariant dir.images + RepairFrom(cfg, View(), i).1 == old(dir.images) + whole.1
        decreases |dir.files| - i
      {
        RepairOneSegment(i);
        i := i + 1;
      }
      recoveryChecked := true;
    }

    /** One file of the repair pass. */
    method RepairOneSegment(i: nat)
      requires i < |dir.files| && !recoveryChecked
      modifies this, dir
      ensures |dir.files| == |old(dir.files)| && !recoveryChecked
      ensures RepairFrom(cfg, View(), i + 1).0 == RepairFrom(cfg, old(View()), i).0
      ensures dir.images + RepairFrom(cfg, View(), i + 1).1 == old(dir.images) + RepairFrom(cfg, old(View()), i).1
    {
      hide Repaired;
      var data := dir.files[i].data;
      if data == [] { return; }
      var validEnd := FindValidEnd(data, cfg.objects);
      if validEnd == |data| { return; }
      var discarded := |data| - validEnd;
      dir.Truncate(i, validEnd);
      recoveredSegments := recoveredSegments + 1;
      discardedPartialBytes := discardedPartialBytes + discarded;
    }

    method RemoveSegment(victim: Name)
      modifies this, dir
      ensures View() == PruneOne(old(View()), victim)
      ensures dir.images == old(dir.images) + [dir.files]
    {
      dir.Unlink(victim);
      if current == Some(victim) { current := None; }
      pruned := pruned + 1;
    }

    /** The pruning loop. */
    method EnsureRoom(incoming: nat, disk: Disk) returns (r: Result<StoragePlan, StoreError>)
      modifies this, dir
      ensures View() == EnsureCapacity(cfg, old(View()), incoming, disk).state
      ensures dir.images == old(dir.images) + EnsureCapacity(cfg, old(View()), incoming, disk).images
      ensures r == EnsureCapacity(cfg, old(View()), incoming, disk).result
    {
      hide ComputeStoragePlan, UsageBytes, Without, Exists;
      ghost var goal := EnsureCapacity(cfg, View(), incoming, disk);
      while true
        invariant goal.state == EnsureCapacity(cfg, View(), incoming, disk).state
        invariant goal.result == EnsureCapacity(cfg, View(), incoming, disk).result
        invariant old(dir.images) + goal.images == dir.images + EnsureCapacity(cfg, View(), incoming, disk).images
        decreases LoopMeasure(View())
      {
        var planned := PlanFor(cfg, dir.files, disk);
        if planned.Err? { return Err(planned.error); }
        var plan := planned.value;
        var reserveViolation := plan.freeBytes - incoming < plan.reserveBytes;
        var quotaViolation := UsageBytes(dir.files) + incoming > plan.quotaBytes;
        if !reserveViolation && !quotaViolation { return Ok(plan); }
        var victim := Victim(dir.files, current);
        if victim.None? { return Err(CapacityReserved); }
        LoopUnfold(cfg, View(), incoming, disk, victim.value);
        RemoveSegment(victim.value);
      }
    }

    method StartSegment(now: nat) returns (r: Result<Name, StoreError>)
      modifies this, dir
      ensures View() == NewSegment(old(View()), now).state
      ensures dir.images == old(dir.images) + NewSegment(old(View()), now).images
      ensures r == NewSegment(old(View()), now).result
    {
      counter := (counter + 1) % 1_000_000;
      var name := Name(now, counter);
      var ok := dir.Touch(name);
      if !ok { return Err(SegmentExists); }
      current := Some(name);
      return Ok(name);
    }

    /** Opens a segment when the record needs one, then writes it. */
    method WriteRecord(line: Bytes, mode: Mode, now: nat) returns (r: Result<Mode, StoreError>)
      modifies this, dir
      ensures View() == WriteStep(cfg, old(View()), line, mode, now).state
      ensures dir.images == old(dir.images) + WriteStep(cfg, old(View()), line, mode, now).images
      ensures r == WriteStep(cfg, old(View()), line, mode, now).result
    {
      hide Exists, SizeOf, Extend, WriteImages, Insert;
      if current.None? || !Exists(dir.files, current.value)
         || SizeOf(dir.files, current.value) + |line| > cfg.segmentBytes {
        var created := StartSegment(now);
        if created.Err? {
          writeErrors := writeErrors + 1;
          return Err(created.error);
        }
      }
      dir.AppendBytes(current.value, line);
      written := written + 1;
      return Ok(mode);
    }

    /** The part of `append` that counts its failures. */
    method StoreLine(line: Bytes, disk: Disk, now: nat) returns (r: Result<Mode, StoreError>)
      modifies this, dir
      ensures View() == Store(cfg, old(View()), line, disk, now).state
      ensures dir.images == old(dir.images) + Store(cfg, old(View()), line, disk, now).images
      ensures r == Store(cfg, old(View()), line, disk, now).result
    {
      hide Store, EnsureCapacity, WriteStep, PlanFor;
      StoreUnfold(cfg, View(), line, disk, now, EnsureCapacity(cfg, View(), |line|, disk));
      var plan := EnsureRoom(|line|, disk);
      if plan.Err? {
        writeErrors := writeErrors + 1;
        return Err(plan.error);
      }
      r := WriteRecord(line, plan.value.mode, now);
    }

    method Append(text: Bytes, disk: Disk, now: nat) returns (r: Result<Mode, StoreError>)
      modifies this, dir
      ensures View() == RingStoreSpec.Append(cfg, old(View()), text, disk, now).state
      ensures dir.images == old(dir.images) + RingStoreSpec.Append(cfg, old(View()), text, disk, now).images
      ensures r == RingStoreSpec.Append(cfg, old(View()), text, disk, now).result
    {
      hide RingStoreSpec.Append, RepairAll, Store;
      AppendUnfold(cfg, View(), text, disk, now, RepairAll(cfg, View()).0, RepairAll(cfg, View()).1);
      RepairInterruptedSegments();
      var line := text + [LF];
      if |line| > cfg.maxRecordBytes { return Err(RecordTooLarge); }
      r := StoreLine(line, disk, now);
    }
  }
}
