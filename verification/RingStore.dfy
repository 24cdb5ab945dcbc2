/** Append-only segmented history log with a quota, a free-space reserve,
    oldest-first pruning and torn-tail repair
    (edge/pi-storage/storage_runtime.py, `AdaptiveJsonlRingStore`).

    The functions give the meaning of each operation on values; `images` lists
    every directory content the operation leaves on disk on its way, so that a
    power loss can be placed between any two of them. */
module RingStoreSpec {
  import opened Collections
  import opened LineRepair
  import opened StoragePlans

  /** The two numbers in a segment's file name. Zero padding makes the textual
      order of names the lexicographic order of these pairs. */
  datatype Name = Name(ns: nat, counter: nat)

  datatype Segment = Segment(name: Name, data: Bytes)

  /** A directory listing in `_segments()` order. */
  type Files = seq<Segment>

  datatype Config = Config(
    requestedPercent: real, reservePercent: real,
    segmentBytes: int, maxRecordBytes: int, objects: Recogniser)

  /** What `disk_usage` reports apart from this store: total size, and the bytes
      other files occupy. */
  datatype Disk = Disk(total: int, other: nat)

  datatype State = State(
    files: Files, current: Option<Name>, counter: nat,
    written: nat, pruned: nat, writeErrors: nat,
    recoveredSegments: nat, discardedPartialBytes: nat, recoveryChecked: bool)

  datatype Outcome<T> = Outcome(state: State, images: seq<Files>, result: Result<T, StoreError>)

  predicate Before(a: Name, b: Name) {
    a.ns < b.ns || (a.ns == b.ns && a.counter < b.counter)
  }

  predicate Ordered(files: Files) {
    forall i, j :: 0 <= i < j < |files| ==> Before(files[i].name, files[j].name)
  }

  function UsageBytes(files: Files): nat {
    if files == [] then 0 else |files[0].data| + UsageBytes(files[1..])
  }

  predicate Exists(files: Files, name: Name) {
    exists i :: 0 <= i < |files| && files[i].name == name
  }

  function Without(files: Files, name: Name): (r: Files)
    ensures |r| <= |files|
    ensures Exists(files, name) ==> |r| < |files|
  {
    if files == [] then []
    else if files[0].name == name then Without(files[1..], name)
    else
      var r := [files[0]] + Without(files[1..], name);
      assert Exists(files, name) ==> Exists(files[1..], name) by {
        if Exists(files, name) {
          var i :| 0 <= i < |files| && files[i].name == name;
          assert files[1..][i - 1].name == name;
        }
      }
      r
  }

  function SizeOf(files: Files, name: Name): nat {
    if files == [] then 0
    else if files[0].name == name then |files[0].data|
    else SizeOf(files[1..], name)
  }

  function Extend(files: Files, name: Name, bytes: Bytes): Files {
    if files == [] then []
    else if files[0].name == name then [Segment(name, files[0].data + bytes)] + files[1..]
    else [files[0]] + Extend(files[1..], name, bytes)
  }

  function Insert(files: Files, seg: Segment): Files {
    if files == [] then [seg]
    else if Before(seg.name, files[0].name) then [seg] + files
    else [files[0]] + Insert(files[1..], seg)
  }

  function PlanFor(cfg: Config, files: Files, disk: Disk): Result<StoragePlan, StoreError> {
    ComputeStoragePlan(disk.total, disk.total - disk.other - UsageBytes(files),
                       cfg.requestedPercent, cfg.reservePercent)
  }

  predicate HasRoom(plan: StoragePlan, used: nat, incoming: nat) {
    plan.freeBytes - incoming >= plan.reserveBytes && used + incoming <= plan.quotaBytes
  }

  // ---------------------------------------------------------------- repair

  /** Repair of the files from index `i` on. */
  function RepairFrom(cfg: Config, s: State, i: nat): (State, seq<Files>)
    decreases |s.files| - i
  {
    if i >= |s.files| then (s.(recoveryChecked := true), [])
    else
      var data := s.files[i].data;
      var kept := Repaired(data, cfg.objects);
      if |kept| >= |data| then RepairFrom(cfg, s, i + 1)
      else
        var s' := s.(files := s.files[i := s.files[i].(data := kept)],
                     recoveredSegments := s.recoveredSegments + 1,
                     discardedPartialBytes := s.discardedPartialBytes + (|data| - |kept|));
        var rest := RepairFrom(cfg, s', i + 1);
        (rest.0, [s'.files] + rest.1)
  }

  function RepairAll(cfg: Config, s: State): (State, seq<Files>) {
    if s.recoveryChecked then (s, []) else RepairFrom(cfg, s, 0)
  }

  // -------------------------------------------------------------- capacity

  /** The segment the pruning loop removes next: the oldest that is not being
      written, else the one being written. */
  function Victim(files: Files, current: Option<Name>): (v: Option<Name>)
    ensures v.Some? ==> Exists(files, v.value) || current == v
  {
    var removable := if current.Some? then Without(files, current.value) else files;
    if removable != [] then
      assert files != [];
      if current.Some? then WithoutKeeps(files, current.value); Some(removable[0].name)
      else Some(removable[0].name)
    else current
  }

  lemma {:induction false} WithoutKeeps(files: Files, name: Name)
    ensures forall seg :: seg in Without(files, name) ==> seg in files && seg.name != name
    ensures Without(files, name) != [] ==> Exists(files, Without(files, name)[0].name)
  {
    if files != [] {
      WithoutKeeps(files[1..], name);
      var r := Without(files, name);
      if r != [] {
        assert r[0] in files;
      }
    }
  }

  function PruneOne(s: State, victim: Name): State {
    s.(files := Without(s.files, victim),
       current := if s.current == Some(victim) then None else s.current,
       pruned := s.pruned + 1)
  }

  /** Segments, plus one if one of them is being written: what each turn of the
      pruning loop reduces. */
  function LoopMeasure(s: State): nat {
    |s.files| + (if s.current.Some? then 1 else 0)
  }

  function EnsureCapacity(cfg: Config, s: State, incoming: nat, disk: Disk): Outcome<StoragePlan>
    decreases LoopMeasure(s)
  {
    match PlanFor(cfg, s.files, disk)
    case Err(e) => Outcome(s, [], Err(e))
    case Ok(plan) =>
      if HasRoom(plan, UsageBytes(s.files), incoming) then Outcome(s, [], Ok(plan))
      else
        match Victim(s.files, s.current)
        case None => Outcome(s, [], Err(CapacityReserved))
        case Some(victim) =>
          var s' := PruneOne(s, victim);
          var rest := EnsureCapacity(cfg, s', incoming, disk);
          Outcome(rest.state, [s'.files] + rest.images, rest.result)
  }

  // ---------------------------------------------------------------- append

  function NextName(s: State, now: nat): Name {
    Name(now, (s.counter + 1) % 1_000_000)
  }

  function NewSegment(s: State, now: nat): Outcome<Name> {
    var name := NextName(s, now);
    var s' := s.(counter := name.counter);
    if Exists(s.files, name) then Outcome(s', [], Err(SegmentExists))
    else
      var files := Insert(s.files, Segment(name, []));
      Outcome(s'.(files := files, current := Some(name)), [files], Ok(name))
  }

  predicate NeedsNewSegment(cfg: Config, s: State, incoming: nat) {
    s.current.None? || !Exists(s.files, s.current.value) ||
    SizeOf(s.files, s.current.value) + incoming > cfg.segmentBytes
  }

  /** Every content the file passes through while `line` is written to it. */
  function WriteImages(files: Files, name: Name, line: Bytes): seq<Files> {
    seq(|line| + 1, n requires 0 <= n <= |line| => Extend(files, name, line[..n]))
  }

  function WriteLine(s: State, name: Name, line: Bytes): State {
    s.(files := Extend(s.files, name, line), written := s.written + 1)
  }

  function Failed<T>(s: State, images: seq<Files>, e: StoreError): Outcome<T> {
    Outcome(s.(writeErrors := s.writeErrors + 1), images, Err(e))
  }

  /** Opening a segment when the record needs one, then writing it. */
  function WriteStep(cfg: Config, s: State, line: Bytes, mode: Mode, now: nat): Outcome<Mode> {
    if NeedsNewSegment(cfg, s, |line|) then
      var created := NewSegment(s, now);
      if created.result.Err? then Failed(created.state, created.images, created.result.error)
      else
        Outcome(WriteLine(created.state, created.result.value, line),
                created.images + WriteImages(created.state.files, created.result.value, line),
                Ok(mode))
    else
      Outcome(WriteLine(s, s.current.value, line), WriteImages(s.files, s.current.value, line), Ok(mode))
  }

  /** The part of `append` inside the error-counting block. */
  function Store(cfg: Config, s: State, line: Bytes, disk: Disk, now: nat): Outcome<Mode> {
    var room := EnsureCapacity(cfg, s, |line|, disk);
    if room.result.Err? then Failed(room.state, room.images, room.result.error)
    else
      var step := WriteStep(cfg, room.state, line, room.result.value.mode, now);
      Outcome(step.state, room.images + step.images, step.result)
  }

  lemma StoreUnfold(cfg: Config, s: State, line: Bytes, disk: Disk, now: nat, room: Outcome<StoragePlan>)
    requires room == EnsureCapacity(cfg, s, |line|, disk)
    ensures room.result.Err? ==> Store(cfg, s, line, disk, now) == Failed(room.state, room.images, room.result.error)
    ensures room.result.Ok? ==>
      var step := WriteStep(cfg, room.state, line, room.result.value.mode, now);
      Store(cfg, s, line, disk, now) == Outcome(step.state, room.images + step.images, step.result)
  {
  }

  /** `append` of a record whose encoded text is `text`. */
  function Append(cfg: Config, s: State, text: Bytes, disk: Disk, now: nat): Outcome<Mode> {
    var line := text + [LF];
    var (s', images) := RepairAll(cfg, s);
    if |line| > cfg.maxRecordBytes then Outcome(s', images, Err(RecordTooLarge))
    else
      var stored := Store(cfg, s', line, disk, now);
      Outcome(stored.state, images + stored.images, stored.result)
  }

  lemma AppendUnfold(cfg: Config, s: State, text: Bytes, disk: Disk, now: nat, s': State, images: seq<Files>)
    requires (s', images) == RepairAll(cfg, s)
    ensures |text| + 1 > cfg.maxRecordBytes ==>
      Append(cfg, s, text, disk, now) == Outcome(s', images, Err(RecordTooLarge))
    ensures |text| + 1 <= cfg.maxRecordBytes ==>
      var stored := Store(cfg, s', text + [LF], disk, now);
      Append(cfg, s, text, disk, now) == Outcome(stored.state, images + stored.images, stored.result)
  {
  }

  /** A new instance over what is on disk. */
  function Reopen(files: Files): State {
    State(files, None, 0, 0, 0, 0, 0, 0, false)
  }
}
