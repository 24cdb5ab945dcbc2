/** The clock assumption of the history store
    (edge/pi-storage/storage_runtime.py:102-103, 162-211): segments are ordered by the
    time in their names, so a clock that steps back misfiles a fresh segment. */
module RingStoreClock {
  import opened Collections
  import opened LineRepair
  import opened StoragePlans
  import opened RingStoreSpec
  import opened RingStoreSafety

  /** Every record in a segment that sorts after `name` is the same line. */
  predicate LaterHoldOnly(cfg: Config, files: Files, name: Name, line: Bytes) {
    forall i :: 0 <= i < |files| && Before(name, files[i].name) ==>
      OnlyLine(KeptLines(files[i].data, cfg.objects), line)
  }

  predicate OnlyLine(lines: seq<Bytes>, line: Bytes) {
    forall l :: l in lines ==> l == line
  }

  /** `name` falls between the two parts of an ordered directory. */
  predicate Between(front: Files, name: Name, back: Files) {
    (forall seg :: seg in front ==> Before(seg.name, name)) &&
    (forall seg :: seg in back ==> Before(name, seg.name))
  }

  lemma AllAfter(files: Files, name: Name)
    requires Ordered(files) && files != [] && Before(name, files[0].name)
    ensures Between([], name, files)
  {
    forall f | f in files ensures Before(name, f.name) {
      var i :| 0 <= i < |files| && files[i] == f;
      if i > 0 { assert Before(files[0].name, files[i].name); }
    }
  }

  lemma TailWithout(files: Files, name: Name)
    requires files != [] && !Exists(files, name)
    ensures !Exists(files[1..], name) && files[0].name != name
  {
    forall i | 0 <= i < |files[1..]| ensures files[1..][i].name != name {
      assert files[i + 1].name != name;
    }
  }

  lemma {:induction false} InsertBetween(files: Files, seg: Segment) returns (front: Files, back: Files)
    requires Ordered(files) && !Exists(files, seg.name)
    ensures files == front + back && Between(front, seg.name, back)
    ensures Insert(files, seg) == front + [seg] + back
  {
    hide Ordered, Exists;
    if files == [] {
      front, back := [], [];
    } else if Before(seg.name, files[0].name) {
      front, back := [], files;
      AllAfter(files, seg.name);
    } else {
      OrderedTail(files);
      TailWithout(files, seg.name);
      var rest: Files;
      rest, back := InsertBetween(files[1..], seg);
      front := [files[0]] + rest;
      assert files == [files[0]] + files[1..];
      assert [files[0]] + (rest + [seg] + back) == front + [seg] + back;
    }
  }

  lemma {:induction false} ExtendBetween(front: Files, seg: Segment, back: Files, bytes: Bytes)
    requires forall f :: f in front ==> f.name != seg.name
    ensures Extend(front + [seg] + back, seg.name, bytes) == front + [seg.(data := seg.data + bytes)] + back
  {
    if front == [] {
      assert front + [seg] + back == [seg] + back;
      assert front + [seg.(data := seg.data + bytes)] + back == [seg.(data := seg.data + bytes)] + back;
    } else {
      assert front[0] in front;
      assert (front + [seg] + back)[1..] == front[1..] + [seg] + back;
      ExtendBetween(front[1..], seg, back, bytes);
      assert front == [front[0]] + front[1..];
    }
  }

  lemma {:induction false} RotateIff(lines: seq<Bytes>, line: Bytes)
    ensures [line] + lines == lines + [line] <==> OnlyLine(lines, line)
  {
    if [line] + lines == lines + [line] {
      RotateSame(lines, line, |lines|);
    } else if OnlyLine(lines, line) {
      forall k | 0 <= k <= |lines| ensures ([line] + lines)[k] == (lines + [line])[k] {
        assert k > 0 ==> lines[k - 1] in lines;
        assert k < |lines| ==> lines[k] in lines;
      }
    }
  }

  lemma {:induction false} RotateSame(lines: seq<Bytes>, line: Bytes, n: nat)
    requires [line] + lines == lines + [line] && n <= |lines|
    ensures forall k :: 0 <= k < n ==> lines[k] == line
  {
    if n > 0 {
      RotateSame(lines, line, n - 1);
      assert ([line] + lines)[n - 1] == (lines + [line])[n - 1];
    }
  }

  lemma SuffixRotateIff(a: seq<Bytes>, b: seq<Bytes>, log: seq<Bytes>, line: Bytes)
    requires IsSuffix(a + b, log)
    ensures IsSuffix(a + [line] + b, log + [line]) <==> OnlyLine(b, line)
  {
    hide OnlyLine;
    RotateIff(b, line);
    var n := |log| - |a + b|;
    assert log[n..] == a + b;
    assert (log + [line])[n..] == a + (b + [line]);
    assert a + [line] + b == a + ([line] + b);
    if a + ([line] + b) == a + (b + [line]) {
      assert [line] + b == (a + ([line] + b))[|a|..];
      assert b + [line] == (a + (b + [line]))[|a|..];
    }
  }

  lemma {:induction false} AllLinesOnly(cfg: Config, files: Files, line: Bytes)
    ensures OnlyLine(AllLines(cfg, files), line) <==>
            forall seg :: seg in files ==> OnlyLine(KeptLines(seg.data, cfg.objects), line)
  {
    hide KeptLines;
    if files != [] {
      AllLinesOnly(cfg, files[1..], line);
      assert files == [files[0]] + files[1..];
      var first, rest := KeptLines(files[0].data, cfg.objects), AllLines(cfg, files[1..]);
      assert OnlyLine(first + rest, line) <==> OnlyLine(first, line) && OnlyLine(rest, line) by {
        OnlyConcat(first, rest, line);
      }
    }
  }

  lemma OnlyConcat(a: seq<Bytes>, b: seq<Bytes>, line: Bytes)
    ensures OnlyLine(a + b, line) <==> OnlyLine(a, line) && OnlyLine(b, line)
  {
    if OnlyLine(a + b, line) {
      forall l | l in a ensures l == line { assert l in a + b; }
      forall l | l in b ensures l == line { assert l in a + b; }
    }
  }

  lemma LaterIsBack(cfg: Config, front: Files, name: Name, back: Files, line: Bytes)
    requires Between(front, name, back)
    ensures LaterHoldOnly(cfg, front + back, name, line) <==> OnlyLine(AllLines(cfg, back), line)
  {
    hide OnlyLine, KeptLines;
    AllLinesOnly(cfg, back, line);
    var files := front + back;
    if LaterHoldOnly(cfg, files, name, line) {
      forall seg | seg in back ensures OnlyLine(KeptLines(seg.data, cfg.objects), line) {
        var i :| 0 <= i < |back| && back[i] == seg;
        assert files[|front| + i] == seg;
      }
    } else {
      var i :| 0 <= i < |files| && Before(name, files[i].name) &&
        !OnlyLine(KeptLines(files[i].data, cfg.objects), line);
      assert files[i] in back;
    }
  }

  lemma FreshLines(cfg: Config, front: Files, seg: Segment, back: Files, text: Bytes)
    requires seg.data == [] && Encoded(text, cfg.objects)
    ensures AllLines(cfg, front + [seg.(data := seg.data + (text + [LF]))] + back) ==
            AllLines(cfg, front) + [text + [LF]] + AllLines(cfg, back)
  {
    hide KeptLines;
    var line := text + [LF];
    var full := seg.(data := [] + line);
    EncodedLine(text, cfg.objects);
    assert [] + line == line;
    AllLinesConcat(cfg, front + [full], back);
    AllLinesSnoc(cfg, front, full);
  }

  /** What is retained after a record opens a fresh segment is still a suffix of
      everything written exactly when no segment that sorts after the fresh one holds
      a different record: the order of names, not of writes, decides. */
  lemma FreshSegmentInOrderIff(cfg: Config, s: State, text: Bytes, disk: Disk, now: nat, log: seq<Bytes>)
    requires Inv(cfg, s, log) && s.recoveryChecked && Encoded(text, cfg.objects)
    requires NeedsNewSegment(cfg, s, |text| + 1) && !Exists(s.files, NextName(s, now))
    requires PlanFor(cfg, s.files, disk).Ok?
    requires HasRoom(PlanFor(cfg, s.files, disk).value, UsageBytes(s.files), |text| + 1)
    ensures var o := Store(cfg, s, text + [LF], disk, now);
            o.result.Ok? &&
            (IsSuffix(AllLines(cfg, o.state.files), log + [text + [LF]]) <==>
             LaterHoldOnly(cfg, s.files, NextName(s, now), text + [LF]))
  {
    hide KeptLines, ComputeStoragePlan, LaterHoldOnly, OnlyLine;
    var line := text + [LF];
    var seg := Segment(NextName(s, now), []);
    var front, back := InsertBetween(s.files, seg);
    ExtendBetween(front, seg, back, line);
    FreshLines(cfg, front, seg, back, text);
    AllLinesConcat(cfg, front, back);
    SuffixRotateIff(AllLines(cfg, front), AllLines(cfg, back), log, line);
    LaterIsBack(cfg, front, seg.name, back, line);
    FreshStored(cfg, s, line, disk, now);
  }

  lemma FreshStored(cfg: Config, s: State, line: Bytes, disk: Disk, now: nat)
    requires NeedsNewSegment(cfg, s, |line|) && !Exists(s.files, NextName(s, now))
    requires PlanFor(cfg, s.files, disk).Ok?
    requires HasRoom(PlanFor(cfg, s.files, disk).value, UsageBytes(s.files), |line|)
    ensures var o := Store(cfg, s, line, disk, now);
            o.result.Ok? &&
            o.state.files == Extend(Insert(s.files, Segment(NextName(s, now), [])), NextName(s, now), line)
  {
    hide ComputeStoragePlan, Insert, Extend, WriteImages;
  }

  /** A record that goes to the segment already open needs no name. */
  lemma OpenSegmentInOrder(cfg: Config, s: State, text: Bytes, disk: Disk, now: nat, log: seq<Bytes>)
    requires Inv(cfg, s, log) && s.recoveryChecked && Encoded(text, cfg.objects)
    requires !NeedsNewSegment(cfg, s, |text| + 1) && PlanFor(cfg, s.files, disk).Ok?
    requires HasRoom(PlanFor(cfg, s.files, disk).value, UsageBytes(s.files), |text| + 1)
    ensures var step := WriteStep(cfg, s, text + [LF], PlanFor(cfg, s.files, disk).value.mode, now);
            step.result.Ok? && IsSuffix(AllLines(cfg, step.state.files), log + [text + [LF]])
  {
    hide KeptLines, ComputeStoragePlan;
    SuffixOfDrop(AllLines(cfg, s.files), AllLines(cfg, s.files), 0);
    var o := WriteCurrent(cfg, s, s, text, PlanFor(cfg, s.files, disk).value.mode, disk, log);
  }

  /** Writing what there is room for, wherever it goes. */
  lemma WriteInOrderIff(cfg: Config, s: State, text: Bytes, disk: Disk, now: nat, log: seq<Bytes>)
    requires Inv(cfg, s, log) && s.recoveryChecked && Encoded(text, cfg.objects)
    requires PlanFor(cfg, s.files, disk).Ok?
    requires HasRoom(PlanFor(cfg, s.files, disk).value, UsageBytes(s.files), |text| + 1)
    requires WriteStep(cfg, s, text + [LF], PlanFor(cfg, s.files, disk).value.mode, now).result.Ok?
    ensures var step := WriteStep(cfg, s, text + [LF], PlanFor(cfg, s.files, disk).value.mode, now);
            IsSuffix(AllLines(cfg, step.state.files), log + [text + [LF]]) <==> FilesInOrder(cfg, s, text + [LF], now)
  {
    hide KeptLines, ComputeStoragePlan, LaterHoldOnly, IsSuffix;
    if NeedsNewSegment(cfg, s, |text| + 1) {
      NewNameFree(cfg, s, text + [LF], PlanFor(cfg, s.files, disk).value.mode, now);
      RoomAtOnce(cfg, s, |text| + 1, disk);
      StoreUnfold(cfg, s, text + [LF], disk, now, EnsureCapacity(cfg, s, |text| + 1, disk));
      FreshSegmentInOrderIff(cfg, s, text, disk, now, log);
    } else {
      OpenSegmentInOrder(cfg, s, text, disk, now, log);
    }
  }

  /** The record goes to the open segment, or to a fresh one with nothing else filed
      after it. */
  predicate FilesInOrder(cfg: Config, s: State, line: Bytes, now: nat) {
    !NeedsNewSegment(cfg, s, |line|) || LaterHoldOnly(cfg, s.files, NextName(s, now), line)
  }

  lemma NewNameFree(cfg: Config, s: State, line: Bytes, mode: Mode, now: nat)
    requires NeedsNewSegment(cfg, s, |line|) && WriteStep(cfg, s, line, mode, now).result.Ok?
    ensures !Exists(s.files, NextName(s, now))
  {
    hide Exists;
  }

  lemma RoomAtOnce(cfg: Config, s: State, incoming: nat, disk: Disk)
    requires PlanFor(cfg, s.files, disk).Ok?
    requires HasRoom(PlanFor(cfg, s.files, disk).value, UsageBytes(s.files), incoming)
    ensures EnsureCapacity(cfg, s, incoming, disk) == Outcome(s, [], PlanFor(cfg, s.files, disk))
  {
  }

  /** For every append that succeeds, pruning or not: what is retained is still a suffix
      of everything written exactly when the record goes to the open segment, or no
      segment left by pruning that sorts after the fresh one holds a different record. */
  lemma AppendInOrderIff(cfg: Config, s: State, text: Bytes, disk: Disk, now: nat, log: seq<Bytes>)
    requires Inv(cfg, s, log) && Encoded(text, cfg.objects) && Append(cfg, s, text, disk, now).result.Ok?
    ensures var o := Append(cfg, s, text, disk, now);
            var room := EnsureCapacity(cfg, RepairAll(cfg, s).0, |text| + 1, disk).state;
            IsSuffix(AllLines(cfg, o.state.files), log + [text + [LF]]) <==> FilesInOrder(cfg, room, text + [LF], now)
  {
    hide KeptLines, ComputeStoragePlan, FilesInOrder, IsSuffix, WriteStep, EnsureCapacity, Store, RepairAll;
    var s', images := RepairAllSafe(cfg, s, log);
    AppendUnfold(cfg, s, text, disk, now, s', images);
    var room := PruningSafe(cfg, s', |text| + 1, disk, log);
    StoreUnfold(cfg, s', text + [LF], disk, now, room);
    WriteInOrderIff(cfg, room.state, text, disk, now, log);
  }

  /** A clock that gives the newest name asks nothing more of an append. */
  lemma NewestNameSuffices(cfg: Config, s: State, text: Bytes, disk: Disk, now: nat, log: seq<Bytes>)
    requires Inv(cfg, s, log) && NamesIncrease(s, now)
    ensures AppendInOrder(cfg, s, text, disk, now)
  {
    hide KeptLines, ComputeStoragePlan, NeedsNewSegment;
    var s', images := RepairAllSafe(cfg, s, log);
    var dropped, room := PrunesFewestOldest(cfg, s', |text| + 1, disk);
    forall i | 0 <= i < |room.state.files| ensures Before(room.state.files[i].name, NextName(room.state, now)) {
      assert room.state.files[i] == s'.files[dropped + i];
    }
  }

  // ------------------------------------------------------- a clock step back

  lemma {:induction false} RepairFindsNothing(cfg: Config, s: State, i: nat)
    requires AllClean(cfg, s.files)
    ensures RepairFrom(cfg, s, i) == (s.(recoveryChecked := true), [])
    decreases |s.files| - i
  {
    hide Repaired;
    if i < |s.files| {
      assert s.files[i] in s.files;
      RepairFindsNothing(cfg, s, i + 1);
    }
  }

  /** A new instance over clean segments appends to a fresh one. */
  lemma AppendReopened(cfg: Config, files: Files, text: Bytes, disk: Disk, now: nat)
    requires AllClean(cfg, files) && !Exists(files, Name(now, 1)) && |text| + 1 <= cfg.maxRecordBytes
    requires PlanFor(cfg, files, disk).Ok?
    requires HasRoom(PlanFor(cfg, files, disk).value, UsageBytes(files), |text| + 1)
    ensures var o := Append(cfg, Reopen(files), text, disk, now);
            o.result.Ok? &&
            o.state.files == Extend(Insert(files, Segment(Name(now, 1), [])), Name(now, 1), text + [LF])
  {
    hide Insert, Extend, PlanFor, UsageBytes, Exists, AllClean, Store, Append, RepairFrom, HasRoom;
    var s := Reopen(files).(recoveryChecked := true);
    RepairFindsNothing(cfg, Reopen(files), 0);
    AppendUnfold(cfg, Reopen(files), text, disk, now, s, []);
    FreshStored(cfg, s, text + [LF], disk, now);
  }

  lemma LessRoom(cfg: Config, files: Files, incoming: nat, disk: Disk)
    requires PlanFor(cfg, [], disk).Ok? && HasRoom(PlanFor(cfg, [], disk).value, 0, UsageBytes(files) + incoming)
    ensures PlanFor(cfg, files, disk).Ok?
    ensures HasRoom(PlanFor(cfg, files, disk).value, UsageBytes(files), incoming)
  {
    QuotaAndReserveFit(disk.total, disk.total - disk.other - UsageBytes([]), cfg.requestedPercent, cfg.reservePercent);
  }

  lemma RoomForFirst(cfg: Config, first: nat, second: nat, disk: Disk)
    requires PlanFor(cfg, [], disk).Ok? && HasRoom(PlanFor(cfg, [], disk).value, 0, first + second)
    ensures UsageBytes([]) == 0 && HasRoom(PlanFor(cfg, [], disk).value, 0, first)
  {
  }

  lemma OneLineClean(text: Bytes, objects: Recogniser)
    requires Encoded(text, objects)
    ensures Clean(text + [LF], objects)
  {
    hide KeptLines;
    EncodedLine(text, objects);
    FlattenSingle(text + [LF]);
  }

  lemma FirstFile(name: Name, line: Bytes)
    ensures Extend(Insert([], Segment(name, [])), name, line) == [Segment(name, line)]
  {
    assert [] + line == line;
  }

  lemma FiledBefore(name: Name, line: Bytes, seg: Segment)
    requires Before(name, seg.name)
    ensures Extend(Insert([seg], Segment(name, [])), name, line) == [Segment(name, line), seg]
  {
    assert [] + line == line;
    assert [Segment(name, [])] + [seg] == [Segment(name, []), seg];
    assert [Segment(name, []), seg][1..] == [seg];
  }

  lemma UsageOfOne(seg: Segment)
    ensures UsageBytes([seg]) == |seg.data|
  {
    assert UsageBytes([seg]) == |seg.data| + UsageBytes([]);
  }

  lemma LinesOfTwo(cfg: Config, a: Segment, b: Segment)
    ensures AllLines(cfg, [a, b]) == KeptLines(a.data, cfg.objects) + KeptLines(b.data, cfg.objects)
  {
    hide KeptLines;
    AllLinesSnoc(cfg, [a], b);
    AllLinesSnoc(cfg, [], a);
    assert [] + [a] == [a] && [a] + [b] == [a, b];
  }

  /** The run that misfiles: a record, a restart, and another record on a clock that has
      stepped back. */
  function SteppedBack(a: Bytes, b: Bytes, disk: Disk, later: nat, earlier: nat): seq<Event> {
    [AppendEvent(a, disk, later), Restart, AppendEvent(b, disk, earlier)]
  }

  lemma SteppedBackRun(cfg: Config, a: Bytes, b: Bytes, disk: Disk, later: nat, earlier: nat, s1: State, s2: State)
    requires s1 == Append(cfg, Reopen([]), a, disk, later).state
    requires Append(cfg, Reopen([]), a, disk, later).result.Ok?
    requires s2 == Append(cfg, Reopen(s1.files), b, disk, earlier).state
    requires Append(cfg, Reopen(s1.files), b, disk, earlier).result.Ok?
    ensures var events := SteppedBack(a, b, disk, later, earlier);
            Run(cfg, Reopen([]), events) == s2 && RunLog(cfg, Reopen([]), events) == [a + [LF], b + [LF]]
  {
    hide Append, Reopen;
    var events := SteppedBack(a, b, disk, later, earlier);
    RunUnfold(cfg, Reopen([]), events);
    assert events[1..] == [Restart, events[2]];
    RunUnfold(cfg, s1, [Restart, events[2]]);
    assert [Restart, events[2]][1..] == [events[2]];
    RunUnfold(cfg, Reopen(s1.files), [events[2]]);
    assert [events[2]][1..] == [];
  }

  /** Any two records that fit, the second on an earlier clock after a restart: the
      retained lines come out in the order of the names, the reverse of the writes. */
  lemma ClockStepsBack(cfg: Config, a: Bytes, b: Bytes, disk: Disk, later: nat, earlier: nat)
    requires Encoded(a, cfg.objects) && Encoded(b, cfg.objects) && earlier < later
    requires |a| + 1 <= cfg.maxRecordBytes && |b| + 1 <= cfg.maxRecordBytes
    requires PlanFor(cfg, [], disk).Ok? && HasRoom(PlanFor(cfg, [], disk).value, 0, |a| + |b| + 2)
    ensures var events := SteppedBack(a, b, disk, later, earlier);
            RunLog(cfg, Reopen([]), events) == [a + [LF], b + [LF]] &&
            AllLines(cfg, Run(cfg, Reopen([]), events).files) == [b + [LF], a + [LF]]
  {
    hide KeptLines, PlanFor, Append, Encoded, Extend, Insert, UsageBytes, HasRoom;
    var first, second := Segment(Name(later, 1), a + [LF]), Segment(Name(earlier, 1), b + [LF]);
    RoomForFirst(cfg, |a| + 1, |b| + 1, disk);
    AppendReopened(cfg, [], a, disk, later);
    var s1 := Append(cfg, Reopen([]), a, disk, later).state;
    FirstFile(first.name, first.data);
    assert s1.files == [first];
    EncodedLine(a, cfg.objects);
    EncodedLine(b, cfg.objects);
    OneLineClean(a, cfg.objects);
    UsageOfOne(first);
    LessRoom(cfg, [first], |b| + 1, disk);
    AppendReopened(cfg, [first], b, disk, earlier);
    var s2 := Append(cfg, Reopen([first]), b, disk, earlier).state;
    FiledBefore(second.name, second.data, first);
    assert s2.files == [second, first];
    SteppedBackRun(cfg, a, b, disk, later, earlier, s1, s2);
    LinesOfTwo(cfg, second, first);
  }

  /** One such run, byte for byte: nothing here is out of range, and what is retained is
      not a suffix of what was written. */
  lemma ClockStepsBackExample() returns (cfg: Config, events: seq<Event>)
    ensures PercentsAllowed(cfg.requestedPercent, cfg.reservePercent)
    ensures !IsSuffix(AllLines(cfg, Run(cfg, Reopen([]), events).files), RunLog(cfg, Reopen([]), events))
  {
    hide Run, RunLog, AllLines;
    var a: Bytes, b: Bytes := [123, 125], [123, 32, 125];
    cfg := Config(15.0, 10.0, 1024, 1024, iset{a, b});
    var disk := Disk(1000, 0);
    events := SteppedBack(a, b, disk, 5, 3);
    assert UsageBytes([]) == 0;
    assert b[1..] == [32, 125];
    assert PlanFor(cfg, [], disk) == Ok(StoragePlan(1000, 1000, 150, 100, Normal));
    ClockStepsBack(cfg, a, b, disk, 5, 3);
    assert [b + [LF], a + [LF]][0] != [a + [LF], b + [LF]][0];
  }
}
