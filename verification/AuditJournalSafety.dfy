/** Writer and verifier agree, over every run. */
module AuditJournalSafety {
  import opened Collections
  import opened AuditVerifier
  import opened Texts
  import opened AuditJournalSpec

  /** What the uninterpreted parts must satisfy: digests are hex strings, and a
      printed envelope is one clean line that parses back to itself. */
  ghost predicate CodecLaws(c: Codec) {
    (forall p, r :: ValidHash(c.hash(p, r))) &&
    (forall e :: CleanLine(c.render(e)) &&
      c.parse(c.render(e)) == Object(true, if e.previousHash.None? then NullField else Text(e.previousHash.value),
                                     Some(Event(e.event)), Text(e.entryHash)))
  }

  predicate LegalHead(head: Option<string>) {
    head.None? || ValidHash(head.value)
  }

  /** `head` is the hash a next entry must name to follow `lines`. */
  predicate HeadFor(c: Codec, head: Option<string>, lines: seq<string>) {
    lines != [] ==> LastHash(c, lines) == head
  }

  lemma LineIsEntry(c: Codec, head: Option<string>, record: EventRecord)
    requires CodecLaws(c) && LegalHead(head)
    ensures var line := LineFor(c, head, record);
            IsEntry(c, line) && CleanLine(line) && PreviousHash(c, line) == head &&
            EntryHash(c, line) == c.hash(head, Event(record)) && RecordOf(c, line) == Event(record)
  {
    var e := Envelop(c, head, record);
    assert CleanLine(c.render(e));
    assert ValidHash(c.hash(head, Event(record)));
  }

  lemma LastHashLegal(c: Codec, lines: seq<string>)
    ensures LegalHead(LastHash(c, lines))
  {
  }

  lemma ChainGrows(c: Codec, lines: seq<string>, head: Option<string>, record: EventRecord)
    requires CodecLaws(c) && LegalHead(head) && IsChain(c, lines) && HeadFor(c, head, lines)
    ensures var line := LineFor(c, head, record);
            IsChain(c, lines + [line]) && LastHash(c, lines + [line]) == Some(c.hash(head, Event(record)))
  {
    var line := LineFor(c, head, record);
    LineIsEntry(c, head, record);
    ChainSnoc(c, lines, line);
    if lines != [] {
      assert IsLegacy(c, lines[|lines| - 1]) || IsEntry(c, lines[|lines| - 1]);
    }
  }

  // ------------------------------------------------------- the current file

  function Current(j: Journal): seq<string>
    requires j.files != []
  {
    Lines(Content(j.files[0]))
  }

  /** The file being written is a newline-terminated chain ending in the head. */
  predicate CurrentInv(c: Codec, j: Journal) {
    j.files != [] && Terminated(Content(j.files[0])) && LegalHead(j.head) && IsChain(c, Current(j)) &&
    (j.initialized ==> HeadFor(c, j.head, Current(j))) && (!j.initialized ==> j.head.None?)
  }

  lemma BlankHasNoLines(text: string)
    requires Trim(text) == []
    ensures Lines(text) == []
  {
    BlankIff(text);
    SpacesHaveNoLines(text);
  }

  predicate AllSpaces(pieces: seq<string>) {
    forall k :: 0 <= k < |pieces| ==> Blank(pieces[k])
  }

  lemma {:induction false} SplitOfSpaces(text: string)
    requires Blank(text)
    ensures AllSpaces(Split(text, '\n'))
    decreases |text|
  {
    var i := IndexOf(text, '\n');
    if i < |text| {
      assert Blank(text[..i]) && Blank(text[i + 1..]);
      SplitOfSpaces(text[i + 1..]);
    }
  }

  lemma {:induction false} TrimAllSpaces(pieces: seq<string>)
    requires AllSpaces(pieces)
    ensures TrimAll(pieces) == []
  {
    if pieces != [] {
      BlankIff(pieces[0]);
      TrimAllSpaces(pieces[1..]);
    }
  }

  lemma SpacesHaveNoLines(text: string)
    requires Blank(text)
    ensures Lines(text) == []
  {
    SplitOfSpaces(text);
    TrimAllSpaces(Split(text, '\n'));
  }

  /** A chain never fails the writer's own check, and the head it finds is the hash
      of the last entry. */
  lemma InitializeAgrees(c: Codec, j: Journal)
    requires CurrentInv(c, j)
    ensures var ready := Initialize(c, j);
            ready.initialized && CurrentInv(c, ready) && ready.files == j.files &&
            ready.integrityErrors == j.integrityErrors &&
            ready.head == if j.initialized then j.head else LastHash(c, Current(j))
  {
    VerifierAcceptsChains(c, Current(j));
    LastHashLegal(c, Current(j));
    if Trim(Content(j.files[0])) == [] { BlankHasNoLines(Content(j.files[0])); }
  }

  lemma AppendLine(text: string, line: string)
    requires Terminated(text) && CleanLine(line)
    ensures Lines(text + (line + "\n")) == Lines(text) + [line] && Terminated(text + (line + "\n"))
  {
    LinesConcat(text, line + "\n");
    LineOfClean(line);
  }

  lemma RoomSafe(c: Codec, maxBytes: nat, j: Journal, line: string)
    requires CurrentInv(c, j) && j.initialized
    ensures var room := MakeRoom(maxBytes, j, line);
            CurrentInv(c, room) && room.initialized && HeadFor(c, j.head, Current(room)) &&
            room.integrityErrors == j.integrityErrors && room.written == j.written
  {
    hide ByteLength, Lines;
    SpacesHaveNoLines("");
  }

  /** The state a successful write leaves. */
  function Wrote(j: Journal, line: string, hash: string): Journal
    requires j.files != []
  {
    j.(files := j.files[0 := Some(Content(j.files[0]) + line)], head := Some(hash), written := j.written + 1)
  }

  lemma WriteSafe(c: Codec, room: Journal, head: Option<string>, record: EventRecord)
    requires CodecLaws(c) && LegalHead(head) && CurrentInv(c, room) && room.initialized
    requires HeadFor(c, head, Current(room))
    ensures var line := LineFor(c, head, record);
            var j' := Wrote(room, line + "\n", c.hash(head, Event(record)));
            CurrentInv(c, j') && LastHash(c, Current(j')) == j'.head && Current(j') == Current(room) + [line]
  {
    var line := LineFor(c, head, record);
    LineIsEntry(c, head, record);
    AppendLine(Content(room.files[0]), line);
    ChainGrows(c, Current(room), head, record);
  }

  lemma AppendUnfold(c: Codec, maxBytes: nat, j: Journal, record: EventRecord, o: Outcome)
    requires j.files != [] && Initialize(c, j).initialized
    ensures var ready := Initialize(c, j);
            var line := LineFor(c, ready.head, record) + "\n";
            var room := MakeRoom(maxBytes, ready, line);
            room.files != [] &&
            Append(c, maxBytes, j, record, o) ==
            if Stops(maxBytes, ready, line, o) then Stopped(ready, o.places)
            else if o == Success then Wrote(room, line, c.hash(ready.head, Event(record)))
            else room.(writeErrors := room.writeErrors + 1)
  {
  }

  /** The state a stopped rotation leaves. */
  function Stopped(j: Journal, places: nat): Journal
    requires places <= |j.files|
  {
    j.(files := RotateUpTo(j.files, places), writeErrors := j.writeErrors + 1)
  }

  /** Until its last rename a rotation leaves the file being written alone. */
  lemma StopKeepsCurrent(files: FileTexts, places: nat)
    requires places < |files|
    ensures RotateUpTo(files, places)[0] == files[0]
  {
  }

  lemma StoppedSafe(c: Codec, j: Journal, places: nat)
    requires CurrentInv(c, j) && places < |j.files|
    ensures CurrentInv(c, Stopped(j, places))
  {
    hide RotateUpTo, Lines;
    StopKeepsCurrent(j.files, places);
  }

  /** Every append, successful or not, leaves a current file the verifier accepts; a
      successful one leaves the head equal to the verifier's last hash. */
  lemma CurrentSafe(c: Codec, maxBytes: nat, j: Journal, record: EventRecord, o: Outcome) returns (j': Journal)
    requires CodecLaws(c) && CurrentInv(c, j)
    ensures j' == Append(c, maxBytes, j, record, o)
    ensures CurrentInv(c, j') && j'.initialized && j'.integrityErrors == j.integrityErrors
    ensures o == Success ==> LastHash(c, Current(j')) == j'.head && j'.head.Some? && j'.written == j.written + 1
  {
    hide MakeRoom, RotateUpTo, Lines, Stops;
    InitializeAgrees(c, j);
    AppendUnfold(c, maxBytes, j, record, o);
    var ready := Initialize(c, j);
    var line := LineFor(c, ready.head, record) + "\n";
    if Stops(maxBytes, ready, line, o) {
      StopsAt(maxBytes, ready, line, o);
      StoppedSafe(c, ready, o.places);
      j' := Stopped(ready, o.places);
    } else {
      var room := MakeRoom(maxBytes, ready, line);
      RoomSafe(c, maxBytes, ready, line);
      if o == Success {
        WriteSafe(c, room, ready.head, record);
        j' := Wrote(room, line, c.hash(ready.head, Event(record)));
      } else {
        j' := room.(writeErrors := room.writeErrors + 1);
      }
    }
  }

  lemma StopsAt(maxBytes: nat, j: Journal, line: string, o: Outcome)
    requires j.files != [] && Stops(maxBytes, j, line, o)
    ensures o.RotationStops? && o.places < |j.files|
  {
  }

  // ------------------------------------------------------ all retained files

  /** Lines of the retained files, oldest file first. */
  function JoinedLines(files: FileTexts): seq<string> {
    if files == [] then [] else JoinedLines(files[1..]) + Lines(Content(files[0]))
  }

  function JoinedText(files: FileTexts): string {
    if files == [] then "" else JoinedText(files[1..]) + Content(files[0])
  }

  predicate AllTerminated(files: FileTexts) {
    forall file :: file in files ==> Terminated(Content(file))
  }

  lemma {:induction false} JoinedTextLines(files: FileTexts)
    requires AllTerminated(files)
    ensures Terminated(JoinedText(files)) && Lines(JoinedText(files)) == JoinedLines(files)
  {
    if files == [] {
      SpacesHaveNoLines("");
    } else {
      assert files[0] in files;
      assert AllTerminated(files[1..]) by {
        forall file | file in files[1..] ensures Terminated(Content(file)) { assert file in files; }
      }
      JoinedTextLines(files[1..]);
      LinesConcat(JoinedText(files[1..]), Content(files[0]));
    }
  }

  lemma {:induction false} JoinedConcat(a: FileTexts, b: FileTexts)
    ensures JoinedLines(a + b) == JoinedLines(b) + JoinedLines(a)
  {
    if a == [] {
      assert a + b == b;
    } else {
      assert (a + b)[1..] == a[1..] + b && (a + b)[0] == a[0];
      JoinedConcat(a[1..], b);
      ConcatAssociative(JoinedLines(b), JoinedLines(a[1..]), Lines(Content(a[0])));
    }
  }

  lemma JoinedEmpty(b: FileTexts)
    ensures JoinedLines([None] + b) == JoinedLines(b)
  {
    SpacesHaveNoLines("");
    assert ([None] + b)[1..] == b;
    assert JoinedLines(b) + [] == JoinedLines(b);
  }

  lemma JoinedOldest(oldest: Option<string>)
    ensures JoinedLines([oldest]) == Lines(Content(oldest))
  {
    assert [oldest][1..] == [];
    assert [] + Lines(Content(oldest)) == Lines(Content(oldest));
  }

  /** The retained files joined oldest to newest are one chain, a suffix of `log`,
      and the next entry to be written continues it. */
  predicate JoinedInv(c: Codec, j: Journal, log: seq<string>) {
    CurrentInv(c, j) && |j.files| >= 2 && AllTerminated(j.files) &&
    IsChain(c, JoinedLines(j.files)) && IsSuffix(JoinedLines(j.files), log) &&
    (j.initialized ==> HeadFor(c, j.head, JoinedLines(j.files))) &&
    (!j.initialized ==> HeadFor(c, LastHash(c, Current(j)), JoinedLines(j.files)))
  }

  /** A journal without files starts with nothing. */
  lemma EmptyJournal(c: Codec, files: FileTexts)
    requires |files| >= 2 && forall i :: 0 <= i < |files| ==> files[i] == None
    ensures JoinedInv(c, Reopen(files), [])
  {
    EmptyJoined(files);
    NoneHasNoLines();
  }

  lemma {:induction false} EmptyJoined(files: FileTexts)
    requires forall i :: 0 <= i < |files| ==> files[i] == None
    ensures JoinedLines(files) == []
  {
    NoneHasNoLines();
    if files != [] { EmptyJoined(files[1..]); }
  }

  lemma NoneHasNoLines()
    ensures Lines(Content(None)) == []
  {
    SpacesHaveNoLines("");
  }

  lemma DropKeepsHead(c: Codec, lines: seq<string>, k: nat, head: Option<string>, log: seq<string>)
    requires IsChain(c, lines) && k <= |lines| && HeadFor(c, head, lines) && IsSuffix(lines, log)
    ensures IsChain(c, lines[k..]) && HeadFor(c, head, lines[k..]) && IsSuffix(lines[k..], log)
  {
    ChainDrop(c, lines, k);
    SuffixOfDrop(lines, log, k);
  }

  /** Wherever a rotation stops, the joined lines have lost those of the oldest file and
      nothing else; none if it stops before anything. */
  lemma RotationLosesOldest(files: FileTexts, places: nat) returns (lost: seq<string>)
    requires places <= |files| && files != []
    ensures lost == if places == 0 then [] else Lines(Content(files[|files| - 1]))
    ensures JoinedLines(files) == lost + JoinedLines(RotateUpTo(files, places))
  {
    hide Lines, Content;
    if places == 0 {
      lost := [];
      assert lost + JoinedLines(files) == JoinedLines(files);
    } else {
      var n := |files|;
      var below, above, oldest := files[..n - places], files[n - places..n - 1], files[n - 1];
      assert files == below + (above + [oldest]);
      lost := Lines(Content(oldest));
      JoinedConcat(below, above + [oldest]);
      JoinedConcat(above, [oldest]);
      JoinedOldest(oldest);
      JoinedConcat(below, [None] + above);
      JoinedEmpty(above);
      ConcatAssociative(lost, JoinedLines(above), JoinedLines(below));
    }
  }

  lemma RotatedTerminated(files: FileTexts, places: nat)
    requires places <= |files| && AllTerminated(files)
    ensures AllTerminated(RotateUpTo(files, places))
  {
    forall file | file in RotateUpTo(files, places) ensures Terminated(Content(file)) {
      assert file == None || file in files;
    }
  }

  lemma JoinedOver(c: Codec, j: Journal, lines: seq<string>, log: seq<string>)
    requires CurrentInv(c, j) && |j.files| >= 2 && AllTerminated(j.files) && j.initialized
    requires JoinedLines(j.files) == lines && IsChain(c, lines) && HeadFor(c, j.head, lines) && IsSuffix(lines, log)
    ensures JoinedInv(c, j, log)
  {
  }

  lemma RotatedKeeps(c: Codec, files: FileTexts, places: nat, head: Option<string>, log: seq<string>)
    requires places <= |files| && |files| >= 2 && AllTerminated(files) && IsChain(c, JoinedLines(files))
    requires HeadFor(c, head, JoinedLines(files)) && IsSuffix(JoinedLines(files), log)
    ensures var rotated := RotateUpTo(files, places);
            AllTerminated(rotated) && IsChain(c, JoinedLines(rotated)) && HeadFor(c, head, JoinedLines(rotated)) &&
            IsSuffix(JoinedLines(rotated), log)
  {
    hide RotateUpTo, JoinedLines, IsChain, HeadFor, IsSuffix, AllTerminated;
    var lost := RotationLosesOldest(files, places);
    RotatedTerminated(files, places);
    DropKeepsHead(c, JoinedLines(files), |lost|, head, log);
    assert JoinedLines(files)[|lost|..] == JoinedLines(RotateUpTo(files, places));
  }

  lemma JoinedRotate(c: Codec, j: Journal, log: seq<string>)
    requires JoinedInv(c, j, log) && j.initialized && CurrentInv(c, Rotate(j))
    ensures JoinedInv(c, Rotate(j), log)
  {
    hide CurrentInv, JoinedLines, AllTerminated, IsChain, HeadFor, IsSuffix, RotateUpTo;
    RotatedKeeps(c, j.files, |j.files|, j.head, log);
    JoinedOver(c, Rotate(j), JoinedLines(Rotate(j).files), log);
  }

  lemma JoinedStopped(c: Codec, j: Journal, places: nat, log: seq<string>)
    requires JoinedInv(c, j, log) && j.initialized && places < |j.files|
    ensures JoinedInv(c, Stopped(j, places), log)
  {
    hide CurrentInv, JoinedLines, AllTerminated, IsChain, HeadFor, IsSuffix, RotateUpTo;
    StoppedSafe(c, j, places);
    RotatedKeeps(c, j.files, places, j.head, log);
    JoinedOver(c, Stopped(j, places), JoinedLines(Stopped(j, places).files), log);
  }

  lemma JoinedRoom(c: Codec, maxBytes: nat, j: Journal, line: string, log: seq<string>) returns (room: Journal)
    requires JoinedInv(c, j, log) && j.initialized
    ensures room == MakeRoom(maxBytes, j, line)
    ensures JoinedInv(c, room, log) && room.initialized && room.head == j.head
  {
    hide RotateUpTo, JoinedLines, ByteLength;
    room := MakeRoom(maxBytes, j, line);
    if MustRotate(maxBytes, j, line) {
      RoomSafe(c, maxBytes, j, line);
      JoinedRotate(c, j, log);
    }
  }

  lemma WrittenFiles(files: FileTexts, line: string)
    requires files != [] && AllTerminated(files) && CleanLine(line)
    ensures var files' := files[0 := Some(Content(files[0]) + (line + "\n"))];
            AllTerminated(files') && JoinedLines(files') == JoinedLines(files) + [line]
  {
    var files' := files[0 := Some(Content(files[0]) + (line + "\n"))];
    AppendLine(Content(files[0]), line);
    assert files'[1..] == files[1..];
    var older, current := JoinedLines(files[1..]), Lines(Content(files[0]));
    assert older + (current + [line]) == (older + current) + [line];
    forall file | file in files' ensures Terminated(Content(file)) {
      assert file == files'[0] || file in files[1..];
    }
  }

  lemma JoinedWrite(c: Codec, room: Journal, record: EventRecord, log: seq<string>) returns (j': Journal)
    requires CodecLaws(c) && JoinedInv(c, room, log) && room.initialized
    ensures j' == Wrote(room, LineFor(c, room.head, record) + "\n", c.hash(room.head, Event(record)))
    ensures JoinedInv(c, j', log + [LineFor(c, room.head, record)])
  {
    var line := LineFor(c, room.head, record);
    WriteSafe(c, room, room.head, record);
    LineIsEntry(c, room.head, record);
    WrittenFiles(room.files, line);
    ChainGrows(c, JoinedLines(room.files), room.head, record);
    SuffixExtend(JoinedLines(room.files), log, [line]);
    j' := Wrote(room, line + "\n", c.hash(room.head, Event(record)));
  }

  lemma JoinedReady(c: Codec, j: Journal, log: seq<string>)
    requires JoinedInv(c, j, log)
    ensures JoinedInv(c, Initialize(c, j), log) && Initialize(c, j).initialized && Initialize(c, j).files == j.files
  {
    InitializeAgrees(c, j);
  }

  lemma JoinedSafe(c: Codec, maxBytes: nat, j: Journal, record: EventRecord, o: Outcome, log: seq<string>)
    returns (j': Journal)
    requires CodecLaws(c) && JoinedInv(c, j, log)
    ensures j' == Append(c, maxBytes, j, record, o)
    ensures JoinedInv(c, j', log + (if o == Success then [LineFor(c, Initialize(c, j).head, record)] else []))
    ensures j'.initialized
  {
    hide JoinedInv, MakeRoom, RotateUpTo, Stops;
    JoinedReady(c, j, log);
    var ready := Initialize(c, j);
    assert j.files != [] by { JoinedFiles(c, j, log); }
    AppendUnfold(c, maxBytes, j, record, o);
    var line := LineFor(c, ready.head, record) + "\n";
    assert log + [] == log;
    if Stops(maxBytes, ready, line, o) {
      StopsAt(maxBytes, ready, line, o);
      JoinedStopped(c, ready, o.places, log);
      j' := Stopped(ready, o.places);
    } else {
      var room := JoinedRoom(c, maxBytes, ready, line, log);
      if o == Success {
        j' := JoinedWrite(c, room, record, log);
      } else {
        j' := room.(writeErrors := room.writeErrors + 1);
        JoinedIgnoresErrors(c, room, log);
      }
    }
  }

  lemma JoinedFiles(c: Codec, j: Journal, log: seq<string>)
    requires JoinedInv(c, j, log)
    ensures |j.files| >= 2
  {
  }

  lemma JoinedIgnoresErrors(c: Codec, j: Journal, log: seq<string>)
    requires JoinedInv(c, j, log)
    ensures JoinedInv(c, j.(writeErrors := j.writeErrors + 1), log)
  {
  }

  // ------------------------------------------------------------------ runs

  datatype Event =
    | AppendEvent(record: EventRecord, outcome: Outcome)
    | Restart

  function After(c: Codec, maxBytes: nat, j: Journal, e: Event): (j': Journal)
    requires j.files != []
    ensures |j'.files| == |j.files|
  {
    match e
    case AppendEvent(record, o) => Append(c, maxBytes, j, record, o)
    case Restart => Reopen(j.files)
  }

  function Run(c: Codec, maxBytes: nat, j: Journal, events: seq<Event>): (j': Journal)
    requires j.files != []
    ensures |j'.files| == |j.files|
    decreases |events|
  {
    if events == [] then j else Run(c, maxBytes, After(c, maxBytes, j, events[0]), events[1..])
  }

  /** From any newline-terminated current file the verifier accepts, whatever the
      other files hold: after every run of appends, failed appends and restarts the
      current file verifies, no integrity error was counted, and once something was
      appended the verifier's last hash is the head in memory. */
  lemma {:induction false} CurrentFileVerifies(c: Codec, maxBytes: nat, j: Journal, events: seq<Event>)
    returns (j': Journal)
    requires CodecLaws(c) && CurrentInv(c, j)
    ensures j' == Run(c, maxBytes, j, events)
    ensures CurrentInv(c, j')
    ensures VerifyLines(c, Current(j')).Accepted?
    ensures j'.initialized && Current(j') != [] ==> VerifyLines(c, Current(j')).scan.lastHash == j'.head
    ensures Restart !in events ==> j'.integrityErrors == j.integrityErrors
    decreases |events|
  {
    if events == [] {
      j' := j;
      VerifierAcceptsChains(c, Current(j));
    } else {
      var next := CurrentStep(c, maxBytes, j, events[0]);
      j' := CurrentFileVerifies(c, maxBytes, next, events[1..]);
      assert forall e :: e in events[1..] ==> e in events;
    }
  }

  lemma CurrentStep(c: Codec, maxBytes: nat, j: Journal, e: Event) returns (next: Journal)
    requires CodecLaws(c) && CurrentInv(c, j)
    ensures next == After(c, maxBytes, j, e) && CurrentInv(c, next)
    ensures e != Restart ==> next.integrityErrors == j.integrityErrors
  {
    match e
    case AppendEvent(record, o) => next := CurrentSafe(c, maxBytes, j, record, o);
    case Restart => next := Reopen(j.files);
  }

  /** A restart is clean when the current file still holds the newest entry: it is
      not the empty file left by a rotation whose write then failed. */
  predicate CleanRestart(c: Codec, j: Journal)
    requires j.files != []
  {
    Current(j) != [] || LastHash(c, JoinedLines(j.files)) == None
  }

  predicate RunAllowed(c: Codec, maxBytes: nat, j: Journal, events: seq<Event>)
    requires j.files != []
    decreases |events|
  {
    events == [] ||
    ((events[0] == Restart ==> CleanRestart(c, j)) &&
     RunAllowed(c, maxBytes, After(c, maxBytes, j, events[0]), events[1..]))
  }

  /** The lines stored by one event. */
  function Stored(c: Codec, j: Journal, e: Event): seq<string>
    requires j.files != []
  {
    match e
    case AppendEvent(record, o) =>
      if o == Success && Initialize(c, j).initialized then [LineFor(c, Initialize(c, j).head, record)] else []
    case Restart => []
  }

  function RunLog(c: Codec, maxBytes: nat, j: Journal, events: seq<Event>): seq<string>
    requires j.files != []
    decreases |events|
  {
    if events == [] then []
    else Stored(c, j, events[0]) + RunLog(c, maxBytes, After(c, maxBytes, j, events[0]), events[1..])
  }

  lemma CurrentEndsJoined(c: Codec, files: FileTexts)
    requires files != [] && Lines(Content(files[0])) != []
    ensures LastHash(c, Lines(Content(files[0]))) == LastHash(c, JoinedLines(files))
  {
    hide Lines, Content;
  }

  lemma RestartSafe(c: Codec, j: Journal, log: seq<string>)
    requires JoinedInv(c, j, log) && CleanRestart(c, j)
    ensures JoinedInv(c, Reopen(j.files), log)
  {
    if Current(j) != [] {
      CurrentEndsJoined(c, j.files);
    }
  }

  lemma JoinedStep(c: Codec, maxBytes: nat, j: Journal, e: Event, log: seq<string>)
    returns (next: Journal, more: seq<string>)
    requires CodecLaws(c) && JoinedInv(c, j, log) && (e == Restart ==> CleanRestart(c, j))
    ensures next == After(c, maxBytes, j, e) && more == Stored(c, j, e)
    ensures JoinedInv(c, next, log + more)
  {
    more := Stored(c, j, e);
    assert log + [] == log;
    match e
    case AppendEvent(record, o) =>
      JoinedReady(c, j, log);
      next := JoinedSafe(c, maxBytes, j, record, o, log);
    case Restart =>
      RestartSafe(c, j, log);
      next := Reopen(j.files);
  }

  lemma JoinedVerifies(c: Codec, j: Journal, log: seq<string>)
    requires JoinedInv(c, j, log)
    ensures VerifyLines(c, Lines(JoinedText(j.files))).Accepted? && IsSuffix(Lines(JoinedText(j.files)), log)
  {
    JoinedTextLines(j.files);
    VerifierAcceptsChains(c, JoinedLines(j.files));
  }

  /** With two or more files: after every run with clean restarts, the retained files
      joined oldest to newest verify as one chain, and their lines are a suffix of
      the starting lines followed by everything stored since. */
  lemma {:induction false} RetainedFilesVerify(c: Codec, maxBytes: nat, j: Journal, events: seq<Event>,
      log: seq<string>)
    returns (j': Journal, log': seq<string>)
    requires CodecLaws(c) && JoinedInv(c, j, log) && RunAllowed(c, maxBytes, j, events)
    ensures j' == Run(c, maxBytes, j, events) && log' == log + RunLog(c, maxBytes, j, events)
    ensures JoinedInv(c, j', log')
    ensures VerifyLines(c, Lines(JoinedText(j'.files))).Accepted?
    ensures IsSuffix(Lines(JoinedText(j'.files)), log')
    decreases |events|
  {
    if events == [] {
      j', log' := j, log;
      assert log + [] == log;
      JoinedVerifies(c, j, log);
    } else {
      var next, more := JoinedStep(c, maxBytes, j, events[0], log);
      j', log' := RetainedFilesVerify(c, maxBytes, next, events[1..], log + more);
      ConcatAssociative(log, more, RunLog(c, maxBytes, next, events[1..]));
    }
  }

  /** An entry that starts a new chain cannot follow a v2 entry. */
  lemma NewChainBreaks(c: Codec, lines: seq<string>, record: EventRecord)
    requires CodecLaws(c) && LastHash(c, lines).Some?
    ensures !IsChain(c, lines + [LineFor(c, None, record)])
  {
    var line := LineFor(c, None, record);
    LineIsEntry(c, None, record);
    ChainSnoc(c, lines, line);
  }

  /** Over an empty current file a new instance starts a new chain. */
  lemma StoredOverEmpty(c: Codec, maxBytes: nat, files: FileTexts, record: EventRecord)
    requires CodecLaws(c) && files != [] && AllTerminated(files)
    requires Lines(Content(files[0])) == [] && CurrentInv(c, Reopen(files))
    requires ByteLength(Content(files[0])) + ByteLength(LineFor(c, None, record) + "\n") <= maxBytes
    ensures JoinedLines(Append(c, maxBytes, Reopen(files), record, Success).files) ==
            JoinedLines(files) + [LineFor(c, None, record)]
  {
    hide JoinedLines, Lines, ByteLength, AllTerminated, CurrentInv;
    InitializeAgrees(c, Reopen(files));
    AppendUnfold(c, maxBytes, Reopen(files), record, Success);
    LineIsEntry(c, None, record);
    WrittenFiles(files, LineFor(c, None, record));
  }

  /** Why restarts must be clean: a restart over an empty current file while an older
      file ends in a v2 entry starts a new chain, and the next stored entry breaks the
      joined one. After any other restart the next stored entry continues it. */
  lemma UncleanRestartBreaksChain(c: Codec, maxBytes: nat, j: Journal, record: EventRecord, log: seq<string>)
    requires CodecLaws(c) && JoinedInv(c, j, log)
    requires ByteLength(Content(j.files[0])) +
             ByteLength(LineFor(c, LastHash(c, Current(j)), record) + "\n") <= maxBytes
    ensures IsChain(c, JoinedLines(Append(c, maxBytes, Reopen(j.files), record, Success).files)) <==> CleanRestart(c, j)
  {
    hide JoinedLines, Lines, ByteLength, AllTerminated, IsChain, HeadFor, IsSuffix, Append;
    if CleanRestart(c, j) {
      RestartSafe(c, j, log);
      var j' := JoinedSafe(c, maxBytes, Reopen(j.files), record, Success, log);
    } else {
      StoredOverEmpty(c, maxBytes, j.files, record);
      NewChainBreaks(c, JoinedLines(j.files), record);
    }
  }

  lemma RotatedHead(c: Codec, files: FileTexts)
    requires |files| >= 2 && LastHash(c, Lines(Content(files[0]))).Some?
    ensures var rotated := RotateUpTo(files, |files|);
            rotated[0] == None && Lines(Content(None)) == [] && LastHash(c, JoinedLines(rotated)).Some?
  {
    hide Lines, Content;
    var front, none := files[..|files| - 1], files[..0];
    assert Lines(Content(None)) == [] by { NoneHasNoLines(); }
    CurrentEndsJoined(c, front);
    JoinedEmpty(front);
    assert RotateUpTo(files, |files|) == [None] + front;
  }

  /** How a restart comes to be unclean. An entry that does not fit, and is not stored:
      the restart after it is clean exactly when the rotation stopped before its last
      rename. */
  lemma FailedAppendCleanIff(c: Codec, maxBytes: nat, j: Journal, record: EventRecord, o: Outcome, log: seq<string>)
    requires CodecLaws(c) && JoinedInv(c, j, log) && j.initialized && LastHash(c, Current(j)).Some?
    requires MustRotate(maxBytes, j, LineFor(c, j.head, record) + "\n") && o != Success
    ensures CleanRestart(c, Append(c, maxBytes, j, record, o)) <==> o.RotationStops? && o.places < |j.files|
  {
    hide JoinedLines, Lines, MustRotate, RotateUpTo;
    AppendUnfold(c, maxBytes, j, record, o);
    if o.RotationStops? && o.places < |j.files| {
      StopKeepsCurrent(j.files, o.places);
    } else {
      RotatedHead(c, j.files);
    }
  }

  lemma RunFirst(c: Codec, maxBytes: nat, j: Journal, e: Event, rest: seq<Event>)
    requires j.files != []
    ensures Run(c, maxBytes, j, [e] + rest) == Run(c, maxBytes, After(c, maxBytes, j, e), rest)
    ensures Run(c, maxBytes, j, []) == j
  {
    assert ([e] + rest)[1..] == rest;
  }

  /** The run that breaks the joined chain: an entry that does not fit and is not
      stored, a restart, and an entry that is stored. */
  lemma RotateFailRestartBreaksChain(c: Codec, maxBytes: nat, j: Journal, record: EventRecord, next: EventRecord,
                                     log: seq<string>)
    requires CodecLaws(c) && JoinedInv(c, j, log) && j.initialized && LastHash(c, Current(j)).Some?
    requires MustRotate(maxBytes, j, LineFor(c, j.head, record) + "\n")
    requires ByteLength(LineFor(c, None, next) + "\n") <= maxBytes
    ensures var events := [AppendEvent(record, WriteFails), Restart, AppendEvent(next, Success)];
            !VerifyLines(c, JoinedLines(Run(c, maxBytes, j, events).files)).Accepted?
  {
    hide JoinedLines, Lines, ByteLength, Append, CleanRestart, RotateUpTo;
    var failed := JoinedSafe(c, maxBytes, j, record, WriteFails, log);
    assert log + [] == log;
    FailedAppendCleanIff(c, maxBytes, j, record, WriteFails, log);
    FailedRotationEmpties(c, maxBytes, j, record);
    UncleanRestartBreaksChain(c, maxBytes, failed, next, log);
    var events := [AppendEvent(record, WriteFails), Restart, AppendEvent(next, Success)];
    assert events == [events[0]] + ([Restart] + ([events[2]] + []));
    RunFirst(c, maxBytes, j, events[0], [Restart] + ([events[2]] + []));
    RunFirst(c, maxBytes, failed, Restart, [events[2]] + []);
    RunFirst(c, maxBytes, Reopen(failed.files), events[2], []);
    RunFirst(c, maxBytes, Append(c, maxBytes, Reopen(failed.files), next, Success), Restart, []);
    assert Run(c, maxBytes, j, events) == Append(c, maxBytes, Reopen(failed.files), next, Success);
    VerifierAcceptsChains(c, JoinedLines(Run(c, maxBytes, j, events).files));
  }

  lemma FailedRotationEmpties(c: Codec, maxBytes: nat, j: Journal, record: EventRecord)
    requires |j.files| >= 2 && j.initialized
    requires MustRotate(maxBytes, j, LineFor(c, j.head, record) + "\n")
    ensures var failed := Append(c, maxBytes, j, record, WriteFails);
            failed.files[0] == None && ByteLength(Content(failed.files[0])) == 0 && LastHash(c, Current(failed)) == None
  {
    AppendUnfold(c, maxBytes, j, record, WriteFails);
    SpacesHaveNoLines("");
  }
}
