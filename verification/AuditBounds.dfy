/** How large the journal's files get and where an append puts its line, told from file
    contents alone (services/risk-engine/src/audit-journal.ts:77-134). */
module AuditBounds {
  import opened Collections
  import opened CanonicalJson
  import opened Utf8
  import opened AuditVerifier
  import opened AuditJournalSpec
  import opened AuditJournalSafety

  // ------------------------------------------------------------ UTF-8 lengths

  /** A character in UTF-16. */
  function CharUnits(ch: char): Text {
    var point := ch as int;
    if point < 0x1_0000 then [point as Unit]
    else [(0xD800 + (point - 0x1_0000) / 0x400) as Unit, (0xDC00 + (point - 0x1_0000) % 0x400) as Unit]
  }

  function Units(s: string): Text {
    if s == [] then [] else CharUnits(s[0]) + Units(s[1..])
  }

  /** Size of a file that holds `text`. */
  function Size(text: string): nat {
    |Encode(Units(text))|
  }

  lemma CharSize(ch: char, rest: Text)
    requires rest == [] || !IsLow(rest[0])
    ensures |Encode(CharUnits(ch) + rest)| == CharBytes(ch) + |Encode(rest)|
  {
    var s := CharUnits(ch) + rest;
    assert s[0] == CharUnits(ch)[0];
    if ch as int < 0x1_0000 {
      assert !IsSurrogate(s[0]);
      assert s[1..] == rest;
    } else {
      assert s[1] == CharUnits(ch)[1];
      assert IsHigh(s[0]) && IsLow(s[1]);
      assert s[2..] == rest;
    }
  }

  lemma UnitsStart(s: string)
    ensures Units(s) == [] || !IsLow(Units(s)[0])
  {
  }

  /** The length the journal computes is that of the encoded text. */
  lemma {:induction false} ByteLengthIsSize(s: string)
    ensures ByteLength(s) == Size(s)
  {
    if s != [] {
      UnitsStart(s[1..]);
      CharSize(s[0], Units(s[1..]));
      ByteLengthIsSize(s[1..]);
    }
  }

  lemma {:induction false} ByteLengthConcat(a: string, b: string)
    ensures ByteLength(a + b) == ByteLength(a) + ByteLength(b)
  {
    if a == [] {
      assert a + b == b;
    } else {
      assert (a + b)[1..] == a[1..] + b;
      ByteLengthConcat(a[1..], b);
    }
  }

  // ------------------------------------------------------------- file sizes

  predicate SingleLine(text: string) {
    forall i :: 0 <= i < |text| - 1 ==> text[i] != '\n'
  }

  predicate Within(maxBytes: nat, file: Option<string>) {
    Size(Content(file)) <= maxBytes || SingleLine(Content(file))
  }

  predicate AllWithin(maxBytes: nat, files: FileTexts) {
    forall file :: file in files ==> Within(maxBytes, file)
  }

  lemma NoneWithin(maxBytes: nat)
    ensures Within(maxBytes, None)
  {
  }

  lemma RotatedWithin(maxBytes: nat, files: FileTexts, places: nat)
    requires places <= |files| && AllWithin(maxBytes, files)
    ensures AllWithin(maxBytes, RotateUpTo(files, places))
  {
    hide Within;
    NoneWithin(maxBytes);
    forall file | file in RotateUpTo(files, places) ensures Within(maxBytes, file) {
      assert file == None || file in files;
    }
  }

  lemma LineSingle(c: Codec, head: Option<string>, record: EventRecord)
    requires CodecLaws(c)
    ensures SingleLine(LineFor(c, head, record) + "\n")
  {
    var line := LineFor(c, head, record);
    assert CleanLine(c.render(Envelop(c, head, record)));
    assert forall i :: 0 <= i < |line| ==> (line + "\n")[i] == line[i] && line[i] in line;
  }

  lemma AddedWithin(maxBytes: nat, files: FileTexts, line: string)
    requires files != [] && AllWithin(maxBytes, files) && SingleLine(line)
    requires ByteLength(Content(files[0])) + ByteLength(line) <= maxBytes || Content(files[0]) == ""
    ensures AllWithin(maxBytes, files[0 := Some(Content(files[0]) + line)])
  {
    hide ByteLength, Size;
    var text := Content(files[0]) + line;
    ByteLengthConcat(Content(files[0]), line);
    ByteLengthIsSize(text);
    assert Content(files[0]) == "" ==> text == line;
    forall file | file in files[0 := Some(text)] ensures Within(maxBytes, file) {
      assert file == Some(text) || file in files;
    }
  }

  lemma StoredWithin(c: Codec, maxBytes: nat, ready: Journal, record: EventRecord)
    requires CodecLaws(c) && ready.files != [] && AllWithin(maxBytes, ready.files)
    ensures var line := LineFor(c, ready.head, record) + "\n";
            var room := MakeRoom(maxBytes, ready, line);
            AllWithin(maxBytes, room.files) && room.files != [] &&
            AllWithin(maxBytes, room.files[0 := Some(Content(room.files[0]) + line)])
  {
    hide AllWithin, ByteLength, LineFor, SingleLine, CodecLaws;
    var line := LineFor(c, ready.head, record) + "\n";
    LineSingle(c, ready.head, record);
    RotatedWithin(maxBytes, ready.files, |ready.files|);
    AddedWithin(maxBytes, MakeRoom(maxBytes, ready, line).files, line);
  }

  lemma AppendWithin(c: Codec, maxBytes: nat, j: Journal, record: EventRecord, o: Outcome)
    requires CodecLaws(c) && j.files != [] && AllWithin(maxBytes, j.files)
    ensures AllWithin(maxBytes, Append(c, maxBytes, j, record, o).files)
  {
    hide AllWithin, ByteLength, LineFor, VerifyLines, Lines, Trim, MustRotate, MakeRoom, RotateUpTo, CodecLaws;
    var ready := Initialize(c, j);
    if ready.initialized {
      AppendUnfold(c, maxBytes, j, record, o);
      StoredWithin(c, maxBytes, ready, record);
      if Stops(maxBytes, ready, LineFor(c, ready.head, record) + "\n", o) { RotatedWithin(maxBytes, j.files, o.places); }
    }
  }

  lemma {:induction false} RunWithin(c: Codec, maxBytes: nat, j: Journal, events: seq<Event>)
    requires CodecLaws(c) && j.files != [] && AllWithin(maxBytes, j.files)
    ensures AllWithin(maxBytes, Run(c, maxBytes, j, events).files)
    decreases |events|
  {
    hide AllWithin, Append, CodecLaws;
    if events != [] {
      if events[0].AppendEvent? {
        AppendWithin(c, maxBytes, j, events[0].record, events[0].outcome);
      }
      RunWithin(c, maxBytes, After(c, maxBytes, j, events[0]), events[1..]);
    }
  }

  /** The bounded journal is bounded. From files within bounds, after every run of
      appends, appends that fail anywhere and restarts: each retained file has at most
      `maxBytes` bytes of UTF-8, or is a single line. */
  lemma FilesBounded(c: Codec, maxBytes: nat, j: Journal, events: seq<Event>)
    requires CodecLaws(c) && j.files != []
    requires forall i :: 0 <= i < |j.files| ==>
      |Encode(Units(Content(j.files[i])))| <= maxBytes || SingleLine(Content(j.files[i]))
    ensures forall file :: file in Run(c, maxBytes, j, events).files ==>
      |Encode(Units(Content(file)))| <= maxBytes || SingleLine(Content(file))
  {
    hide Run, CodecLaws, Content, SingleLine, Units;
    RunWithin(c, maxBytes, j, events);
  }

  // ------------------------------------------------------ where a line goes

  /** The head an append links to. */
  function HeadOf(c: Codec, j: Journal): Option<string>
    requires j.files != []
  {
    if j.initialized then j.head else LastHash(c, Current(j))
  }

  /** Where a stored entry goes, from contents alone: behind what the current file holds
      if the two together have at most `maxBytes` bytes, every other file staying where
      it is; and else into a new current file, every other file one place up and the
      oldest gone. */
  lemma StoredPlaces(c: Codec, maxBytes: nat, j: Journal, record: EventRecord)
    requires CurrentInv(c, j)
    ensures var head := HeadOf(c, j);
            var line := c.render(Envelope(head, record, c.hash(head, Event(record)))) + "\n";
            var current, n := Content(j.files[0]), |j.files|;
            Append(c, maxBytes, j, record, Success).files ==
            if Size(current) + Size(line) <= maxBytes then [Some(current + line)] + j.files[1..]
            else [Some(line)] + j.files[..n - 1]
  {
    hide ByteLength, Size, VerifyLines, Lines, CurrentInv;
    InitializeAgrees(c, j);
    assert j.files != [] by { InvHasFiles(c, j); }
    AppendUnfold(c, maxBytes, j, record, Success);
    var head := HeadOf(c, j);
    var line := LineFor(c, head, record) + "\n";
    ByteLengthIsSize(Content(j.files[0]));
    ByteLengthIsSize(line);
    assert Content(None) + line == line;
  }

  /** An append that is not stored, and whose line would fit, leaves every file alone. */
  lemma UnstoredLeavesFiles(c: Codec, maxBytes: nat, j: Journal, record: EventRecord, o: Outcome)
    requires CurrentInv(c, j) && o != Success
    requires var head := HeadOf(c, j);
             Size(Content(j.files[0])) +
             Size(c.render(Envelope(head, record, c.hash(head, Event(record)))) + "\n") <= maxBytes
    ensures Append(c, maxBytes, j, record, o).files == j.files
  {
    hide ByteLength, Size, VerifyLines, Lines, CurrentInv;
    InitializeAgrees(c, j);
    assert j.files != [] by { InvHasFiles(c, j); }
    AppendUnfold(c, maxBytes, j, record, o);
    ByteLengthIsSize(Content(j.files[0]));
    ByteLengthIsSize(LineFor(c, HeadOf(c, j), record) + "\n");
  }

  lemma InvHasFiles(c: Codec, j: Journal)
    requires CurrentInv(c, j)
    ensures j.files != []
  {
  }

  /** A line that needs room and is not written: the files have moved up, the current one
      is gone, and the head is kept, except that a journal of one file starts over. */
  lemma RotatedUnwritten(c: Codec, maxBytes: nat, j: Journal, record: EventRecord)
    requires CurrentInv(c, j)
    requires var head := HeadOf(c, j);
             Size(Content(j.files[0])) +
             Size(c.render(Envelope(head, record, c.hash(head, Event(record)))) + "\n") > maxBytes
    ensures var j', n := Append(c, maxBytes, j, record, WriteFails), |j.files|;
            j'.files == [None] + j.files[..n - 1] && j'.head == if n == 1 then None else HeadOf(c, j)
  {
    hide ByteLength, Size, VerifyLines, Lines, CurrentInv;
    InitializeAgrees(c, j);
    assert j.files != [] by { InvHasFiles(c, j); }
    AppendUnfold(c, maxBytes, j, record, WriteFails);
    ByteLengthIsSize(Content(j.files[0]));
    ByteLengthIsSize(LineFor(c, HeadOf(c, j), record) + "\n");
  }

  // ------------------------------------------------------------- what is counted

  /** Every append to a journal whose current file is a chain is counted once, as
      written when it is stored and as an error when it is not; and it counts a rotation
      exactly when its line would not fit and no rename was stopped. */
  lemma AppendCounts(c: Codec, maxBytes: nat, j: Journal, record: EventRecord, o: Outcome)
    requires CurrentInv(c, j)
    ensures var j', head := Append(c, maxBytes, j, record, o), HeadOf(c, j);
            var line := c.render(Envelope(head, record, c.hash(head, Event(record)))) + "\n";
            var rotates := Size(Content(j.files[0])) + Size(line) > maxBytes &&
                           (o.RotationStops? ==> o.places >= |j.files|);
            j'.written == j.written + (if o == Success then 1 else 0) &&
            j'.writeErrors == j.writeErrors + (if o == Success then 0 else 1) &&
            j'.integrityErrors == j.integrityErrors &&
            j'.rotations == j.rotations + if rotates then 1 else 0
  {
    hide ByteLength, Size, VerifyLines, Lines, CurrentInv;
    InitializeAgrees(c, j);
    assert j.files != [] by { InvHasFiles(c, j); }
    AppendUnfold(c, maxBytes, j, record, o);
    ByteLengthIsSize(Content(j.files[0]));
    ByteLengthIsSize(LineFor(c, HeadOf(c, j), record) + "\n");
  }

  /** A new instance over a current file that is not a chain stores nothing, ever:
      each append counts an integrity error and a write error and changes nothing else. */
  lemma BrokenStoresNothing(c: Codec, maxBytes: nat, j: Journal, record: EventRecord, o: Outcome)
    requires j.files != [] && !j.initialized && !IsChain(c, Lines(Content(j.files[0])))
    ensures Append(c, maxBytes, j, record, o) ==
            j.(integrityErrors := j.integrityErrors + 1, writeErrors := j.writeErrors + 1)
  {
    hide VerifyLines, Lines, IsChain, Trim;
    var text := Content(j.files[0]);
    VerifierAcceptsChains(c, Lines(text));
    BlankIsChain(c, text);
  }

  lemma BlankIsChain(c: Codec, text: string)
    ensures Trim(text) == [] ==> IsChain(c, Lines(text))
  {
    if Trim(text) == [] { BlankHasNoLines(text); }
  }
}
