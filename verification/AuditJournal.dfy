/** The rotating, hash-chained audit writer
    (services/risk-engine/src/audit-journal.ts:60-135). */
module AuditJournalSpec {
  import opened Collections
  import opened AuditVerifier

  /** The journal's files: index 0 is the file being written, index `i` the `i`-th
      rotated one. There are always `maxFiles` places, some empty. */
  type FileTexts = seq<Option<string>>

  datatype Journal = Journal(
    files: FileTexts, head: Option<string>, initialized: bool,
    written: nat, writeErrors: nat, integrityErrors: nat, rotations: nat)

  function CharBytes(ch: char): nat {
    if ch < '\U{80}' then 1 else if ch < '\U{800}' then 2 else if ch < '\U{10000}' then 3 else 4
  }

  /** Length in UTF-8. */
  function ByteLength(s: string): nat {
    if s == [] then 0 else CharBytes(s[0]) + ByteLength(s[1..])
  }

  function Content(file: Option<string>): string {
    if file.Some? then file.value else ""
  }

  function Envelop(c: Codec, previousHash: Option<string>, record: EventRecord): Envelope {
    Envelope(previousHash, record, c.hash(previousHash, Event(record)))
  }

  function LineFor(c: Codec, previousHash: Option<string>, record: EventRecord): string {
    c.render(Envelop(c, previousHash, record))
  }

  function Initialize(c: Codec, j: Journal): Journal
    requires j.files != []
  {
    if j.initialized then j
    else if Trim(Content(j.files[0])) == [] then j.(initialized := true)
    else
      match VerifyLines(c, Lines(Content(j.files[0])))
      case Rejected(_, _) => j.(integrityErrors := j.integrityErrors + 1)
      case Accepted(scan) => j.(head := scan.lastHash, initialized := true)
  }

  /** The files when `places` places have been dealt with, from the last one down: the
      last is dropped, and each one below it moves one up. */
  function RotateUpTo(files: FileTexts, places: nat): (r: FileTexts)
    requires places <= |files|
    ensures |r| == |files|
  {
    var n := |files|;
    if places == 0 then files else files[..n - places] + ([None] + files[n - places..n - 1])
  }

  /** All places move one up; the last one is lost. A single-file journal just
      drops its file, and with it the head. */
  function Rotate(j: Journal): Journal
    requires j.files != []
  {
    j.(files := RotateUpTo(j.files, |j.files|), rotations := j.rotations + 1,
       head := if |j.files| == 1 then None else j.head)
  }

  predicate MustRotate(maxBytes: nat, j: Journal, line: string)
    requires j.files != []
  {
    ByteLength(Content(j.files[0])) + ByteLength(line) > maxBytes
  }

  function MakeRoom(maxBytes: nat, j: Journal, line: string): Journal
    requires j.files != []
  {
    if MustRotate(maxBytes, j, line) then Rotate(j) else j
  }

  /** How the file operations of an append end. A rotation may stop at any removal or
      rename, with `places` places dealt with; a write that fails stores nothing. */
  datatype Outcome = Success | WriteFails | RotationStops(places: nat)

  /** The rotation is stopped before its last rename. */
  predicate Stops(maxBytes: nat, j: Journal, line: string, o: Outcome)
    requires j.files != []
  {
    MustRotate(maxBytes, j, line) && o.RotationStops? && o.places < |j.files|
  }

  /** One append. */
  function Append(c: Codec, maxBytes: nat, j: Journal, record: EventRecord, o: Outcome): Journal
    requires j.files != []
  {
    var ready := Initialize(c, j);
    if !ready.initialized then ready.(writeErrors := ready.writeErrors + 1)
    else
      var line := LineFor(c, ready.head, record) + "\n";
      if Stops(maxBytes, ready, line, o) then
        ready.(files := RotateUpTo(ready.files, o.places), writeErrors := ready.writeErrors + 1)
      else
        var room := MakeRoom(maxBytes, ready, line);
        if o != Success then room.(writeErrors := room.writeErrors + 1)
        else
          room.(files := room.files[0 := Some(Content(room.files[0]) + line)],
                head := Some(c.hash(ready.head, Event(record))), written := room.written + 1)
  }

  /** A new instance over the files on disk. */
  function Reopen(files: FileTexts): Journal {
    Journal(files, None, false, 0, 0, 0, 0)
  }
}
