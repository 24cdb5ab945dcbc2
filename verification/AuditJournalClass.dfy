/** The journal as an object over its files, proved against `AuditJournalSpec`
    (services/risk-engine/src/audit-journal.ts:60-135). */
module AuditJournals {
  import opened Collections
  import opened AuditVerifier
  import opened AuditJournalSpec

  class JournalDisk {
    var files: FileTexts

    constructor (files: FileTexts)
      ensures this.files == files
    {
      this.files := files;
    }
  }

  function MoveUp(files: FileTexts, index: nat): FileTexts
    requires index + 1 < |files|
  {
    if files[index].Some? then files[index + 1 := files[index]][index := None] else files
  }

  lemma NothingRotated(files: FileTexts)
    ensures RotateUpTo(files, 0) == files
  {
  }

  lemma DropLast(files: FileTexts)
    requires files != []
    ensures files[|files| - 1 := None] == RotateUpTo(files, 1)
  {
    assert files[|files| - 1..|files| - 1] == [];
  }

  /** Moving the next place up: its neighbour above is always empty by then. */
  lemma MoveNext(files: FileTexts, places: nat)
    requires 1 <= places < |files|
    ensures MoveUp(RotateUpTo(files, places), |files| - 1 - places) == RotateUpTo(files, places + 1)
  {
    var n := |files|;
    var done := RotateUpTo(files, places);
    assert done[n - places] == None && done[n - 1 - places] == files[n - 1 - places];
    assert MoveUp(done, n - 1 - places) == RotateUpTo(files, places + 1);
  }

  lemma SuccessGoesOn(maxBytes: nat, j: Journal, line: string)
    requires j.files != []
    ensures !Stops(maxBytes, j, line, Success)
  {
  }

  class BoundedAuditJournal {
    const path: string
    const codec: Codec
    const maxBytes: nat
    const maxFiles: nat
    const disk: JournalDisk
    var integrityHead: Option<string>
    var initialized: bool
    var written: nat
    var writeErrors: nat
    var integrityErrors: nat
    var rotations: nat

    ghost function View(): Journal
      reads this, disk
    {
      Journal(disk.files, integrityHead, initialized, written, writeErrors, integrityErrors, rotations)
    }

    ghost predicate Valid()
      reads this, disk
    {
      |disk.files| == maxFiles >= 1
    }

    constructor (path: string, codec: Codec, maxBytes: nat, maxFiles: nat, disk: JournalDisk)
      requires 16 * 1024 <= maxBytes <= 100 * 1024 * 1024 && 1 <= maxFiles <= 10
      requires |disk.files| == maxFiles
      ensures Valid() && this.path == path && this.disk == disk && this.codec == codec
      ensures this.maxBytes == maxBytes && this.maxFiles == maxFiles
      ensures View() == Reopen(disk.files)
    {
      this.path, this.codec, this.maxBytes, this.maxFiles, this.disk := path, codec, maxBytes, maxFiles, disk;
      integrityHead, initialized := None, false;
      written, writeErrors, integrityErrors, rotations := 0, 0, 0, 0;
    }

    /** Construction as callers see it: settings out of range are refused. */
    static method Open(path: string, codec: Codec, maxBytes: int, maxFiles: int, disk: JournalDisk)
      returns (r: Option<BoundedAuditJournal>)
      requires 1 <= maxFiles <= 10 ==> |disk.files| == maxFiles
      ensures r.Some? <==>
        !Blank(path) &&
        16 * 1024 <= maxBytes <= 100 * 1024 * 1024 && 1 <= maxFiles <= 10
      ensures r.Some? ==>
        fresh(r.value) && r.value.Valid() && r.value.path == path && r.value.disk == disk && r.value.codec == codec &&
        r.value.maxBytes == maxBytes && r.value.maxFiles == maxFiles && r.value.View() == Reopen(disk.files)
    {
      BlankIff(path);
      if Trim(path) == [] { return None; }
      if maxBytes < 16 * 1024 || maxBytes > 100 * 1024 * 1024 || maxFiles < 1 || maxFiles > 10 { return None; }
      var journal := new BoundedAuditJournal(path, codec, maxBytes, maxFiles, disk);
      return Some(journal);
    }

    method InitializeIntegrityHead() returns (ok: bool)
      requires Valid()
      modifies this
      ensures Valid() && View() == Initialize(codec, old(View())) && ok == initialized
    {
      if initialized { return true; }
      var text := Content(disk.files[0]);
      if Trim(text) != [] {
        var verified := VerifyAuditJournalText(codec, text);
        if verified.Rejected? {
          integrityErrors := integrityErrors + 1;
          return false;
        }
        integrityHead := verified.scan.lastHash;
      }
      initialized := true;
      return true;
    }

    /** `stop` says after how many places an operation fails, if at all. */
    method RotateFiles(stop: nat) returns (done: bool)
      requires Valid()
      modifies this, disk
      ensures Valid() && done == (stop >= maxFiles)
      ensures View() == if done then Rotate(old(View()))
                        else old(View()).(files := RotateUpTo(old(disk.files), stop))
    {
      hide RotateUpTo;
      ghost var before := disk.files;
      NothingRotated(before);
      if stop == 0 { return false; }
      DropLast(before);
      if maxFiles == 1 {
        disk.files := disk.files[0 := None];
        rotations := rotations + 1;
        integrityHead := None;
        return true;
      }
      disk.files := disk.files[maxFiles - 1 := None];
      var index := maxFiles - 2;
      while index >= 1
        invariant 0 <= index <= maxFiles - 2 && |disk.files| == maxFiles && stop >= maxFiles - 1 - index
        invariant disk.files == RotateUpTo(before, maxFiles - 1 - index)
        invariant View() == old(View()).(files := disk.files)
      {
        if stop == maxFiles - 1 - index { return false; }
        MoveNext(before, maxFiles - 1 - index);
        if disk.files[index].Some? {
          disk.files := disk.files[index + 1 := disk.files[index]][index := None];
        }
        index := index - 1;
      }
      if stop == maxFiles - 1 { return false; }
      MoveNext(before, maxFiles - 1);
      if disk.files[0].Some? {
        disk.files := disk.files[1 := disk.files[0]][0 := None];
      }
      rotations := rotations + 1;
      return true;
    }

    method WriteLine(line: string, o: Outcome) returns (ok: bool)
      requires Valid() && initialized
      modifies this, disk
      ensures Valid() && ok == (o == Success)
      ensures View() ==
        if Stops(maxBytes, old(View()), line, o) then old(View()).(files := RotateUpTo(old(disk.files), o.places))
        else
          var room := MakeRoom(maxBytes, old(View()), line);
          if ok then room.(files := room.files[0 := Some(Content(room.files[0]) + line)]) else room
    {
      var size := ByteLength(Content(disk.files[0]));
      if size + ByteLength(line) > maxBytes {
        var done := RotateFiles(if o.RotationStops? then o.places else maxFiles);
        if !done { return false; }
      }
      if o != Success { return false; }
      disk.files := disk.files[0 := Some(Content(disk.files[0]) + line)];
      return true;
    }

    method Append(record: EventRecord, o: Outcome)
      requires Valid()
      modifies this, disk
      ensures Valid() && View() == AuditJournalSpec.Append(codec, maxBytes, old(View()), record, o)
    {
      hide Initialize, RotateUpTo, Stops, MakeRoom, LineFor;
      var ok := InitializeIntegrityHead();
      if !ok {
        writeErrors := writeErrors + 1;
        return;
      }
      ghost var ready := View();
      assert ready == Initialize(codec, old(View()));
      var entryHash := codec.hash(integrityHead, Event(record));
      var line := LineFor(codec, integrityHead, record) + "\n";
      var done := WriteLine(line, o);
      if !done {
        writeErrors := writeErrors + 1;
        return;
      }
      assert !Stops(maxBytes, ready, line, Success) by { SuccessGoesOn(maxBytes, ready, line); }
      integrityHead := Some(entryHash);
      written := written + 1;
    }
  }
}
