/** Torn-tail repair of one JSONL segment, on raw bytes
    (edge/pi-storage/storage_runtime.py, `_repair_interrupted_segments`).

    `objects` is the set of texts that decode as UTF-8 and parse as a JSON object. */
module LineRepair {
  import opened Collections

  newtype byte = x: int | 0 <= x < 256
  type Bytes = seq<byte>
  type Recogniser = iset<Bytes>

  const LF: byte := 10
  const CR: byte := 13

  /** Length of the first line of `data`, terminator included. As in Python's
      `bytes.splitlines`, a line ends at LF, CR LF or a lone CR. */
  function FirstLineEnd(data: Bytes): (n: nat)
    requires data != []
    ensures 1 <= n <= |data|
  {
    if data[0] == LF || |data| == 1 then 1
    else if data[0] == CR then (if data[1] == LF then 2 else 1)
    else 1 + FirstLineEnd(data[1..])
  }

  /** Where the cut falls: after the first LF, CR LF or lone CR, else at the end. */
  lemma {:induction false} FirstLineCut(data: Bytes)
    requires data != []
    ensures var n := FirstLineEnd(data);
            (forall i :: 0 <= i < n - 1 ==> data[i] != LF && (data[i] == CR ==> i == n - 2 && data[n - 1] == LF)) &&
            (n < |data| ==> data[n - 1] == LF || (data[n - 1] == CR && data[n] != LF))
  {
    if data[0] != LF && data[0] != CR && |data| > 1 {
      var rest, n := data[1..], FirstLineEnd(data);
      FirstLineCut(rest);
      forall i | 0 <= i < n - 1 ensures data[i] != LF && (data[i] == CR ==> i == n - 2 && data[n - 1] == LF) {
        if i > 0 { assert rest[i - 1] == data[i] && rest[n - 2] == data[n - 1]; }
      }
    }
  }

  function SplitLines(data: Bytes): (lines: seq<Bytes>)
    ensures Flatten(lines) == data
    ensures [] !in lines
  {
    if data == [] then []
    else
      var n := FirstLineEnd(data);
      [data[..n]] + SplitLines(data[n..])
  }

  predicate IsSpace(b: byte) {
    9 <= b <= 13 || b == 32
  }

  function StripLeft(s: Bytes): (r: Bytes) {
    if s != [] && IsSpace(s[0]) then StripLeft(s[1..]) else s
  }

  function StripRight(s: Bytes): (r: Bytes) {
    if s != [] && IsSpace(s[|s| - 1]) then StripRight(s[..|s| - 1]) else s
  }

  function Strip(s: Bytes): Bytes {
    StripRight(StripLeft(s))
  }

  /** The three tests the repair loop makes on one raw line. */
  predicate Complete(line: Bytes, objects: Recogniser) {
    line != [] && line[|line| - 1] == LF &&
    var payload := Strip(line[..|line| - 1]);
    payload != [] && payload in objects
  }

  lemma {:induction false} StripLeftCuts(s: Bytes) returns (i: nat)
    ensures i <= |s| && StripLeft(s) == s[i..] && (forall k :: 0 <= k < i ==> IsSpace(s[k]))
    ensures i < |s| ==> !IsSpace(s[i])
  {
    i := 0;
    if s != [] && IsSpace(s[0]) {
      var n := StripLeftCuts(s[1..]);
      i := n + 1;
      assert s[1..][n..] == s[i..];
      forall k | 0 <= k < i ensures IsSpace(s[k]) { if k > 0 { assert s[1..][k - 1] == s[k]; } }
    }
  }

  lemma {:induction false} StripRightCuts(s: Bytes) returns (j: nat)
    ensures j <= |s| && StripRight(s) == s[..j] && (forall k :: j <= k < |s| ==> IsSpace(s[k]))
    ensures j > 0 ==> !IsSpace(s[j - 1])
  {
    j := |s|;
    if s != [] && IsSpace(s[|s| - 1]) {
      j := StripRightCuts(s[..|s| - 1]);
      assert s[..|s| - 1][..j] == s[..j];
      forall k | j <= k < |s| ensures IsSpace(s[k]) { if k < |s| - 1 { assert s[..|s| - 1][k] == s[k]; } }
    }
  }

  /** Blank, tab, line feed, vertical tab, form feed or carriage return. */
  predicate White(b: byte) {
    b == 32 || b == 9 || b == 10 || b == 11 || b == 12 || b == 13
  }

  /** Bytes `i` to `j` are what is between the white space at both ends. */
  ghost predicate Between(s: Bytes, i: nat, j: nat) {
    i < j <= |s| && !White(s[i]) && !White(s[j - 1]) &&
    forall k :: 0 <= k < i || j <= k < |s| ==> White(s[k])
  }

  /** A line is complete exactly when a line feed ends it and what is between the white
      space before that is an object. */
  lemma CompleteIff(line: Bytes, objects: Recogniser)
    ensures Complete(line, objects) <==>
            line != [] && line[|line| - 1] == 10 &&
            exists i: nat, j: nat :: Between(line[..|line| - 1], i, j) && line[i..j] in objects
  {
    hide StripLeft, StripRight;
    if line != [] {
      var s := line[..|line| - 1];
      var i := StripLeftCuts(s);
      var n := StripRightCuts(s[i..]);
      assert Strip(s) == s[i..][..n] == s[i..i + n];
      forall k | i + n <= k < |s| ensures White(s[k]) { assert s[i..][k - i] == s[k]; }
      if n > 0 {
        assert s[i..][n - 1] == s[i + n - 1];
        assert Between(s, i, i + n) && line[i..i + n] == s[i..i + n];
        forall p: nat, q: nat | Between(s, p, q) ensures p == i && q == i + n { OneBetween(s, p, q, i, i + n); }
      } else {
        assert forall k :: 0 <= k < |s| ==> White(s[k]);
      }
    }
  }

  lemma OneBetween(s: Bytes, i: nat, j: nat, p: nat, q: nat)
    requires Between(s, i, j) && Between(s, p, q)
    ensures i == p && j == q
  {
  }

  function TakeComplete(lines: seq<Bytes>, objects: Recogniser): seq<Bytes> {
    if lines == [] || !Complete(lines[0], objects) then []
    else [lines[0]] + TakeComplete(lines[1..], objects)
  }

  /** The lines repair keeps: complete object lines up to the first that is not one. */
  function KeptLines(data: Bytes, objects: Recogniser): seq<Bytes> {
    TakeComplete(SplitLines(data), objects)
  }

  function Repaired(data: Bytes, objects: Recogniser): Bytes {
    Flatten(KeptLines(data, objects))
  }

  /** Nothing to repair. */
  predicate Clean(data: Bytes, objects: Recogniser) {
    Repaired(data, objects) == data
  }

  /** A single LF-terminated line: no terminator before its end. */
  predicate OneLine(l: Bytes) {
    l != [] && l[|l| - 1] == LF &&
    forall i :: 0 <= i < |l| - 1 ==> l[i] != LF && (l[i] == CR ==> i == |l| - 2)
  }

  /** What the encoder guarantees about a record's text: no raw line terminator,
      no surrounding space, and it reads back as an object. */
  predicate Encoded(text: Bytes, objects: Recogniser) {
    LF !in text && CR !in text && text != [] && Strip(text) == text && text in objects
  }

  lemma {:induction false} FirstLineOf(l: Bytes, rest: Bytes)
    requires OneLine(l)
    ensures FirstLineEnd(l + rest) == |l|
  {
    var data := l + rest;
    if |l| == 1 {
    } else if l[0] == CR {
      assert |l| == 2 && data[1] == LF;
    } else {
      assert data[1..] == l[1..] + rest;
      FirstLineOf(l[1..], rest);
    }
  }

  lemma {:induction false} FirstLineIsOneLine(data: Bytes)
    requires data != [] && data[FirstLineEnd(data) - 1] == LF
    ensures OneLine(data[..FirstLineEnd(data)])
  {
    if data[0] == LF || |data| == 1 || data[0] == CR {
    } else {
      FirstLineIsOneLine(data[1..]);
      var l, l' := data[..FirstLineEnd(data)], data[1..][..FirstLineEnd(data[1..])];
      assert l == [data[0]] + l';
      forall i | 0 <= i < |l| - 1
        ensures l[i] != LF && (l[i] == CR ==> i == |l| - 2)
      {
        if i > 0 { assert l[i] == l'[i - 1]; }
      }
    }
  }

  lemma KeptStep(l: Bytes, rest: Bytes, objects: Recogniser)
    requires OneLine(l) && Complete(l, objects)
    ensures KeptLines(l + rest, objects) == [l] + KeptLines(rest, objects)
  {
    FirstLineOf(l, rest);
    assert (l + rest)[..|l|] == l && (l + rest)[|l|..] == rest;
  }

  lemma {:induction false} KeptOfLines(ls: seq<Bytes>, rest: Bytes, objects: Recogniser)
    requires forall l :: l in ls ==> OneLine(l) && Complete(l, objects)
    ensures KeptLines(Flatten(ls) + rest, objects) == ls + KeptLines(rest, objects)
  {
    if ls == [] {
      assert Flatten(ls) + rest == rest;
    } else {
      var first, others := ls[0], ls[1..];
      assert first in ls;
      calc {
        KeptLines(Flatten(ls) + rest, objects);
        { assert Flatten(ls) + rest == first + (Flatten(others) + rest); }
        KeptLines(first + (Flatten(others) + rest), objects);
        { KeptStep(first, Flatten(others) + rest, objects); }
        [first] + KeptLines(Flatten(others) + rest, objects);
        { KeptOfLines(others, rest, objects); }
        [first] + (others + KeptLines(rest, objects));
        { assert ls == [first] + others; }
        ls + KeptLines(rest, objects);
      }
    }
  }

  lemma {:induction false} KeptAreLines(data: Bytes, objects: Recogniser)
    ensures forall l :: l in KeptLines(data, objects) ==> OneLine(l) && Complete(l, objects)
    ensures Repaired(data, objects) <= data
    decreases |data|
  {
    if data != [] {
      var n := FirstLineEnd(data);
      if Complete(data[..n], objects) {
        FirstLineIsOneLine(data);
        KeptAreLines(data[n..], objects);
        assert data == data[..n] + data[n..];
        var tail := KeptLines(data[n..], objects);
        assert KeptLines(data, objects) == [data[..n]] + tail;
        assert ([data[..n]] + tail)[1..] == tail;
      }
    }
  }

  /** Repair keeps the longest prefix made of complete object lines: every way of
      reading a prefix of the file as such lines is a prefix of what is kept. */
  lemma {:induction false} RepairKeepsLongest(data: Bytes, ls: seq<Bytes>, objects: Recogniser)
    requires forall l :: l in ls ==> OneLine(l) && Complete(l, objects)
    requires Flatten(ls) <= data
    ensures ls <= KeptLines(data, objects)
    ensures Flatten(ls) <= Repaired(data, objects)
  {
    var rest := data[|Flatten(ls)|..];
    assert data == Flatten(ls) + rest;
    KeptOfLines(ls, rest, objects);
    FlattenConcat(ls, KeptLines(rest, objects));
  }

  lemma RepairIdempotent(data: Bytes, objects: Recogniser)
    ensures Clean(Repaired(data, objects), objects)
    ensures KeptLines(Repaired(data, objects), objects) == KeptLines(data, objects)
  {
    var ls := KeptLines(data, objects);
    KeptAreLines(data, objects);
    KeptOfLines(ls, [], objects);
    assert Flatten(ls) + [] == Flatten(ls);
    assert ls + KeptLines([], objects) == ls;
  }

  lemma EncodedLine(text: Bytes, objects: Recogniser)
    requires Encoded(text, objects)
    ensures OneLine(text + [LF]) && Complete(text + [LF], objects)
    ensures KeptLines(text + [LF], objects) == [text + [LF]]
  {
    var l := text + [LF];
    forall i | 0 <= i < |l| - 1 ensures l[i] != LF && l[i] != CR {
      assert l[i] in text;
    }
    assert l[..|l| - 1] == text;
    KeptStep(l, [], objects);
    assert l + [] == l;
  }

  lemma {:induction false} NothingKeptWithoutLF(t: Bytes, objects: Recogniser)
    requires LF !in t
    ensures KeptLines(t, objects) == []
  {
    if t != [] {
      assert t[FirstLineEnd(t) - 1] in t;
    }
  }

  /** Power loss after `n` bytes of a line reached a clean file: repair leaves
      exactly the lines acknowledged before, and the in-flight line only when all
      of it, newline included, was written. */
  lemma RepairAfterTornWrite(data: Bytes, text: Bytes, n: nat, objects: Recogniser)
    requires Clean(data, objects) && Encoded(text, objects) && n <= |text| + 1
    ensures KeptLines(data + (text + [LF])[..n], objects) ==
            KeptLines(data, objects) + (if n == |text| + 1 then [text + [LF]] else [])
    ensures Repaired(data + (text + [LF])[..n], objects) ==
            if n == |text| + 1 then data + text + [LF] else data
  {
    var ls, line := KeptLines(data, objects), text + [LF];
    KeptAreLines(data, objects);
    KeptOfLines(ls, line[..n], objects);
    EncodedLine(text, objects);
    if n == |line| {
      assert line[..n] == line;
      FlattenConcat(ls, [line]);
      FlattenSingle(line);
    } else {
      assert forall i :: 0 <= i < n ==> line[..n][i] == text[i];
      NothingKeptWithoutLF(line[..n], objects);
      assert ls + [] == ls;
    }
  }

  /** State of the scan after `i` complete lines that span `offset` bytes. */
  ghost predicate Scanned(lines: seq<Bytes>, i: nat, offset: nat, objects: Recogniser) {
    i <= |lines| && offset == |Flatten(lines[..i])| &&
    TakeComplete(lines, objects) == lines[..i] + TakeComplete(lines[i..], objects)
  }

  lemma ScanStep(lines: seq<Bytes>, i: nat, offset: nat, objects: Recogniser)
    requires Scanned(lines, i, offset, objects) && i < |lines| && Complete(lines[i], objects)
    ensures Scanned(lines, i + 1, offset + |lines[i]|, objects)
  {
    assert lines[i..][1..] == lines[i + 1..];
    assert lines[..i + 1] == lines[..i] + [lines[i]];
    FlattenConcat(lines[..i], [lines[i]]);
    FlattenSingle(lines[i]);
  }

  lemma ScanDone(data: Bytes, i: nat, offset: nat, objects: Recogniser)
    requires var lines := SplitLines(data);
             Scanned(lines, i, offset, objects) && (i < |lines| ==> !Complete(lines[i], objects))
    ensures offset <= |data| && data[..offset] == Repaired(data, objects)
  {
    var lines := SplitLines(data);
    assert TakeComplete(lines, objects) == lines[..i];
    FlattenConcat(lines[..i], lines[i..]);
    assert lines == lines[..i] + lines[i..];
  }

  /** The repair loop over the raw lines of one file. */
  method FindValidEnd(data: Bytes, objects: Recogniser) returns (validEnd: nat)
    ensures validEnd <= |data|
    ensures data[..validEnd] == Repaired(data, objects)
  {
    var lines := SplitLines(data);
    validEnd := 0;
    var offset := 0;
    var i := 0;
    while i < |lines|
      invariant offset == validEnd && Scanned(lines, i, offset, objects)
    {
      var rawLine := lines[i];
      var nextOffset := offset + |rawLine|;
      if rawLine[|rawLine| - 1] != LF { break; }
      var payload := Strip(rawLine[..|rawLine| - 1]);
      if payload == [] { break; }
      if payload !in objects { break; }
      ScanStep(lines, i, offset, objects);
      validEnd := nextOffset;
      offset := nextOffset;
      i := i + 1;
    }
    ScanDone(data, i, offset, objects);
  }
}
