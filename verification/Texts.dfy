/** `text.split(separator)` and `parts.join(separator)` for a separator of one character. */
module Texts {

  function IndexOf(text: string, separator: char): (i: nat)
    ensures i <= |text| && (i < |text| ==> text[i] == separator)
    ensures forall j :: 0 <= j < i ==> text[j] != separator
  {
    if text == [] || text[0] == separator then 0 else IndexOf(text[1..], separator) + 1
  }

  function Split(text: string, separator: char): (parts: seq<string>)
    ensures parts != []
  {
    var i := IndexOf(text, separator);
    if i == |text| then [text] else [text[..i]] + Split(text[i + 1..], separator)
  }

  function Join(parts: seq<string>, separator: char): string {
    if parts == [] then ""
    else if |parts| == 1 then parts[0]
    else parts[0] + [separator] + Join(parts[1..], separator)
  }

  lemma SplitCons(piece: string, rest: string, separator: char)
    requires separator !in piece
    ensures Split(piece + [separator] + rest, separator) == [piece] + Split(rest, separator)
  {
    var text := piece + [separator] + rest;
    assert text[..|piece|] == piece && text[|piece|] == separator && text[|piece| + 1..] == rest;
    assert forall j :: 0 <= j < |piece| ==> text[j] == piece[j] && piece[j] in piece;
    assert IndexOf(text, separator) == |piece|;
  }

  lemma SplitNone(piece: string, separator: char)
    requires separator !in piece
    ensures Split(piece, separator) == [piece]
  {
  }

  /** Parts without the separator survive joining and splitting. */
  lemma {:induction false} SplitJoin(parts: seq<string>, separator: char)
    requires parts != [] && forall p :: p in parts ==> separator !in p
    ensures Split(Join(parts, separator), separator) == parts
  {
    assert parts[0] in parts;
    if |parts| == 1 {
      SplitNone(parts[0], separator);
    } else {
      SplitJoin(parts[1..], separator);
      SplitCons(parts[0], Join(parts[1..], separator), separator);
    }
  }

  lemma JoinCons(piece: string, parts: seq<string>, separator: char)
    requires parts != []
    ensures Join([piece] + parts, separator) == piece + [separator] + Join(parts, separator)
  {
    assert ([piece] + parts)[1..] == parts;
  }

  lemma Regroup(a: string, b: string, c: string, separator: char)
    ensures a + [separator] + b + [separator] + c == a + [separator] + (b + [separator] + c)
  {
  }

  lemma {:induction false} JoinLast(parts: seq<string>, last: string, separator: char)
    requires parts != []
    ensures Join(parts + [last], separator) == Join(parts, separator) + [separator] + last
  {
    if |parts| == 1 {
      assert (parts + [last])[1..] == [last];
    } else {
      assert (parts + [last])[1..] == parts[1..] + [last];
      JoinLast(parts[1..], last, separator);
      Regroup(parts[0], Join(parts[1..], separator), last, separator);
    }
  }

  /** Every text is the join of what it splits into. */
  lemma {:induction false} JoinSplit(text: string, separator: char)
    ensures Join(Split(text, separator), separator) == text
  {
    hide Join;
    var i := IndexOf(text, separator);
    if i == |text| {
      assert Join([text], separator) == text by { JoinOne(text, separator); }
    } else {
      var piece, rest := text[..i], text[i + 1..];
      JoinSplit(rest, separator);
      JoinCons(piece, Split(rest, separator), separator);
      assert text == piece + [separator] + rest;
    }
  }

  lemma JoinOne(piece: string, separator: char)
    ensures Join([piece], separator) == piece
  {
  }

  lemma {:induction false} PartsHaveNone(text: string, separator: char)
    ensures forall p :: p in Split(text, separator) ==> separator !in p
  {
    var i := IndexOf(text, separator);
    if i < |text| { PartsHaveNone(text[i + 1..], separator); }
  }

  lemma Cut(text: string, separator: char) returns (piece: string, rest: string)
    requires IndexOf(text, separator) < |text|
    ensures separator !in piece && |rest| < |text| && text == piece + [separator] + rest
    ensures Split(text, separator) == [piece] + Split(rest, separator)
  {
    var i := IndexOf(text, separator);
    piece, rest := text[..i], text[i + 1..];
  }

  /** A last part without the separator is split off whole. */
  lemma {:induction false} SplitLast(front: string, last: string, separator: char)
    requires separator !in last
    ensures Split(front + [separator] + last, separator) == Split(front, separator) + [last]
    decreases |front|
  {
    hide Split;
    if IndexOf(front, separator) == |front| {
      SplitNone(front, separator);
      SplitCons(front, last, separator);
      SplitNone(last, separator);
    } else {
      var piece, rest := Cut(front, separator);
      SplitLast(rest, last, separator);
      Regroup(piece, rest, last, separator);
      SplitCons(piece, rest + [separator] + last, separator);
      assert [piece] + (Split(rest, separator) + [last]) == ([piece] + Split(rest, separator)) + [last];
    }
  }
}
