/** One codec that meets the laws the audit theorems ask of JSON and SHA-256, so that
    they speak of something. It spells an envelope's fields out as character codes. */
module AuditCodecs {
  import opened Collections
  import opened Decimals
  import opened Fractions
  import opened Texts
  import opened AuditVerifier
  import opened AuditJournalSafety

  // ------------------------------------------------------------------ spelling

  function Codes(s: string): (codes: seq<string>)
    ensures |codes| == |s| && forall i :: 0 <= i < |s| ==> codes[i] == Integer(s[i] as int)
  {
    seq(|s|, i requires 0 <= i < |s| => Integer(s[i] as int))
  }

  /** The codes of the characters, after a leading zero. */
  function Word(s: string): string {
    Join(["0"] + Codes(s), ',')
  }

  function Words(fields: seq<string>): (words: seq<string>)
    ensures |words| == |fields| && forall i :: 0 <= i < |fields| ==> words[i] == Word(fields[i])
  {
    seq(|fields|, i requires 0 <= i < |fields| => Word(fields[i]))
  }

  function NumeralText(n: Numeral): string {
    match n
    case Whole(i) => Integer(i)
    case Decimal(x) => Spell(x, EcmaScript)
  }

  function OptionText(o: Option<string>): string {
    if o.Some? then "1" + o.value else "0"
  }

  function Fields(e: Envelope): seq<string> {
    [OptionText(e.previousHash), e.event.id, NumeralText(e.event.timestampMs), NumeralText(e.event.sequence),
     e.event.severity, e.event.kind, e.event.title, e.event.message, OptionText(e.event.objectId),
     NumeralText(e.event.lat), NumeralText(e.event.lng), e.entryHash]
  }

  function Render(e: Envelope): string {
    Join(Words(Fields(e)), ';')
  }

  // -------------------------------------------------------------- reading back

  lemma CodesHaveNone(s: string)
    ensures forall p :: p in ["0"] + Codes(s) ==> ',' !in p && ';' !in p
  {
  }

  lemma WordInjective(s: string, t: string)
    requires Word(s) == Word(t)
    ensures s == t
  {
    CodesHaveNone(s);
    CodesHaveNone(t);
    SplitJoin(["0"] + Codes(s), ',');
    SplitJoin(["0"] + Codes(t), ',');
    var a, b := ["0"] + Codes(s), ["0"] + Codes(t);
    assert a[1..] == Codes(s) && b[1..] == Codes(t);
    assert |s| == |Codes(s)| == |Codes(t)| == |t|;
    forall i | 0 <= i < |s| ensures s[i] == t[i] {
      assert Codes(s)[i] == Codes(t)[i];
      IntegerInjective(s[i] as int, t[i] as int);
    }
  }

  /** What a spelling is made of. */
  predicate Printable(ch: char) {
    IsDigit(ch) || ch == '-' || ch == ',' || ch == ';'
  }

  predicate AllPrintable(s: string) {
    forall i :: 0 <= i < |s| ==> Printable(s[i])
  }

  lemma {:induction false} JoinPrintable(parts: seq<string>, separator: char)
    requires Printable(separator) && forall p :: p in parts ==> AllPrintable(p)
    ensures AllPrintable(Join(parts, separator))
    ensures parts != [] && parts[0] != [] ==> Join(parts, separator) != []
  {
    if parts != [] {
      assert parts[0] in parts;
      if |parts| > 1 {
        forall p | p in parts[1..] ensures AllPrintable(p) { assert p in parts; }
        JoinPrintable(parts[1..], separator);
      }
    }
  }

  lemma {:induction false} JoinHasNone(parts: seq<string>, separator: char, ch: char)
    requires ch != separator && forall p :: p in parts ==> ch !in p
    ensures ch !in Join(parts, separator)
  {
    if parts != [] {
      assert parts[0] in parts;
      if |parts| > 1 {
        forall p | p in parts[1..] ensures ch !in p { assert p in parts; }
        JoinHasNone(parts[1..], separator, ch);
      }
    }
  }

  lemma WordPrintable(s: string)
    ensures AllPrintable(Word(s)) && Word(s) != [] && ';' !in Word(s)
  {
    hide Join;
    var parts := ["0"] + Codes(s);
    CodesHaveNone(s);
    forall p | p in parts ensures AllPrintable(p) {}
    JoinPrintable(parts, ',');
    JoinHasNone(parts, ',', ';');
  }

  lemma TrimPrintable(s: string)
    requires AllPrintable(s)
    ensures Trim(s) == s
  {
  }

  lemma RenderClean(e: Envelope)
    ensures CleanLine(Render(e))
  {
    hide Word, Join, Fields, Trim;
    var words := Words(Fields(e));
    forall i | 0 <= i < |words| ensures AllPrintable(words[i]) && words[i] != [] { WordPrintable(Fields(e)[i]); }
    assert |Fields(e)| > 0 by { FieldsCount(e); }
    JoinPrintable(words, ';');
    TrimPrintable(Render(e));
  }

  lemma FieldsCount(e: Envelope)
    ensures |Fields(e)| == 12
  {
  }

  lemma FieldsFromRender(e: Envelope, f: Envelope)
    requires Render(e) == Render(f)
    ensures Fields(e) == Fields(f)
  {
    hide Word, Join, Fields;
    FieldsCount(e);
    FieldsCount(f);
    var a, b := Words(Fields(e)), Words(Fields(f));
    forall i | 0 <= i < 12 ensures ';' !in a[i] && ';' !in b[i] {
      WordPrintable(Fields(e)[i]);
      WordPrintable(Fields(f)[i]);
    }
    SplitJoin(a, ';');
    SplitJoin(b, ';');
    forall i | 0 <= i < 12 ensures Fields(e)[i] == Fields(f)[i] {
      assert a[i] == b[i];
      WordInjective(Fields(e)[i], Fields(f)[i]);
    }
  }

  lemma NumeralDetermines(m: Numeral, n: Numeral)
    requires NumeralText(m) == NumeralText(n)
    ensures m == n
  {
    hide Spell, Integer;
    match (m, n)
    case (Whole(i), Whole(j)) => IntegerInjective(i, j);
    case (Decimal(x), Decimal(y)) => SpellDetermines(x, EcmaScript, y, EcmaScript);
    case (Whole(i), Decimal(y)) => SpellIsNotPlain(y, EcmaScript, i);
    case (Decimal(x), Whole(j)) => SpellIsNotPlain(x, EcmaScript, j);
  }

  lemma OptionDetermines(a: Option<string>, b: Option<string>)
    requires OptionText(a) == OptionText(b)
    ensures a == b
  {
    assert OptionText(a)[0] == OptionText(b)[0];
    if a.Some? {
      assert OptionText(a)[1..] == a.value && OptionText(b)[1..] == b.value;
    }
  }

  lemma FieldsDetermine(e: Envelope, f: Envelope)
    requires Fields(e) == Fields(f)
    ensures e == f
  {
    hide NumeralText, OptionText;
    var a, b := Fields(e), Fields(f);
    assert a[0] == b[0] && a[1] == b[1] && a[2] == b[2] && a[3] == b[3] && a[4] == b[4] && a[5] == b[5];
    assert a[6] == b[6] && a[7] == b[7] && a[8] == b[8] && a[9] == b[9] && a[10] == b[10] && a[11] == b[11];
    OptionDetermines(e.previousHash, f.previousHash);
    NumeralDetermines(e.event.timestampMs, f.event.timestampMs);
    NumeralDetermines(e.event.sequence, f.event.sequence);
    OptionDetermines(e.event.objectId, f.event.objectId);
    NumeralDetermines(e.event.lat, f.event.lat);
    NumeralDetermines(e.event.lng, f.event.lng);
  }

  lemma RenderInjective(e: Envelope, f: Envelope)
    requires Render(e) == Render(f)
    ensures e == f
  {
    FieldsFromRender(e, f);
    FieldsDetermine(e, f);
  }

  // ----------------------------------------------------------------- the codec

  ghost function Parse(line: string): Parsed {
    if exists e :: Render(e) == line then
      var e :| Render(e) == line;
      Object(true, if e.previousHash.None? then NullField else Text(e.previousHash.value), Some(Event(e.event)),
             Text(e.entryHash))
    else NotJson
  }

  const ZEROS: string := seq(64, i => '0')

  /** The laws can be met. */
  lemma LawsCanBeMet() returns (c: Codec)
    ensures CodecLaws(c)
  {
    hide Render;
    c := Codec((p, r) => ZEROS, e => Render(e), line => Parse(line));
    forall e: Envelope
      ensures CleanLine(c.render(e))
      ensures c.parse(c.render(e)) ==
              Object(true, if e.previousHash.None? then NullField else Text(e.previousHash.value),
                     Some(Event(e.event)), Text(e.entryHash))
    {
      RenderClean(e);
      forall f | Render(f) == Render(e) ensures f == e { RenderInjective(f, e); }
    }
  }
}
