/** The edge event buffer (services/risk-engine/src/event-buffer.ts:6-51): newest
    records first, a set of keys already seen, and the rebuild of that set from the
    ids of the records kept. Timestamps are whole milliseconds. */
module EventBuffers {
  import opened Collections
  import opened Decimals
  import opened Texts

  datatype Severity = Safe | Caution | Critical

  function SeverityText(s: Severity): string {
    match s
    case Safe => "safe"
    case Caution => "caution"
    case Critical => "critical"
  }

  /** `content` stands for the fields that ingest only copies. */
  datatype Alert = Alert(id: string, severity: Severity, timestampMs: int, content: Key)

  datatype Record = Record(id: Key, timestampMs: int, sequence: int, severity: Severity, content: Key)

  function DedupeKey(a: Alert): Key {
    Key(a.id + [':'] + SeverityText(a.severity))
  }

  function RecordId(key: Key, timestampMs: int): Key {
    Key(key.text + [':'] + Integer(timestampMs))
  }

  function RecordOf(sequence: int, a: Alert): Record {
    Record(RecordId(DedupeKey(a), a.timestampMs), a.timestampMs, sequence, a.severity, a.content)
  }

  /** The key as the rebuild reads it from a record's id: all but the last part. */
  function KeyOf(r: Record): Key {
    var parts := Split(r.id.text, ':');
    Key(Join(parts[..|parts| - 1], ':'))
  }

  lemma IntegerHasNoColon(n: int)
    ensures ':' !in Integer(n)
  {
    var s := Integer(n);
    forall i | 0 <= i < |s| ensures s[i] != ':' { assert IsDigit(s[i]) || s[i] == '-'; }
  }

  /** The rebuild reads back exactly the key a record was made with, whatever colons
      the alert's id holds. */
  lemma KeyRecovered(sequence: int, a: Alert)
    ensures KeyOf(RecordOf(sequence, a)) == DedupeKey(a)
  {
    hide Split, Join;
    var key, last := DedupeKey(a).text, Integer(a.timestampMs);
    IntegerHasNoColon(a.timestampMs);
    SplitLast(key, last, ':');
    var parts := Split(key + [':'] + last, ':');
    assert parts[..|parts| - 1] == Split(key, ':');
    JoinSplit(key, ':');
  }

  /** A key stands for one alert id and one severity. */
  lemma KeyDetermines(a: Alert, b: Alert)
    requires DedupeKey(a) == DedupeKey(b)
    ensures a.id == b.id && a.severity == b.severity
  {
    hide Split;
    SplitLast(a.id, SeverityText(a.severity), ':');
    SplitLast(b.id, SeverityText(b.severity), ':');
    JoinSplit(a.id, ':');
    JoinSplit(b.id, ':');
    assert Split(a.id, ':') == Split(b.id, ':') && SeverityText(a.severity) == SeverityText(b.severity) by {
      var whole := Split(DedupeKey(a).text, ':');
      assert Split(a.id, ':') == whole[..|whole| - 1] && Split(b.id, ':') == whole[..|whole| - 1];
      assert SeverityText(a.severity) == whole[|whole| - 1] && SeverityText(b.severity) == whole[|whole| - 1];
    }
  }

  // ------------------------------------------------------------------ steps

  datatype Buffer = Buffer(records: seq<Record>, seen: set<Key>)

  function KeysOf(records: seq<Record>): set<Key> {
    set r | r in records :: KeyOf(r)
  }

  function Newest(capacity: nat, records: seq<Record>): seq<Record> {
    if |records| > capacity then records[..capacity] else records
  }

  function Step(capacity: nat, b: Buffer, sequence: int, a: Alert): Buffer {
    if DedupeKey(a) in b.seen then b
    else
      var records := Newest(capacity, [RecordOf(sequence, a)] + b.records);
      var seen := b.seen + {DedupeKey(a)};
      Buffer(records, if |seen| > capacity * 4 then KeysOf(records) else seen)
  }

  /** The records one alert creates: itself, unless its key has been seen. */
  function Created(b: Buffer, sequence: int, a: Alert): seq<Record> {
    if DedupeKey(a) in b.seen then [] else [RecordOf(sequence, a)]
  }

  datatype Item = Item(sequence: int, alert: Alert)

  /** The buffer after a history of alerts, and everything it created, oldest first. */
  function After(capacity: nat, b: Buffer, items: seq<Item>): Buffer {
    if items == [] then b
    else
      var n := |items| - 1;
      Step(capacity, After(capacity, b, items[..n]), items[n].sequence, items[n].alert)
  }

  function Log(capacity: nat, b: Buffer, items: seq<Item>): seq<Record> {
    if items == [] then []
    else
      var n := |items| - 1;
      Log(capacity, b, items[..n]) + Created(After(capacity, b, items[..n]), items[n].sequence, items[n].alert)
  }

  function ItemsOf(sequence: int, alerts: seq<Alert>): seq<Item> {
    if alerts == [] then [] else ItemsOf(sequence, alerts[..|alerts| - 1]) + [Item(sequence, alerts[|alerts| - 1])]
  }

  lemma ItemsSnoc(sequence: int, alerts: seq<Alert>, i: nat)
    requires i < |alerts|
    ensures ItemsOf(sequence, alerts[..i + 1]) == ItemsOf(sequence, alerts[..i]) + [Item(sequence, alerts[i])]
  {
    assert alerts[..i + 1][..i] == alerts[..i];
  }

  lemma StepSnoc(capacity: nat, b: Buffer, items: seq<Item>, item: Item)
    ensures After(capacity, b, items + [item]) ==
            Step(capacity, After(capacity, b, items), item.sequence, item.alert)
    ensures Log(capacity, b, items + [item]) ==
            Log(capacity, b, items) + Created(After(capacity, b, items), item.sequence, item.alert)
  {
    assert (items + [item])[..|items|] == items;
  }

  lemma NothingYet(capacity: nat, b: Buffer, sequence: int, alerts: seq<Alert>)
    ensures After(capacity, b, ItemsOf(sequence, alerts[..0])) == b &&
      Log(capacity, b, ItemsOf(sequence, alerts[..0])) == []
  {
  }

  class EdgeEventBuffer {
    const capacity: nat
    var records: seq<Record>
    var seen: set<Key>

    predicate Valid() {
      1 <= capacity <= 10_000
    }

    function Contents(): Buffer
      reads this
    {
      Buffer(records, seen)
    }

    constructor (capacity: nat)
      requires 1 <= capacity <= 10_000
      ensures Valid() && this.capacity == capacity && Contents() == Buffer([], {})
    {
      this.capacity := capacity;
      records, seen := [], {};
    }

    /** Construction as callers see it: a capacity out of range is refused. */
    static method Open(capacity: int) returns (r: Option<EdgeEventBuffer>)
      ensures r.Some? <==> 1 <= capacity <= 10_000
      ensures r.Some? ==>
        fresh(r.value) && r.value.Valid() && r.value.capacity == capacity && r.value.Contents() == Buffer([], {})
    {
      if capacity < 1 || capacity > 10_000 { return None; }
      var buffer := new EdgeEventBuffer(capacity);
      return Some(buffer);
    }

    method RebuildSeen()
      modifies this`seen
      ensures seen == KeysOf(records)
    {
      seen := {};
      var i := 0;
      while i < |records|
        invariant i <= |records| && seen == KeysOf(records[..i])
      {
        assert records[..i + 1] == records[..i] + [records[i]];
        seen := seen + {KeyOf(records[i])};
        i := i + 1;
      }
      assert records[..i] == records;
    }

    method Ingest(sequence: int, alerts: seq<Alert>) returns (created: seq<Record>)
      requires Valid()
      modifies this
      ensures Contents() == After(capacity, old(Contents()), ItemsOf(sequence, alerts))
      ensures created == Log(capacity, old(Contents()), ItemsOf(sequence, alerts))
    {
      hide KeysOf, DedupeKey, RecordOf, After, Log, ItemsOf;
      NothingYet(capacity, Contents(), sequence, alerts);
      created := [];
      var i := 0;
      while i < |alerts|
        invariant i <= |alerts|
        invariant Contents() == After(capacity, old(Contents()), ItemsOf(sequence, alerts[..i]))
        invariant created == Log(capacity, old(Contents()), ItemsOf(sequence, alerts[..i]))
      {
        var alert := alerts[i];
        ghost var before := Contents();
        ItemsSnoc(sequence, alerts, i);
        StepSnoc(capacity, old(Contents()), ItemsOf(sequence, alerts[..i]), Item(sequence, alert));
        var dedupeKey := DedupeKey(alert);
        if dedupeKey !in seen {
          seen := seen + {dedupeKey};
          var record := RecordOf(sequence, alert);
          records := [record] + records;
          created := created + [record];
          if |records| > capacity { records := records[..capacity]; }
          if |seen| > capacity * 4 { RebuildSeen(); }
        }
        assert Contents() == Step(capacity, before, sequence, alert);
        i := i + 1;
      }
      assert alerts[..i] == alerts;
    }
  }

  // ------------------------------------------------------------------- laws

  const EMPTY := Buffer([], {})

  /** What the buffer keeps, against the log of everything it ever created. */
  predicate Inv(capacity: nat, b: Buffer, log: seq<Record>) {
    |b.records| == (if |log| > capacity then capacity else |log|) &&
    (forall k :: 0 <= k < |b.records| ==> b.records[k] == log[|log| - 1 - k]) &&
    KeysOf(b.records) <= b.seen <= KeysOf(log) &&
    |b.seen| <= capacity * 4
  }

  lemma {:induction false} KeysAtMost(records: seq<Record>)
    ensures |KeysOf(records)| <= |records|
  {
    if records == [] {
      assert KeysOf(records) == {};
    } else {
      KeysAtMost(records[1..]);
      assert records == [records[0]] + records[1..];
      assert KeysOf(records) == {KeyOf(records[0])} + KeysOf(records[1..]);
    }
  }

  lemma KeysWithin(records: seq<Record>, log: seq<Record>)
    requires forall r :: r in records ==> r in log
    ensures KeysOf(records) <= KeysOf(log)
  {
  }

  lemma NewestKeys(capacity: nat, records: seq<Record>)
    ensures KeysOf(Newest(capacity, records)) <= KeysOf(records)
  {
    hide KeyOf;
    KeysWithin(Newest(capacity, records), records);
  }

  lemma KeysSnoc(log: seq<Record>, r: Record)
    ensures KeysOf(log + [r]) == KeysOf(log) + {KeyOf(r)}
    ensures KeysOf([r] + log) == KeysOf(log) + {KeyOf(r)}
  {
    hide KeyOf;
  }

  lemma NewestOfLog(capacity: nat, records: seq<Record>, log: seq<Record>, r: Record)
    requires |records| == (if |log| > capacity then capacity else |log|)
    requires forall k :: 0 <= k < |records| ==> records[k] == log[|log| - 1 - k]
    ensures var records', log' := Newest(capacity, [r] + records), log + [r];
            |records'| == (if |log'| > capacity then capacity else |log'|) &&
            (forall k :: 0 <= k < |records'| ==> records'[k] == log'[|log'| - 1 - k])
  {
  }

  /** One alert keeps the invariant; it is dropped only if its key was logged before. */
  lemma StepKeepsInv(capacity: nat, b: Buffer, log: seq<Record>, sequence: int, a: Alert)
    requires capacity >= 1 && Inv(capacity, b, log)
    ensures Inv(capacity, Step(capacity, b, sequence, a), log + Created(b, sequence, a))
    ensures Created(b, sequence, a) == [] ==> DedupeKey(a) in KeysOf(log)
  {
    hide KeysOf, KeyOf, DedupeKey, RecordOf, Newest;
    if DedupeKey(a) in b.seen {
      assert log + [] == log;
    } else {
      var r := RecordOf(sequence, a);
      KeyRecovered(sequence, a);
      var records := Newest(capacity, [r] + b.records);
      NewestOfLog(capacity, b.records, log, r);
      KeysSnoc(log, r);
      KeysSnoc(b.records, r);
      NewestKeys(capacity, [r] + b.records);
      KeysAtMost(records);
    }
  }

  /** Over every history: the records are the newest `capacity` ever created, newest
      first; every kept key is remembered, nothing is remembered that was never
      created, and at most four times the capacity is remembered. */
  lemma {:induction false} RunKeepsInv(capacity: nat, items: seq<Item>)
    requires capacity >= 1
    ensures Inv(capacity, After(capacity, EMPTY, items), Log(capacity, EMPTY, items))
  {
    hide Inv, Step, Created;
    if items == [] {
      EmptyInv(capacity);
    } else {
      var n := |items| - 1;
      RunKeepsInv(capacity, items[..n]);
      StepKeepsInv(capacity, After(capacity, EMPTY, items[..n]), Log(capacity, EMPTY, items[..n]),
                   items[n].sequence, items[n].alert);
    }
  }

  lemma EmptyInv(capacity: nat)
    ensures Inv(capacity, EMPTY, [])
  {
  }

  /** Between two records with one key lie at least `capacity` records created. */
  predicate WindowDistinct(capacity: nat, log: seq<Record>) {
    forall i, j :: 0 <= i < j < |log| && j - i <= capacity ==> KeyOf(log[i]) != KeyOf(log[j])
  }

  lemma NewKeyIsFar(capacity: nat, b: Buffer, log: seq<Record>, r: Record, i: nat)
    requires Inv(capacity, b, log) && KeyOf(r) !in b.seen && i < |log| && |log| - i <= capacity
    ensures KeyOf(log[i]) != KeyOf(r)
  {
    hide KeyOf;
    assert b.records[|log| - 1 - i] == log[i];
    assert KeyOf(log[i]) in KeysOf(b.records);
  }

  /** Over every history any `capacity + 1` consecutively created records have pairwise
      different keys, and an alert is dropped only when its key was created before. */
  lemma {:induction false} Deduplicates(capacity: nat, items: seq<Item>)
    requires capacity >= 1
    ensures WindowDistinct(capacity, Log(capacity, EMPTY, items))
    ensures forall a, sequence :: Created(After(capacity, EMPTY, items), sequence, a) == [] ==>
                                    DedupeKey(a) in KeysOf(Log(capacity, EMPTY, items))
  {
    hide KeyOf, KeysOf, Inv, DedupeKey, RecordOf, Step;
    RunKeepsInv(capacity, items);
    forall a, sequence | Created(After(capacity, EMPTY, items), sequence, a) == []
      ensures DedupeKey(a) in KeysOf(Log(capacity, EMPTY, items))
    {
      StepKeepsInv(capacity, After(capacity, EMPTY, items), Log(capacity, EMPTY, items), sequence, a);
    }
    if items != [] {
      var n := |items| - 1;
      Deduplicates(capacity, items[..n]);
      RunKeepsInv(capacity, items[..n]);
      var b, log := After(capacity, EMPTY, items[..n]), Log(capacity, EMPTY, items[..n]);
      WindowGrows(capacity, b, log, items[n].sequence, items[n].alert);
    }
  }

  lemma WindowGrows(capacity: nat, b: Buffer, log: seq<Record>, sequence: int, a: Alert)
    requires Inv(capacity, b, log) && WindowDistinct(capacity, log)
    ensures WindowDistinct(capacity, log + Created(b, sequence, a))
  {
    hide KeyOf, Inv, DedupeKey, RecordOf;
    if DedupeKey(a) in b.seen {
      assert log + [] == log;
    } else {
      var r := RecordOf(sequence, a);
      KeyRecovered(sequence, a);
      forall i | 0 <= i < |log| && |log| - i <= capacity ensures KeyOf(log[i]) != KeyOf(r) {
        NewKeyIsFar(capacity, b, log, r, i);
      }
    }
  }

  /** The records kept always have pairwise different keys. */
  lemma RetainedDistinct(capacity: nat, items: seq<Item>, i: nat, j: nat)
    requires capacity >= 1 && i < j < |After(capacity, EMPTY, items).records|
    ensures var records := After(capacity, EMPTY, items).records; KeyOf(records[i]) != KeyOf(records[j])
  {
    hide KeyOf, KeysOf, After, Log;
    RunKeepsInv(capacity, items);
    Deduplicates(capacity, items);
    var log := Log(capacity, EMPTY, items);
    assert KeyOf(log[|log| - 1 - j]) != KeyOf(log[|log| - 1 - i]);
  }
}
