/** What the records of the event buffer say, and when it forgets a key
    (services/risk-engine/src/event-buffer.ts:13-37, 47-50). */
module EventRecords {
  import opened Collections
  import opened Decimals
  import opened EventBuffers

  function Word(s: Severity): string {
    if s.Safe? then "safe" else if s.Caution? then "caution" else "critical"
  }

  /** The record says what the alert said, under an id made of the alert's id, its
      severity and its time, and carries the frame's sequence number. */
  predicate MadeFrom(r: Record, item: Item) {
    r.timestampMs == item.alert.timestampMs && r.sequence == item.sequence && r.severity == item.alert.severity &&
    r.content == item.alert.content &&
    r.id.text == item.alert.id + (":" + (Word(item.alert.severity) + (":" + Integer(item.alert.timestampMs))))
  }

  lemma RecordSays(item: Item)
    ensures MadeFrom(RecordOf(item.sequence, item.alert), item)
  {
    var a := item.alert;
    hide Integer;
    assert a.id + [':'] + SeverityText(a.severity) + [':'] + Integer(a.timestampMs) ==
           a.id + (":" + (Word(a.severity) + (":" + Integer(a.timestampMs))));
  }

  predicate Ascending(places: seq<nat>, below: nat) {
    (forall k :: 0 <= k < |places| ==> places[k] < below) &&
    forall i, j :: 0 <= i < j < |places| ==> places[i] < places[j]
  }

  /** The `k`-th record was made from the alert at place `places[k]`. */
  predicate MadeInOrder(log: seq<Record>, items: seq<Item>, places: seq<nat>) {
    |places| == |log| && Ascending(places, |items|) &&
    forall k :: 0 <= k < |log| ==> MadeFrom(log[k], items[places[k]])
  }

  lemma MadeInOrderLater(log: seq<Record>, items: seq<Item>, places: seq<nat>, item: Item)
    requires MadeInOrder(log, items, places)
    ensures MadeInOrder(log, items + [item], places)
  {
    hide MadeFrom;
    forall k | 0 <= k < |log| ensures MadeFrom(log[k], (items + [item])[places[k]]) {
      assert (items + [item])[places[k]] == items[places[k]];
    }
  }

  lemma MadeInOrderMore(log: seq<Record>, items: seq<Item>, places: seq<nat>, item: Item, r: Record)
    requires MadeInOrder(log, items, places) && MadeFrom(r, item)
    ensures MadeInOrder(log + [r], items + [item], places + [|items|])
  {
    hide MadeFrom;
    MadeInOrderLater(log, items, places, item);
    assert (items + [item])[|items|] == item;
  }

  /** Over every history the records created say what their alerts said, one for each of
      some of the alerts, in their order. */
  lemma {:induction false} CreatedFromAlerts(capacity: nat, items: seq<Item>) returns (places: seq<nat>)
    ensures MadeInOrder(Log(capacity, EMPTY, items), items, places)
  {
    hide Step, RecordOf, MadeFrom, DedupeKey;
    if items == [] {
      places := [];
    } else {
      var n := |items| - 1;
      var front, last := items[..n], items[n];
      assert items == front + [last];
      var before := CreatedFromAlerts(capacity, front);
      var b, log := After(capacity, EMPTY, front), Log(capacity, EMPTY, front);
      if DedupeKey(last.alert) in b.seen {
        MadeInOrderLater(log, front, before, last);
        assert log + [] == log;
        places := before;
      } else {
        RecordSays(last);
        MadeInOrderMore(log, front, before, last, RecordOf(last.sequence, last.alert));
        places := before + [n];
      }
    }
  }

  /** A key is forgotten only by the alert that would make the keys remembered more than
      four times the capacity; then just those of the records kept remain. */
  lemma SeenAfter(capacity: nat, b: Buffer, log: seq<Record>, sequence: int, a: Alert)
    requires capacity >= 1 && Inv(capacity, b, log)
    ensures var key, after := DedupeKey(a), Step(capacity, b, sequence, a);
            if key in b.seen then after == b
            else if |b.seen| < 4 * capacity then after.seen == b.seen + {key}
            else forall k :: k in after.seen <==> exists i :: 0 <= i < |after.records| && KeyOf(after.records[i]) == k
  {
    hide KeyOf, DedupeKey, RecordOf, Newest;
    var key, after := DedupeKey(a), Step(capacity, b, sequence, a);
    if key !in b.seen && |b.seen| >= 4 * capacity {
      forall k ensures k in KeysOf(after.records) <==>
                       exists i :: 0 <= i < |after.records| && KeyOf(after.records[i]) == k
      {
        if k in KeysOf(after.records) {
          var r :| r in after.records && KeyOf(r) == k;
          var i :| 0 <= i < |after.records| && after.records[i] == r;
        }
      }
    }
  }
}
