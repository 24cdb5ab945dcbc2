/** Which batches the gateway takes, and the answer to those it does not
    (edge/pi-storage/history_gateway.py:143-166). */
module GatewayAdmission {
  import opened Collections
  import opened HistoryGateway

  /** A well-formed record that is signed, or comes with the edge token where signatures
      are not demanded. */
  predicate Admissible(policy: Policy, item: Item) {
    item.Record? && (item.signed || (policy.tokenValid && !policy.requireDeviceAuth))
  }

  predicate FirstBad(policy: Policy, items: seq<Item>, i: nat) {
    i < |items| && !Admissible(policy, items[i]) && forall k :: 0 <= k < i ==> Admissible(policy, items[k])
  }

  /** The error for a record that is not taken. */
  function Complaint(policy: Policy, item: Item): BatchError {
    if item.Malformed? then InvalidRecord
    else if policy.requireDeviceAuth then SignatureRequired
    else TokenOrSignatureRequired
  }

  lemma {:induction false} PrepareIs(policy: Policy, items: seq<Item>)
    ensures Prepare(policy, items).Ok? <==> forall i :: 0 <= i < |items| ==> Admissible(policy, items[i])
    ensures Prepare(policy, items).Ok? ==>
      forall i :: 0 <= i < |items| ==> Prepare(policy, items).value[i] == PacketIdentity(items[i].packet)
  {
    if items != [] {
      var rest := items[1..];
      PrepareIs(policy, rest);
      assert forall i :: 0 <= i < |rest| ==> rest[i] == items[i + 1];
    }
  }

  lemma {:induction false} PrepareComplains(policy: Policy, items: seq<Item>, i: nat)
    requires FirstBad(policy, items, i)
    ensures Prepare(policy, items) == Err(Complaint(policy, items[i]))
  {
    if i > 0 {
      assert Admissible(policy, items[0]);
      forall k | 0 <= k < i - 1 ensures Admissible(policy, items[1..][k]) {
        assert Admissible(policy, items[k + 1]);
      }
      PrepareComplains(policy, items[1..], i - 1);
    }
  }

  /** A batch of 1 to 128 records is taken if and only if every record is admissible;
      otherwise nothing is stored or remembered, and the first record that is not names
      the error and is counted unless it is malformed. */
  lemma BatchTakenIff(capacity: nat, s: State, policy: Policy, items: seq<Item>, room: nat)
    requires 1 <= |items| <= 128
    ensures var (s', r) := Ingest(capacity, s, policy, items, room);
            ((r.Ok? || r == Err(AppendFailed)) <==> forall i :: 0 <= i < |items| ==> Admissible(policy, items[i])) &&
            forall i: nat :: FirstBad(policy, items, i) ==>
              r == Err(Complaint(policy, items[i])) &&
              s' == s.(rejected := s.rejected + (if items[i].Malformed? then 0 else 1))
  {
    hide Prepare, StoreAll, Admissible;
    PrepareIs(policy, items);
    forall i: nat | FirstBad(policy, items, i) ensures Prepare(policy, items) == Err(Complaint(policy, items[i])) {
      PrepareComplains(policy, items, i);
    }
  }

  /** No other number of records is taken. */
  lemma BatchSize(capacity: nat, s: State, policy: Policy, items: seq<Item>, room: nat)
    requires |items| < 1 || |items| > 128
    ensures Ingest(capacity, s, policy, items, room) == (s, Err(RecordCount))
  {
  }
}
