/** De-duplicating batch ingest of the history gateway
    (edge/pi-storage/history_gateway.py:27-28, 102-195). */
module HistoryGateway {
  import opened Collections
  import opened Decimals

  const MAX_RECORDS := 128
  const MAX_RECENT_IDS := 20_000

  /** The identifying fields of a packet of legal shape. */
  datatype Packet = Packet(deviceId: string, bootId: string, sequence: nat)

  function PacketIdentity(p: Packet): Key {
    Key(p.deviceId + (":" + (p.bootId + (":" + Natural(p.sequence)))))
  }

  // -------------------------------------------------------- recent identities

  /** Remembering on a list in insertion order: the new list, and whether the identity
      was new. */
  function Remembered(capacity: nat, items: seq<Key>, identity: Key): (seq<Key>, bool) {
    if identity in items then (items, false)
    else
      var more := items + [identity];
      (if |more| > capacity then more[1..] else more, true)
  }

  class RecentIdentitySet {
    const capacity: nat
    var items: seq<Key>

    constructor (capacity: int := MAX_RECENT_IDS)
      ensures this.capacity == (if capacity < 1 then 1 else capacity) && items == []
    {
      this.capacity := if capacity < 1 then 1 else capacity;
      items := [];
    }

    method Remember(identity: Key) returns (isNew: bool)
      modifies this
      ensures (items, isNew) == Remembered(capacity, old(items), identity)
    {
      if identity in items { return false; }
      items := items + [identity];
      if |items| > capacity { items := items[1..]; }
      return true;
    }
  }

  // ------------------------------------------------------------------- batches

  /** One item of a batch: not a record of legal shape, or a packet with the outcome of
      its signature check. */
  datatype Item = Malformed | Record(packet: Packet, signed: bool)

  datatype BatchError =
    | RecordsRequired | RecordCount | InvalidRecord | SignatureRequired | TokenOrSignatureRequired | AppendFailed

  datatype Policy = Policy(requireDeviceAuth: bool, tokenValid: bool)

  predicate Refused(policy: Policy, signed: bool) {
    !signed && (policy.requireDeviceAuth || !policy.tokenValid)
  }

  /** The validation pass: identities in order, or the first error. */
  function Prepare(policy: Policy, items: seq<Item>): (r: Result<seq<Key>, BatchError>)
    ensures r.Ok? ==> |r.value| == |items|
    ensures r.Err? ==> r.error in {InvalidRecord, SignatureRequired, TokenOrSignatureRequired}
  {
    if items == [] then Ok([])
    else if items[0].Malformed? then Err(InvalidRecord)
    else if Refused(policy, items[0].signed) then
      Err(if policy.requireDeviceAuth then SignatureRequired else TokenOrSignatureRequired)
    else
      var rest := Prepare(policy, items[1..]);
      if rest.Err? then rest else Ok([PacketIdentity(items[0].packet)] + rest.value)
  }

  /** The identities the gateway recognises, those it has stored, and its counters.
      `remembered` is the log of all identities that were ever new. */
  datatype State = State(
    recent: seq<Key>, stored: seq<Key>, remembered: seq<Key>, accepted: nat, duplicates: nat, rejected: nat)

  datatype Pass = Pass(state: State, accepted: nat, duplicates: nat, failed: bool)

  /** One item of the storing pass. `room` is how many appends still succeed before one
      fails; the identity of the failed one is remembered all the same. */
  function StoreOne(capacity: nat, pass: Pass, id: Key, room: nat): (Pass, nat) {
    var s := pass.state;
    var (recent, isNew) := Remembered(capacity, s.recent, id);
    if !isNew then (pass.(duplicates := pass.duplicates + 1), room)
    else
      var s' := s.(recent := recent, remembered := s.remembered + [id]);
      if room == 0 then (pass.(state := s', failed := true), room)
      else (pass.(state := s'.(stored := s.stored + [id]), accepted := pass.accepted + 1), room - 1)
  }

  function StoreAll(capacity: nat, pass: Pass, ids: seq<Key>, room: nat): Pass
    decreases |ids|
  {
    if ids == [] || pass.failed then pass
    else
      var (pass', room') := StoreOne(capacity, pass, ids[0], room);
      StoreAll(capacity, pass', ids[1..], room')
  }

  datatype Reply = Reply(accepted: nat, duplicates: nat)

  function Ingest(capacity: nat, s: State, policy: Policy, items: seq<Item>, room: nat)
    : (State, Result<Reply, BatchError>)
  {
    if !(1 <= |items| <= MAX_RECORDS) then (s, Err(RecordCount))
    else
      match Prepare(policy, items)
      case Err(e) => (if e == InvalidRecord then s else s.(rejected := s.rejected + 1), Err(e))
      case Ok(ids) =>
        var pass := StoreAll(capacity, Pass(s, 0, 0, false), ids, room);
        if pass.failed then (pass.state, Err(AppendFailed))
        else
          (pass.state.(accepted := pass.state.accepted + pass.accepted,
                       duplicates := pass.state.duplicates + pass.duplicates),
           Ok(Reply(pass.accepted, pass.duplicates)))
  }

  /** Identities already prepared, then what the rest of the batch gives. */
  function After(prepared: seq<Key>, rest: Result<seq<Key>, BatchError>): Result<seq<Key>, BatchError> {
    if rest.Err? then rest else Ok(prepared + rest.value)
  }

  lemma AfterStep(prepared: seq<Key>, item: Item, rest: Result<seq<Key>, BatchError>)
    ensures item.Record? && rest.Ok? ==>
      var id := PacketIdentity(item.packet);
      After(prepared, Ok([id] + rest.value)) == After(prepared + [id], rest)
  {
    if item.Record? && rest.Ok? {
      var id := PacketIdentity(item.packet);
      assert prepared + ([id] + rest.value) == (prepared + [id]) + rest.value;
    }
  }

  class HistoryRuntime {
    const recent: RecentIdentitySet
    const requireDeviceAuth: bool
    /** What the history store has been given, in order. */
    var stored: seq<Key>
    ghost var remembered: seq<Key>
    var accepted: nat
    var duplicates: nat
    var rejected: nat

    ghost function View(): State
      reads this, recent
    {
      State(recent.items, stored, remembered, accepted, duplicates, rejected)
    }

    constructor (requireDeviceAuth: bool, capacity: int := MAX_RECENT_IDS)
      ensures View() == State([], [], [], 0, 0, 0) && this.requireDeviceAuth == requireDeviceAuth
      ensures recent.capacity == (if capacity < 1 then 1 else capacity) && fresh(recent)
    {
      this.requireDeviceAuth := requireDeviceAuth;
      recent := new RecentIdentitySet(capacity);
      stored, remembered := [], [];
      accepted, duplicates, rejected := 0, 0, 0;
    }

    method Validate(policy: Policy, items: seq<Item>) returns (r: Result<seq<Key>, BatchError>)
      modifies this`rejected
      ensures r == Prepare(policy, items)
      ensures rejected == old(rejected) + (if r.Err? && r.error != InvalidRecord then 1 else 0)
    {
      var prepared: seq<Key> := [];
      var i := 0;
      assert items[0..] == items;
      assert Prepare(policy, items).Ok? ==> prepared + Prepare(policy, items).value == Prepare(policy, items).value;
      while i < |items|
        invariant i <= |items| && rejected == old(rejected)
        invariant Prepare(policy, items) == After(prepared, Prepare(policy, items[i..]))
      {
        assert items[i..][0] == items[i] && items[i..][1..] == items[i + 1..];
        AfterStep(prepared, items[i], Prepare(policy, items[i + 1..]));
        if items[i].Malformed? { return Err(InvalidRecord); }
        if policy.requireDeviceAuth && !items[i].signed {
          rejected := rejected + 1;
          return Err(SignatureRequired);
        }
        if !policy.requireDeviceAuth && !items[i].signed && !policy.tokenValid {
          rejected := rejected + 1;
          return Err(TokenOrSignatureRequired);
        }
        prepared := prepared + [PacketIdentity(items[i].packet)];
        i := i + 1;
      }
      assert items[i..] == [] && prepared + [] == prepared;
      return Ok(prepared);
    }

    /** One prepared record: remembered if new, then handed to the store. */
    method StoreRecord(id: Key, room: nat, ghost pass: Pass) returns (isNew: bool, ok: bool)
      requires pass.state == View() && !pass.failed
      modifies this, recent
      ensures ok == (!isNew || room > 0)
      ensures StoreOne(recent.capacity, pass, id, room) ==
              (Pass(View(), pass.accepted + (if isNew && ok then 1 else 0),
                    pass.duplicates + (if isNew then 0 else 1), !ok),
               if isNew && ok then room - 1 else room)
      ensures accepted == old(accepted) && duplicates == old(duplicates) && rejected == old(rejected)
    {
      ok := true;
      isNew := recent.Remember(id);
      if !isNew { return; }
      remembered := remembered + [id];
      if room == 0 { return true, false; }
      stored := stored + [id];
    }

    /** `payload` is the records array, if the request carries one. */
    method IngestBatch(tokenValid: bool, payload: Option<seq<Item>>, room: nat) returns (r: Result<Reply, BatchError>)
      modifies this, recent
      ensures payload.None? ==> View() == old(View()) && r == Err(RecordsRequired)
      ensures payload.Some? ==>
        (View(), r) ==
        Ingest(recent.capacity, old(View()), Policy(requireDeviceAuth, tokenValid), payload.value, room)
    {
      hide Prepare, StoreOne;
      if payload.None? { return Err(RecordsRequired); }
      var items := payload.value;
      if !(1 <= |items| <= MAX_RECORDS) { return Err(RecordCount); }
      var prepared := Validate(Policy(requireDeviceAuth, tokenValid), items);
      if prepared.Err? { return Err(prepared.error); }
      var ids := prepared.value;
      var newlyAccepted, newDuplicates, left, i := 0, 0, room, 0;
      ghost var goal := StoreAll(recent.capacity, Pass(View(), 0, 0, false), ids, room);
      assert ids[0..] == ids;
      while i < |ids|
        invariant i <= |ids|
        invariant StoreAll(recent.capacity, Pass(View(), newlyAccepted, newDuplicates, false), ids[i..], left) == goal
        invariant accepted == old(accepted) && duplicates == old(duplicates) && rejected == old(rejected)
      {
        assert ids[i..][0] == ids[i] && ids[i..][1..] == ids[i + 1..];
        ghost var pass := Pass(View(), newlyAccepted, newDuplicates, false);
        StoreAllUnfold(recent.capacity, pass, ids[i..], left);
        var isNew, ok := StoreRecord(ids[i], left, pass);
        if !ok {
          StoreAllStops(recent.capacity, Pass(View(), newlyAccepted, newDuplicates, true), ids[i + 1..], left);
          return Err(AppendFailed);
        }
        if isNew {
          newlyAccepted := newlyAccepted + 1;
          left := left - 1;
        } else {
          newDuplicates := newDuplicates + 1;
        }
        i := i + 1;
      }
      StoreAllEnds(recent.capacity, Pass(View(), newlyAccepted, newDuplicates, false), left);
      assert ids[i..] == [];
      accepted := accepted + newlyAccepted;
      duplicates := duplicates + newDuplicates;
      return Ok(Reply(newlyAccepted, newDuplicates));
    }
  }

  lemma StoreAllUnfold(capacity: nat, pass: Pass, ids: seq<Key>, room: nat)
    requires ids != [] && !pass.failed
    ensures StoreAll(capacity, pass, ids, room) ==
            StoreAll(capacity, StoreOne(capacity, pass, ids[0], room).0, ids[1..],
              StoreOne(capacity, pass, ids[0], room).1)
  {
  }

  lemma StoreAllStops(capacity: nat, pass: Pass, ids: seq<Key>, room: nat)
    requires pass.failed
    ensures StoreAll(capacity, pass, ids, room) == pass
  {
  }

  lemma StoreAllEnds(capacity: nat, pass: Pass, room: nat)
    ensures StoreAll(capacity, pass, [], room) == pass
  {
  }

  // ------------------------------------------------------------------ laws

  function LastN(log: seq<Key>, n: nat): seq<Key> {
    if |log| <= n then log else log[|log| - n..]
  }

  /** Any `capacity + 1` identities in a row are pairwise distinct. */
  predicate Spaced(capacity: nat, log: seq<Key>) {
    forall i, j :: 0 <= i < j < |log| && j - i <= capacity ==> log[i] != log[j]
  }

  /** The recent set is the newest `capacity` identities that were new, in order. */
  predicate RecentInv(capacity: nat, s: State) {
    s.recent == LastN(s.remembered, capacity) && Spaced(capacity, s.remembered)
  }

  lemma RememberKeeps(capacity: nat, log: seq<Key>, id: Key)
    requires capacity >= 1 && Spaced(capacity, log)
    ensures var (recent, isNew) := Remembered(capacity, LastN(log, capacity), id);
            var log' := if isNew then log + [id] else log;
            recent == LastN(log', capacity) && Spaced(capacity, log') && (isNew <==> id !in LastN(log, capacity))
  {
    var items := LastN(log, capacity);
    if id !in items {
      var log' := log + [id];
      forall i, j | 0 <= i < j < |log'| && j - i <= capacity ensures log'[i] != log'[j] {
        if j == |log| {
          assert log[i] in items by {
            if |log| > capacity { assert items[i - (|log| - capacity)] == log[i]; }
          }
        }
      }
    }
  }

  /** How the counters, the store and the log of new identities move together: `added`
      was stored since `start`, and `lost` remembered before the append that failed. */
  predicate PassInv(capacity: nat, start: State, pass: Pass, done: nat, added: seq<Key>, lost: seq<Key>) {
    RecentInv(capacity, pass.state) &&
    pass.state.stored == start.stored + added && pass.state.remembered == start.remembered + (added + lost) &&
    |added| == pass.accepted && |lost| == (if pass.failed then 1 else 0) &&
    pass.accepted + pass.duplicates + |lost| == done &&
    pass.state.accepted == start.accepted && pass.state.duplicates == start.duplicates &&
      pass.state.rejected == start.rejected
  }

  lemma StoreOneKeeps(capacity: nat, start: State, pass: Pass, done: nat, added: seq<Key>, id: Key, room: nat)
    returns (added': seq<Key>, lost: seq<Key>)
    requires capacity >= 1 && PassInv(capacity, start, pass, done, added, []) && !pass.failed
    ensures PassInv(capacity, start, StoreOne(capacity, pass, id, room).0, done + 1, added', lost)
    ensures !StoreOne(capacity, pass, id, room).0.failed ==> lost == []
  {
    RememberKeeps(capacity, pass.state.remembered, id);
    assert added + [] == added;
    assert start.remembered + added + [id] == start.remembered + (added + [id]);
    assert start.stored + added + [id] == start.stored + (added + [id]);
    if !Remembered(capacity, pass.state.recent, id).1 {
      added', lost := added, [];
    } else if room == 0 {
      added', lost := added, [id];
    } else {
      added', lost := added + [id], [];
      assert added' + [] == added';
    }
  }

  lemma {:induction false} StoreAllKeeps(capacity: nat, start: State, pass: Pass, done: nat, added: seq<Key>,
      ids: seq<Key>, room: nat)
    returns (final: Pass, n: nat, all: seq<Key>, lost: seq<Key>)
    requires capacity >= 1 && PassInv(capacity, start, pass, done, added, []) && !pass.failed
    ensures final == StoreAll(capacity, pass, ids, room)
    ensures n <= done + |ids| && PassInv(capacity, start, final, n, all, lost)
    ensures !final.failed ==> n == done + |ids| && lost == []
    ensures room >= |ids| ==> !final.failed
    decreases |ids|
  {
    hide StoreOne, PassInv, StoreAll;
    if ids == [] {
      StoreAllEnds(capacity, pass, room);
      final, n, all, lost := pass, done, added, [];
    } else {
      StoreAllUnfold(capacity, pass, ids, room);
      var (pass', room') := StoreOne(capacity, pass, ids[0], room);
      var added', lost' := StoreOneKeeps(capacity, start, pass, done, added, ids[0], room);
      RoomShrinks(capacity, pass, ids[0], room);
      if pass'.failed {
        StoreAllStops(capacity, pass', ids[1..], room');
        final, n, all, lost := pass', done + 1, added', lost';
      } else {
        final, n, all, lost := StoreAllKeeps(capacity, start, pass', done + 1, added', ids[1..], room');
      }
    }
  }

  lemma RoomShrinks(capacity: nat, pass: Pass, id: Key, room: nat)
    requires !pass.failed
    ensures StoreOne(capacity, pass, id, room).1 + 1 >= room
    ensures room > 0 ==> !StoreOne(capacity, pass, id, room).0.failed
  {
  }

  predicate Legal(policy: Policy, item: Item) {
    item.Record? && !Refused(policy, item.signed)
  }

  lemma {:induction false} PreparedIsLegal(policy: Policy, items: seq<Item>, i: nat)
    requires Prepare(policy, items).Ok? && i < |items|
    ensures Legal(policy, items[i])
  {
    if i > 0 { PreparedIsLegal(policy, items[1..], i - 1); }
  }

  lemma {:induction false} UnpreparedIsIllegal(policy: Policy, items: seq<Item>) returns (i: nat)
    requires Prepare(policy, items).Err?
    ensures i < |items| && !Legal(policy, items[i])
  {
    if Legal(policy, items[0]) {
      var k := UnpreparedIsIllegal(policy, items[1..]);
      i := k + 1;
    } else {
      i := 0;
    }
  }

  /** What one batch does. A batch with any record that is malformed or refused stores
      and remembers nothing. Otherwise every record is counted once, as stored or as a
      duplicate, unless an append fails; what is stored is what was new, in order. */
  lemma BatchLaws(capacity: nat, s: State, policy: Policy, items: seq<Item>, room: nat)
    requires capacity >= 1 && RecentInv(capacity, s) && 1 <= |items| <= MAX_RECORDS
    ensures var (s', r) := Ingest(capacity, s, policy, items, room);
            RecentInv(capacity, s') && s.stored <= s'.stored && s.remembered <= s'.remembered &&
            (r.Ok? ==> r.value.accepted + r.value.duplicates == |items| &&
                       s'.stored[|s.stored|..] == s'.remembered[|s.remembered|..])
    ensures var (s', r) := Ingest(capacity, s, policy, items, room);
            (exists i :: 0 <= i < |items| && !Legal(policy, items[i])) <==> r.Err? && r.error != AppendFailed
    ensures var (s', r) := Ingest(capacity, s, policy, items, room);
            r.Err? && r.error != AppendFailed ==>
            s'.stored == s.stored && s'.remembered == s.remembered && s'.recent == s.recent
    ensures var (s', r) := Ingest(capacity, s, policy, items, room);
            room >= |items| ==> r != Err(AppendFailed)
  {
    var prepared := Prepare(policy, items);
    if prepared.Ok? {
      forall i | 0 <= i < |items| ensures Legal(policy, items[i]) { PreparedIsLegal(policy, items, i); }
      assert s.stored + [] == s.stored && s.remembered + ([] + []) == s.remembered;
      var final, n, all, lost := StoreAllKeeps(capacity, s, Pass(s, 0, 0, false), 0, [], prepared.value, room);
      assert all + [] == all;
    } else {
      var i := UnpreparedIsIllegal(policy, items);
    }
  }

  datatype Batch = Batch(policy: Policy, items: seq<Item>, room: nat)

  function Run(capacity: nat, s: State, batches: seq<Batch>): State
    decreases |batches|
  {
    if batches == [] then s
    else Run(capacity, Ingest(capacity, s, batches[0].policy, batches[0].items, batches[0].room).0, batches[1..])
  }

  lemma IngestKeeps(capacity: nat, s: State, b: Batch) returns (s': State)
    requires capacity >= 1 && RecentInv(capacity, s)
    ensures s' == Ingest(capacity, s, b.policy, b.items, b.room).0 && RecentInv(capacity, s')
    ensures b.room >= |b.items| && s.stored == s.remembered ==> s'.stored == s'.remembered
  {
    s' := Ingest(capacity, s, b.policy, b.items, b.room).0;
    if 1 <= |b.items| <= MAX_RECORDS {
      BatchLaws(capacity, s, b.policy, b.items, b.room);
      var r := Ingest(capacity, s, b.policy, b.items, b.room).1;
      if r.Ok? && s.stored == s.remembered {
        assert s'.stored == s.stored + s'.stored[|s.stored|..];
        assert s'.remembered == s.remembered + s'.remembered[|s.remembered|..];
      }
    }
  }

  /** Over every run of batches the recent set is the newest `capacity` identities that
      were new, in order; and when no append fails, those are the identities stored, so
      any `capacity + 1` stored in a row are pairwise distinct. */
  lemma {:induction false} RunLaws(capacity: nat, s: State, batches: seq<Batch>) returns (s': State)
    requires capacity >= 1 && RecentInv(capacity, s)
    ensures s' == Run(capacity, s, batches) && RecentInv(capacity, s')
    ensures s.stored == s.remembered && (forall i :: 0 <= i < |batches| ==> batches[i].room >= |batches[i].items|) ==>
      s'.stored == s'.remembered && Spaced(capacity, s'.stored)
    decreases |batches|
  {
    hide Ingest;
    if batches == [] {
      s' := s;
    } else {
      var next := IngestKeeps(capacity, s, batches[0]);
      assert forall i :: 0 <= i < |batches[1..]| ==> batches[1..][i] == batches[i + 1];
      s' := RunLaws(capacity, next, batches[1..]);
    }
  }

  // ------------------------------------------------------------------ identity

  /** Identities are equal exactly when the sequence numbers are and the device and
      boot ids read the same around their colon. */
  lemma IdentityEqualIff(p: Packet, q: Packet)
    ensures PacketIdentity(p) == PacketIdentity(q) <==>
      p.sequence == q.sequence && p.deviceId + (":" + p.bootId) == q.deviceId + (":" + q.bootId)
  {
    var x, y := Natural(p.sequence), Natural(q.sequence);
    var a, b := p.deviceId + (":" + p.bootId), q.deviceId + (":" + q.bootId);
    Reassociate(p.deviceId, p.bootId, x);
    Reassociate(q.deviceId, q.bootId, y);
    assert ':' !in x && ':' !in y;
    if PacketIdentity(p) == PacketIdentity(q) {
      LastSplit(':', a, b, x, y);
      NaturalReadsBack(p.sequence);
      NaturalReadsBack(q.sequence);
    }
  }

  lemma Reassociate(a: string, b: string, x: string)
    ensures a + (":" + (b + (":" + x))) == (a + (":" + b)) + (":" + x)
  {
  }

  /** The lengths that `validate_packet_shape` allows. */
  predicate LegalIds(p: Packet) {
    1 <= |p.deviceId| <= 96 && 6 <= |p.bootId| <= 128
  }

  /** Device and boot id as an identity spells them. */
  function BothIds(p: Packet): string {
    p.deviceId + (":" + p.bootId)
  }

  /** A second colon at which the ids could be divided into legal ones. */
  predicate DividesAt(p: Packet, k: nat) {
    var w := BothIds(p);
    k < |w| && k != |p.deviceId| && w[k] == ':' && 1 <= k <= 96 && 6 <= |w| - k - 1 <= 128
  }

  predicate Ambiguous(p: Packet) {
    exists k: nat :: k < |BothIds(p)| && DividesAt(p, k)
  }

  /** The packet that the other division reads. */
  function DividedAt(p: Packet, k: nat): Packet
    requires DividesAt(p, k)
  {
    Packet(BothIds(p)[..k], BothIds(p)[k + 1..], p.sequence)
  }

  lemma OtherDivision(p: Packet, k: nat)
    requires DividesAt(p, k)
    ensures var q := DividedAt(p, k); q != p && LegalIds(q) && PacketIdentity(q) == PacketIdentity(p)
  {
    var w, q := BothIds(p), DividedAt(p, k);
    assert |q.deviceId| == k;
    assert BothIds(q) == w;
    IdentityEqualIff(q, p);
  }

  lemma SharedDivides(p: Packet, q: Packet)
    requires LegalIds(q) && q != p && PacketIdentity(q) == PacketIdentity(p)
    ensures DividesAt(p, |q.deviceId|)
  {
    IdentityEqualIff(q, p);
    var w, k := BothIds(q), |q.deviceId|;
    assert w == BothIds(p) && w[k] == ':';
    assert q.deviceId == w[..k] && q.bootId == w[k + 1..];
    assert p.deviceId == w[..|p.deviceId|] && p.bootId == w[|p.deviceId| + 1..];
  }

  /** Another legal packet shares the identity of `p` exactly when the two ids of `p`,
      read around their colon, hold a second colon that divides them into legal ids. */
  lemma SharedIdentityIff(p: Packet)
    ensures (exists q :: q != p && LegalIds(q) && PacketIdentity(q) == PacketIdentity(p)) <==> Ambiguous(p)
  {
    hide DividesAt, LegalIds, PacketIdentity;
    if q :| q != p && LegalIds(q) && PacketIdentity(q) == PacketIdentity(p) {
      SharedDivides(p, q);
      assert |q.deviceId| < |BothIds(p)| by { DividesWithin(p, |q.deviceId|); }
    }
    if k: nat :| k < |BothIds(p)| && DividesAt(p, k) {
      OtherDivision(p, k);
    }
  }

  lemma DividesWithin(p: Packet, k: nat)
    requires DividesAt(p, k)
    ensures k < |BothIds(p)|
  {
  }

  /** A colon in the boot id is not enough: the ids here divide in one legal way only. */
  lemma ColonNeedNotCollide(p: Packet)
    requires p == Packet("a", "abcde:x", 0)
    ensures LegalIds(p) && ':' in p.bootId && !Ambiguous(p)
  {
    assert BothIds(p) == "a:abcde:x";
    assert p.bootId[5] == ':';
  }

  /** A record whose identity the gateway already recognises is answered as a duplicate
      and stored nowhere, whatever else its packet holds. */
  lemma RecognisedIsDropped(capacity: nat, s: State, policy: Policy, q: Packet, signed: bool, room: nat)
    requires PacketIdentity(q) in s.recent && !Refused(policy, signed)
    ensures Ingest(capacity, s, policy, [Record(q, signed)], room) ==
            (s.(duplicates := s.duplicates + 1), Ok(Reply(0, 1)))
  {
    hide PacketIdentity;
    var item, id := Record(q, signed), PacketIdentity(q);
    assert [item][1..] == [] && [id] + [] == [id];
    assert Prepare(policy, [item]) == Ok([id]);
    StoreOneOnly(capacity, Pass(s, 0, 0, false), id, room);
  }

  lemma StoreOneOnly(capacity: nat, pass: Pass, id: Key, room: nat)
    requires !pass.failed
    ensures StoreAll(capacity, pass, [id], room) == StoreOne(capacity, pass, id, room).0
  {
    assert [id][1..] == [];
  }

  lemma StoredIsRecognised(capacity: nat, s: State, policy: Policy, p: Packet, signed: bool, room: nat)
    requires capacity >= 1 && !Refused(policy, signed)
    ensures PacketIdentity(p) in Ingest(capacity, s, policy, [Record(p, signed)], room).0.recent
  {
    hide PacketIdentity;
    var item, id := Record(p, signed), PacketIdentity(p);
    assert [item][1..] == [] && [id] + [] == [id];
    assert Prepare(policy, [item]) == Ok([id]);
    StoreOneOnly(capacity, Pass(s, 0, 0, false), id, room);
    RememberedHas(capacity, s.recent, id);
  }

  lemma RememberedHas(capacity: nat, items: seq<Key>, identity: Key)
    requires capacity >= 1
    ensures identity in Remembered(capacity, items, identity).0
  {
    var more := items + [identity];
    assert identity !in items && |more| > capacity ==> more[1..][|more| - 2] == identity;
  }

  /** Every packet with an ambiguous identity hides another legal one: once the first
      has been ingested, the second is answered as a duplicate and never stored. */
  lemma AmbiguousHidesAnother(capacity: nat, s: State, policy: Policy, p: Packet, room: nat) returns (q: Packet)
    requires capacity >= 1 && Ambiguous(p)
    ensures q != p && LegalIds(q)
    ensures var s' := Ingest(capacity, s, policy, [Record(p, true)], room).0;
            Ingest(capacity, s', policy, [Record(q, true)], room) ==
            (s'.(duplicates := s'.duplicates + 1), Ok(Reply(0, 1)))
  {
    hide PacketIdentity, DividesAt, LegalIds, Ingest;
    SharedIdentityIff(p);
    q :| q != p && LegalIds(q) && PacketIdentity(q) == PacketIdentity(p);
    StoredIsRecognised(capacity, s, policy, p, true, room);
    RecognisedIsDropped(capacity, Ingest(capacity, s, policy, [Record(p, true)], room).0, policy, q, true, room);
  }

  /** With boot ids free of colons an identity belongs to one packet. */
  lemma IdentityDeterminesPacket(p: Packet, q: Packet)
    requires ':' !in p.bootId && ':' !in q.bootId && PacketIdentity(p) == PacketIdentity(q)
    ensures p == q
  {
    IdentityEqualIff(p, q);
    LastSplit(':', p.deviceId, q.deviceId, p.bootId, q.bootId);
  }

  /** With a colon in a boot id it need not: two legal packets of different devices
      share an identity, and the gateway keeps only the first. */
  lemma IdentityCollides() returns (p: Packet, q: Packet)
    ensures p.deviceId != q.deviceId && PacketIdentity(p) == PacketIdentity(q) && LegalIds(p) && LegalIds(q)
  {
    p, q := Packet("a", "b:cccccc", 0), Packet("a:b", "cccccc", 0);
    assert "a" + (":" + "b:cccccc") == "a:b" + (":" + "cccccc");
    IdentityEqualIff(p, q);
    assert |p.deviceId| == 1 && |q.deviceId| == 3;
  }
}
