/** The signed text as the history gateway rebuilds it
    (edge/pi-storage/history_gateway.py:23-40): Python's `json.dumps` with `sort_keys`
    orders keys by code point, where the sender orders them by code unit, and writes some
    small numbers differently. */
module GatewayJson {
  import opened Collections
  import opened CanonicalJson
  import opened CanonicalJsonProofs
  import opened DevicePayloads
  import opened Fractions
  import opened Utf8
  import JsonReader
  import Sorting

  // ------------------------------------------------------------- code points

  function Rest(s: Text): Text
    requires s != []
  {
    s[FirstLength(s)..]
  }

  /** Order of Python's strings: code point by code point. */
  predicate PointLess(a: Text, b: Text)
    decreases |a|
  {
    if b == [] then false
    else if a == [] then true
    else FirstPoint(a) < FirstPoint(b) || (FirstPoint(a) == FirstPoint(b) && PointLess(Rest(a), Rest(b)))
  }

  lemma {:induction false} PointTotal(a: Text, b: Text)
    requires a != b
    ensures PointLess(a, b) || PointLess(b, a)
    decreases |a|
  {
    if a != [] && b != [] && FirstPoint(a) == FirstPoint(b) {
      PointOfCharacter(a, b);
      assert a == a[..FirstLength(a)] + Rest(a) && b == b[..FirstLength(b)] + Rest(b);
      PointTotal(Rest(a), Rest(b));
    }
  }

  lemma {:induction false} PointAsymmetric(a: Text, b: Text)
    requires PointLess(a, b)
    ensures !PointLess(b, a)
    decreases |a|
  {
    if a != [] && FirstPoint(a) == FirstPoint(b) { PointAsymmetric(Rest(a), Rest(b)); }
  }

  lemma {:induction false} PointTransitive(a: Text, b: Text, c: Text)
    requires PointLess(a, b) && PointLess(b, c)
    ensures PointLess(a, c)
    decreases |a|
  {
    if a != [] && FirstPoint(a) == FirstPoint(b) == FirstPoint(c) { PointTransitive(Rest(a), Rest(b), Rest(c)); }
  }

  // ----------------------------------------------------------------- the text

  predicate KeyNoLater(x: Member, y: Member) {
    !PointLess(y.key, x.key)
  }

  /** The value with every object's keys in Python's order. */
  function PointCanon(v: Json): Json
    decreases v, 1
  {
    match v
    case Arr(items) => Arr(PointItems(items))
    case Obj(members) => Obj(Sorting.SortBy(PointMembers(members), KeyNoLater))
    case _ => v
  }

  function PointItems(items: seq<Json>): (r: seq<Json>)
    ensures |r| == |items| && forall i :: 0 <= i < |items| ==> r[i] == PointCanon(items[i])
    decreases items, 0
  {
    if items == [] then [] else [PointCanon(items[0])] + PointItems(items[1..])
  }

  function PointMembers(ms: seq<Member>): (r: seq<Member>)
    ensures |r| == |ms|
    ensures forall i :: 0 <= i < |ms| ==> r[i] == Member(ms[i].key, PointCanon(ms[i].value))
    decreases ms, 0
  {
    if ms == [] then [] else [Member(ms[0].key, PointCanon(ms[0].value))] + PointMembers(ms[1..])
  }

  /** Every string in the value, keys included, is free of unpaired surrogates. */
  predicate AllPaired(v: Json) {
    match v
    case Str(s) => Paired(s)
    case Arr(items) => forall i :: 0 <= i < |items| ==> AllPaired(items[i])
    case Obj(members) =>
      forall i :: 0 <= i < |members| ==> Paired(members[i].key) && AllPaired(members[i].value)
    case _ => true
  }

  /** `_stable_json` once encoded: a string with an unpaired surrogate has no UTF-8, and
      the gateway raises. */
  function GatewayText(v: Json): Option<Text> {
    if AllPaired(v) then Some(Print(PointCanon(v), Python)) else None
  }

  // ---------------------------------------------------------- where they agree

  /** The two orders put `a` and `b` the same way round. */
  predicate SameOrder(a: Text, b: Text) {
    Less(a, b) <==> PointLess(a, b)
  }

  /** Where the keys first differ, one has a surrogate and the other a code unit past
      the surrogates. */
  predicate Clash(a: Text, b: Text) {
    a != [] && b != [] &&
    if a[0] == b[0] then Clash(a[1..], b[1..])
    else (IsSurrogate(a[0]) && b[0] >= 0xE000) || (IsSurrogate(b[0]) && a[0] >= 0xE000)
  }

  lemma FirstDiffers(a: Text, b: Text)
    requires a != [] && b != [] && FirstPoint(a) != FirstPoint(b) && Paired(a) && Paired(b)
    ensures SameOrder(a, b) <==> !Clash(a, b)
  {
    if FirstLength(a) == 2 && FirstLength(b) == 2 && a[0] == b[0] {
      assert a[1..][0] == a[1] && b[1..][0] == b[1] && a[1] != b[1];
      assert Less(a[1..], b[1..]) <==> a[1] < b[1];
      assert !Clash(a[1..], b[1..]);
    }
  }

  lemma FirstSame(a: Text, b: Text)
    requires a != [] && b != [] && FirstPoint(a) == FirstPoint(b)
    ensures Less(a, b) == Less(Rest(a), Rest(b)) && Clash(a, b) == Clash(Rest(a), Rest(b))
  {
    PointOfCharacter(a, b);
    if FirstLength(a) == 2 {
      assert a[..2][0] == b[..2][0] && a[..2][1] == b[..2][1];
      assert a[1..][0] == a[1] && b[1..][0] == b[1] && a[1..][1..] == a[2..] && b[1..][1..] == b[2..];
    } else {
      assert a[..1][0] == b[..1][0];
    }
  }

  /** The two orders differ on exactly the keys that clash. */
  lemma {:induction false} SameOrderIff(a: Text, b: Text)
    requires Paired(a) && Paired(b)
    ensures SameOrder(a, b) <==> !Clash(a, b)
    decreases |a|
  {
    if a != [] && b != [] {
      if FirstPoint(a) == FirstPoint(b) {
        FirstSame(a, b);
        SameOrderIff(Rest(a), Rest(b));
      } else {
        FirstDiffers(a, b);
      }
    }
  }

  /** No object in the value has two keys that clash. */
  predicate NoClash(v: Json) {
    match v
    case Arr(items) => forall i :: 0 <= i < |items| ==> NoClash(items[i])
    case Obj(members) =>
      (forall i, j :: 0 <= i < |members| && 0 <= j < |members| ==> !Clash(members[i].key, members[j].key)) &&
      forall i :: 0 <= i < |members| ==> NoClash(members[i].value)
    case _ => true
  }

  lemma KeyOrderTotal()
    ensures Sorting.TotalPreorder(KeyNoLater)
  {
    hide PointLess;
    forall x: Member, y: Member ensures KeyNoLater(x, y) || KeyNoLater(y, x) {
      if PointLess(x.key, y.key) { PointAsymmetric(x.key, y.key); }
    }
    forall x: Member, y: Member, z: Member | KeyNoLater(x, y) && KeyNoLater(y, z) ensures KeyNoLater(x, z) {
      if PointLess(z.key, x.key) {
        if y.key == x.key {
        } else {
          PointTotal(x.key, y.key);
          PointTransitive(z.key, x.key, y.key);
        }
      }
    }
  }

  lemma PointSorted(ms: seq<Member>)
    ensures Sorting.SortedBy(Sorting.SortBy(ms, KeyNoLater), KeyNoLater)
    ensures multiset(Sorting.SortBy(ms, KeyNoLater)) == multiset(ms)
  {
    hide KeyNoLater;
    KeyOrderTotal();
    Sorting.SortSorts(ms, KeyNoLater);
    Sorting.SortKeeps(ms, KeyNoLater);
  }

  predicate KeysAgree(ms: seq<Member>) {
    forall i, j :: 0 <= i < |ms| && 0 <= j < |ms| ==> SameOrder(ms[i].key, ms[j].key)
  }

  lemma {:induction false} OnceAtMost(ms: seq<Member>, x: Member)
    requires DistinctKeys(ms)
    ensures multiset(ms)[x] <= 1
  {
    if ms != [] {
      var rest := ms[1..];
      assert ms == [ms[0]] + rest;
      assert DistinctKeys(rest) by {
        assert forall i :: 0 <= i < |rest| ==> rest[i] == ms[i + 1];
      }
      OnceAtMost(rest, x);
      forall k | 0 <= k < |rest| ensures rest[k] != ms[0] { assert ms[k + 1].key != ms[0].key; }
    }
  }

  lemma TwiceIn(ms: seq<Member>, i: nat, j: nat)
    requires i < j < |ms| && ms[i] == ms[j]
    ensures multiset(ms)[ms[i]] >= 2
  {
    assert ms == ms[..j] + ms[j..];
    assert ms[..j][i] == ms[i] && ms[j..][0] == ms[i];
  }

  lemma ReorderedDistinct(ms: seq<Member>, sorted: seq<Member>)
    requires DistinctKeys(ms) && multiset(sorted) == multiset(ms)
    ensures DistinctKeys(sorted)
  {
    forall i, j | 0 <= i < j < |sorted| ensures sorted[i].key != sorted[j].key {
      if sorted[i].key == sorted[j].key {
        assert sorted[i] in multiset(ms) && sorted[j] in multiset(ms);
        var k :| 0 <= k < |ms| && ms[k] == sorted[i];
        var l :| 0 <= l < |ms| && ms[l] == sorted[j];
        OnceAtMost(ms, sorted[i]);
        TwiceIn(sorted, i, j);
      }
    }
  }

  lemma KeysAgreeReordered(ms: seq<Member>, sorted: seq<Member>)
    requires multiset(sorted) == multiset(ms) && KeysAgree(ms)
    ensures KeysAgree(sorted)
  {
    hide SameOrder;
    forall i, j | 0 <= i < |sorted| && 0 <= j < |sorted| ensures SameOrder(sorted[i].key, sorted[j].key) {
      assert sorted[i] in multiset(ms) && sorted[j] in multiset(ms);
      var k :| 0 <= k < |ms| && ms[k] == sorted[i];
      var l :| 0 <= l < |ms| && ms[l] == sorted[j];
    }
  }

  lemma AgreeingSorted(sorted: seq<Member>)
    requires KeysAgree(sorted) && DistinctKeys(sorted) && Sorting.SortedBy(sorted, KeyNoLater)
    ensures Sorted(sorted)
  {
    hide Less, PointLess;
    forall i, j | 0 <= i < j < |sorted| ensures Less(sorted[i].key, sorted[j].key) {
      assert KeyNoLater(sorted[i], sorted[j]);
      PointTotal(sorted[i].key, sorted[j].key);
      assert SameOrder(sorted[i].key, sorted[j].key);
    }
  }

  lemma SortedBothWays(sorted: seq<Member>)
    requires Sorted(sorted) && DistinctKeys(sorted) && Sorting.SortedBy(sorted, KeyNoLater)
    ensures KeysAgree(sorted)
  {
    hide Less, PointLess;
    forall i, j | 0 <= i < |sorted| && 0 <= j < |sorted| ensures SameOrder(sorted[i].key, sorted[j].key) {
      if i < j {
        BothLess(sorted, i, j);
      } else if j < i {
        BothLess(sorted, j, i);
      } else {
        LessIrreflexive(sorted[i].key);
        if PointLess(sorted[i].key, sorted[i].key) { PointAsymmetric(sorted[i].key, sorted[i].key); }
      }
    }
  }

  lemma BothLess(sorted: seq<Member>, i: nat, j: nat)
    requires Sorted(sorted) && DistinctKeys(sorted) && Sorting.SortedBy(sorted, KeyNoLater) && i < j < |sorted|
    ensures Less(sorted[i].key, sorted[j].key) && !Less(sorted[j].key, sorted[i].key)
    ensures PointLess(sorted[i].key, sorted[j].key) && !PointLess(sorted[j].key, sorted[i].key)
  {
    hide Less, PointLess;
    var a, b := sorted[i].key, sorted[j].key;
    if Less(b, a) {
      LessTransitive(a, b, a);
      LessIrreflexive(a);
    }
    assert KeyNoLater(sorted[i], sorted[j]);
    PointTotal(a, b);
  }

  lemma {:induction false} InsertMemberKeeps(m: Member, ms: seq<Member>)
    ensures multiset(InsertMember(m, ms)) == multiset(ms) + multiset{m}
  {
    hide Less;
    if ms != [] {
      assert ms == [ms[0]] + ms[1..];
      InsertMemberKeeps(m, ms[1..]);
    }
  }

  lemma {:induction false} SortMembersKeeps(ms: seq<Member>)
    ensures multiset(SortMembers(ms)) == multiset(ms)
  {
    hide InsertMember;
    if ms != [] {
      assert ms == [ms[0]] + ms[1..];
      SortMembersKeeps(ms[1..]);
      InsertMemberKeeps(ms[0], SortMembers(ms[1..]));
    }
  }

  /** Sorting both ways gives one list exactly when the two orders agree on its keys. */
  lemma SortsAgreeIff(ms: seq<Member>)
    requires DistinctKeys(ms)
    ensures SortMembers(ms) == Sorting.SortBy(ms, KeyNoLater) <==> KeysAgree(ms)
  {
    hide KeysAgree, Sorted, DistinctKeys, SortMembers, Sorting.SortBy, Sorting.SortedBy, KeyNoLater;
    var byUnit, byPoint := SortMembers(ms), Sorting.SortBy(ms, KeyNoLater);
    SortSorts(ms);
    SortMembersKeeps(ms);
    PointSorted(ms);
    ReorderedDistinct(ms, byPoint);
    if KeysAgree(ms) {
      KeysAgreeReordered(ms, byPoint);
      AgreeingSorted(byPoint);
      forall x ensures x in byUnit <==> x in byPoint {
        assert x in byUnit <==> x in multiset(byUnit);
        assert x in byPoint <==> x in multiset(byPoint);
      }
      SortedUnique(byUnit, byPoint);
    }
    if byUnit == byPoint {
      SortedBothWays(byUnit);
      KeysAgreeReordered(byUnit, ms);
    }
  }

  // ------------------------------------------------------------- whole values

  lemma MembersAgree(ms: seq<Member>)
    requires forall i :: 0 <= i < |ms| ==> Canon(ms[i].value) == PointCanon(ms[i].value)
    ensures CanonMembers(ms) == PointMembers(ms)
  {
    hide Canon, PointCanon;
  }

  lemma SameByKeys(a: seq<Member>, b: seq<Member>)
    requires multiset(a) == multiset(b) && |a| == |b| && DistinctKeys(b)
    requires forall i :: 0 <= i < |a| ==> a[i].key == b[i].key
    ensures a == b
  {
    forall i | 0 <= i < |a| ensures a[i] == b[i] {
      assert a[i] in multiset(b);
      var k :| 0 <= k < |b| && b[k] == a[i];
    }
  }

  /** Members that sort to one list, each by its own order, are the same members. */
  lemma SameWhenSorted(ms: seq<Member>)
    requires DistinctKeys(ms)
    requires SortMembers(CanonMembers(ms)) == Sorting.SortBy(PointMembers(ms), KeyNoLater)
    ensures CanonMembers(ms) == PointMembers(ms)
  {
    hide Canon, PointCanon, CanonMembers, PointMembers, SortMembers, Sorting.SortBy, KeyNoLater;
    SortMembersKeeps(CanonMembers(ms));
    PointSorted(PointMembers(ms));
    SameByKeys(CanonMembers(ms), PointMembers(ms));
  }

  lemma ObjectAgreesIff(ms: seq<Member>)
    requires DistinctKeys(ms)
    ensures SortMembers(CanonMembers(ms)) == Sorting.SortBy(PointMembers(ms), KeyNoLater) <==>
            (forall i :: 0 <= i < |ms| ==> Canon(ms[i].value) == PointCanon(ms[i].value)) && KeysAgree(ms)
  {
    hide Canon, PointCanon, SortMembers, Sorting.SortBy, KeyNoLater, SameOrder;
    CanonKeysDistinct(ms);
    SortsAgreeIff(CanonMembers(ms));
    assert KeysAgree(CanonMembers(ms)) <==> KeysAgree(ms) by { SameKeysAgree(ms); }
    if SortMembers(CanonMembers(ms)) == Sorting.SortBy(PointMembers(ms), KeyNoLater) {
      SameWhenSorted(ms);
      forall i | 0 <= i < |ms| ensures Canon(ms[i].value) == PointCanon(ms[i].value) {
        assert CanonMembers(ms)[i] == PointMembers(ms)[i];
      }
    } else if forall i :: 0 <= i < |ms| ==> Canon(ms[i].value) == PointCanon(ms[i].value) {
      MembersAgree(ms);
    }
  }

  lemma SameKeysAgree(ms: seq<Member>)
    ensures KeysAgree(CanonMembers(ms)) <==> KeysAgree(ms)
  {
    hide Canon, SameOrder;
    var cs := CanonMembers(ms);
    if KeysAgree(cs) {
      forall i, j | 0 <= i < |ms| && 0 <= j < |ms| ensures SameOrder(ms[i].key, ms[j].key) {
        assert SameOrder(cs[i].key, cs[j].key);
      }
    }
  }

  lemma KeysAgreeIff(ms: seq<Member>)
    requires forall i :: 0 <= i < |ms| ==> Paired(ms[i].key)
    ensures KeysAgree(ms) <==>
            forall i, j :: 0 <= i < |ms| && 0 <= j < |ms| ==> !Clash(ms[i].key, ms[j].key)
  {
    hide SameOrder, Clash, Paired;
    forall i, j | 0 <= i < |ms| && 0 <= j < |ms|
      ensures SameOrder(ms[i].key, ms[j].key) <==> !Clash(ms[i].key, ms[j].key)
    {
      SameOrderIff(ms[i].key, ms[j].key);
    }
  }

  lemma {:induction false} CanonsAgreeIff(v: Json)
    requires WellFormed(v) && NoUndefined(v) && AllPaired(v)
    ensures Canon(v) == PointCanon(v) <==> NoClash(v)
  {
    hide SortMembers, Sorting.SortBy, KeyNoLater, Clash, Paired, DistinctKeys, KeysAgree;
    match v
    case Arr(items) =>
      forall i | 0 <= i < |items| ensures Canon(items[i]) == PointCanon(items[i]) <==> NoClash(items[i]) {
        CanonsAgreeIff(items[i]);
      }
      ItemsAgreeIff(items);
    case Obj(members) =>
      forall i | 0 <= i < |members|
        ensures Canon(members[i].value) == PointCanon(members[i].value) <==> NoClash(members[i].value)
      {
        CanonsAgreeIff(members[i].value);
      }
      ObjectAgreesIff(members);
      KeysAgreeIff(members);
    case _ =>
  }

  lemma ItemsAgreeIff(items: seq<Json>)
    ensures CanonItems(items) == PointItems(items) <==>
            forall i :: 0 <= i < |items| ==> Canon(items[i]) == PointCanon(items[i])
  {
    hide Canon, PointCanon;
    if CanonItems(items) == PointItems(items) {
      forall i | 0 <= i < |items| ensures Canon(items[i]) == PointCanon(items[i]) {
        assert CanonItems(items)[i] == PointItems(items)[i];
      }
    }
  }

  lemma {:induction false} PointCanonHasNoUndefined(v: Json)
    requires NoUndefined(v)
    ensures NoUndefined(PointCanon(v))
  {
    hide Sorting.SortBy, KeyNoLater;
    match v
    case Arr(items) =>
      forall i | 0 <= i < |items| ensures NoUndefined(PointItems(items)[i]) { PointCanonHasNoUndefined(items[i]); }
    case Obj(members) =>
      var ms := PointMembers(members);
      PointSorted(ms);
      forall i | 0 <= i < |ms| ensures NoUndefined(ms[i].value) { PointCanonHasNoUndefined(members[i].value); }
      var sorted := Sorting.SortBy(ms, KeyNoLater);
      forall k | 0 <= k < |sorted| ensures NoUndefined(sorted[k].value) {
        assert sorted[k] in multiset(ms);
        var i :| 0 <= i < |ms| && ms[i] == sorted[k];
      }
    case _ =>
  }

  // ------------------------------------------------------------------ numbers

  /** Values without a number that is spelt apart print alike in both languages. */
  lemma {:induction false} AlikePrintsAlike(v: Json)
    requires SpeltAlike(v)
    ensures Print(v, EcmaScript) == Print(v, Python)
    decreases v, 1
  {
    hide FractionText, NumberText, Quote;
    match v
    case Fractional(x) => AlikeFraction(x);
    case Arr(items) => AlikeItems(items);
    case Obj(members) => AlikeMembers(members);
    case _ =>
  }

  lemma AlikeFraction(x: Fraction)
    requires !SpeltApart(x)
    ensures FractionText(x, EcmaScript) == FractionText(x, Python)
  {
    hide Spell;
    SpellAlikeIff(x);
  }

  lemma {:induction false} AlikeItems(items: seq<Json>)
    requires forall i :: 0 <= i < |items| ==> SpeltAlike(items[i])
    ensures PrintItems(items, EcmaScript) == PrintItems(items, Python)
    decreases items, 0
  {
    hide SpeltAlike;
    if items != [] {
      AlikePrintsAlike(items[0]);
      AlikeItems(items[1..]);
    }
  }

  lemma {:induction false} AlikeMembers(ms: seq<Member>)
    requires forall i :: 0 <= i < |ms| ==> SpeltAlike(ms[i].value)
    ensures PrintMembers(ms, EcmaScript) == PrintMembers(ms, Python)
    decreases ms, 0
  {
    hide SpeltAlike;
    if ms != [] {
      AlikePrintsAlike(ms[0].value);
      AlikeMembers(ms[1..]);
    }
  }

  /** Sorting keys does not touch numbers. */
  lemma {:induction false} CanonSpeltAlike(v: Json)
    ensures SpeltAlike(Canon(v)) <==> SpeltAlike(v)
  {
    hide SpeltApart, SortMembers, CanonItems, CanonMembers;
    match v
    case Arr(items) =>
      forall i | 0 <= i < |items| ensures SpeltAlike(Canon(items[i])) <==> SpeltAlike(items[i]) {
        CanonSpeltAlike(items[i]);
      }
      ItemsSpeltAlike(items);
    case Obj(members) =>
      forall i | 0 <= i < |members| ensures SpeltAlike(Canon(members[i].value)) <==> SpeltAlike(members[i].value) {
        CanonSpeltAlike(members[i].value);
      }
      MembersSpeltAlike(members);
      SortedSpeltAlike(CanonMembers(members));
    case _ =>
  }

  lemma ItemsSpeltAlike(items: seq<Json>)
    requires forall i :: 0 <= i < |items| ==> (SpeltAlike(Canon(items[i])) <==> SpeltAlike(items[i]))
    ensures SpeltAlike(Arr(CanonItems(items))) <==> SpeltAlike(Arr(items))
  {
    hide Canon, CanonItems, SpeltApart;
    var canon := CanonItems(items);
    forall i | 0 <= i < |items| ensures SpeltAlike(canon[i]) <==> SpeltAlike(items[i]) {
      assert canon[i] == Canon(items[i]);
    }
  }

  lemma MembersSpeltAlike(ms: seq<Member>)
    requires forall i :: 0 <= i < |ms| ==> (SpeltAlike(Canon(ms[i].value)) <==> SpeltAlike(ms[i].value))
    ensures SpeltAlike(Obj(CanonMembers(ms))) <==> SpeltAlike(Obj(ms))
  {
    hide Canon, CanonMembers, SpeltApart;
    var canon := CanonMembers(ms);
    forall i | 0 <= i < |ms| ensures SpeltAlike(canon[i].value) <==> SpeltAlike(ms[i].value) {
      assert canon[i].value == Canon(ms[i].value);
    }
  }

  lemma SortedSpeltAlike(ms: seq<Member>)
    ensures SpeltAlike(Obj(SortMembers(ms))) <==> SpeltAlike(Obj(ms))
  {
    hide SortMembers;
    SortKeeps(ms);
    var sorted := SortMembers(ms);
    if SpeltAlike(Obj(sorted)) {
      forall i | 0 <= i < |ms| ensures SpeltAlike(ms[i].value) {
        assert ms[i] in sorted;
      }
    }
    if SpeltAlike(Obj(ms)) {
      forall k | 0 <= k < |sorted| ensures SpeltAlike(sorted[k].value) {
        assert sorted[k] in ms;
      }
    }
  }

  // ----------------------------------------------------------------- agreement

  /** The gateway rebuilds the text a sender signed exactly when it can be encoded, no
      object in it has two keys that clash, and no number in it is spelt apart. */
  lemma TextsAgreeIff(v: Json)
    requires WellFormed(v) && NoUndefined(v)
    ensures GatewayText(v) == Some(Stable(v)) <==> AllPaired(v) && NoClash(v) && SpeltAlike(v)
  {
    hide Print, Stable, Canon, PointCanon, NoClash, SpeltAlike;
    if AllPaired(v) {
      StablePrintsCanon(v);
      CanonHasNoUndefined(v);
      PointCanonHasNoUndefined(v);
      CanonsAgreeIff(v);
      CanonSpeltAlike(v);
      var sent, rebuilt := Print(Canon(v), EcmaScript), Print(PointCanon(v), Python);
      if sent == rebuilt {
        assert sent + [] == rebuilt + [];
        PrintCancels(Canon(v), PointCanon(v), EcmaScript, Python, [], []);
      }
      if SpeltAlike(v) {
        AlikePrintsAlike(Canon(v));
      }
    }
  }

  /** The lines of `canonical_packet_message` before the last, each with its newline. */
  function GatewayHead(p: Packet, keyId: Text): Text {
    Ascii("KINGMAST-EDGE-V1\n") + p.deviceId + Ascii("\n") + keyId + Ascii("\n") + p.bootId + Ascii("\n") +
    NumberText(p.sequence) + Ascii("\n") + NumberText(p.timestampMs) + Ascii("\n")
  }

  /** `canonical_packet_message`, before encoding. */
  function GatewayMessage(p: Packet, keyId: Text): Option<Text> {
    var text := GatewayText(p.json);
    if text.None? || !Paired(keyId) then None else Some(GatewayHead(p, keyId) + text.value)
  }

  lemma OneByOne(title: Text, a: Text, b: Text, c: Text, d: Text, e: Text)
    ensures (title + LINE) + a + LINE + b + LINE + c + LINE + d + LINE + e + LINE ==
            ((title + (LINE + (a + LINE))) + (b + (LINE + (c + (LINE + (d + (LINE + e))))))) + LINE
  {
  }

  /** Gateway and sender put the same lines before the JSON text. */
  lemma SameHeads(p: Packet, keyId: Text)
    ensures GatewayHead(p, keyId) == PacketHead(p, keyId) + LINE
  {
    hide NumberText;
    assert Ascii("\n") == LINE && Ascii("KINGMAST-EDGE-V1\n") == Ascii("KINGMAST-EDGE-V1") + LINE;
    hide Ascii;
    OneByOne(Ascii("KINGMAST-EDGE-V1"), p.deviceId, keyId, p.bootId, NumberText(p.sequence), NumberText(p.timestampMs));
  }

  /** What the gateway prints is JSON for the value in Python's key order. */
  lemma GatewayTextIsJson(v: Json)
    requires AllPaired(v)
    ensures GatewayText(v).Some? && JsonReader.Read(GatewayText(v).value) == Some(JsonReader.Meaning(PointCanon(v)))
  {
    hide Print, PointCanon, JsonReader.Read, JsonReader.Meaning;
    JsonReader.ReadsBack(PointCanon(v), Python);
  }

  /** So the gateway checks a packet's signature over what was signed under exactly that
      condition, the key id included; otherwise it raises or checks it against another
      text. */
  lemma MessagesAgreeIff(p: Packet, keyId: Text)
    requires IsPacket(p) && NoUndefined(p.json)
    ensures GatewayMessage(p, keyId) == Some(PacketPayload(p, keyId)) <==>
            Paired(keyId) && AllPaired(p.json) && NoClash(p.json) && SpeltAlike(p.json)
  {
    hide Stable, GatewayText, GatewayHead, PacketHead, AllPaired, NoClash, Paired, SpeltAlike;
    TextsAgreeIff(p.json);
    SameHeads(p, keyId);
    var text := GatewayText(p.json);
    if text.Some? { ConcatAssociative(PacketHead(p, keyId), LINE, text.value); }
    if text.Some? && PacketHead(p, keyId) + (LINE + text.value) == PacketPayload(p, keyId) {
      SameAfter(PacketHead(p, keyId), LINE + text.value, LINE + Stable(p.json));
      SameAfter(LINE, text.value, Stable(p.json));
    }
  }

  /** Keys U+E000 and U+10000: the sender puts the second first, the gateway the first. */
  lemma ClashExample() returns (v: Json)
    ensures WellFormed(v) && NoUndefined(v) && AllPaired(v) && GatewayText(v) != Some(Stable(v))
  {
    hide Stable, Print, PointCanon;
    var a: Text, b: Text := [0xE000], [0xD800, 0xDC00];
    v := Obj([Member(a, Null), Member(b, Null)]);
    assert a[1..] == [] && b[2..] == [];
    assert Paired(a) && Paired(b);
    assert Clash(v.members[0].key, v.members[1].key);
    TextsAgreeIff(v);
  }

  /** A longitude of 0.00005: the sender signs `0.00005`, the gateway rebuilds `5e-05`. */
  lemma SmallNumberExample() returns (x: Fraction, v: Json)
    ensures Spell(x, EcmaScript) == "0.00005" && Spell(x, Python) == "5e-05"
    ensures v == Obj([Member(Ascii("lng"), Fractional(x))])
    ensures WellFormed(v) && NoUndefined(v) && AllPaired(v) && NoClash(v) && GatewayText(v) != Some(Stable(v))
  {
    hide Stable, Print, PointCanon, Clash, Paired, Ascii;
    x := Scientific(false, "5", -4);
    assert Zeros(4) == "0000";
    assert ExponentDigits(5, Python) == "05";
    v := Obj([Member(Ascii("lng"), Fractional(x))]);
    PlainPaired(Ascii("lng"));
    SelfNoClash(Ascii("lng"));
    assert !SpeltAlike(v.members[0].value);
    TextsAgreeIff(v);
  }

  lemma {:induction false} SelfNoClash(a: Text)
    ensures !Clash(a, a)
  {
    if a != [] { SelfNoClash(a[1..]); }
  }
}
