/** Small vocabulary shared by the models: optional values, results, filtering,
    flattening, and the suffix relation that bounded logs keep to the history
    they retain. */
module Collections {

  datatype Option<+T> = None | Some(value: T) {
    function GetOr(default: T): T {
      if Some? then value else default
    }
  }

  datatype Result<+T, +E> = Ok(value: T) | Err(error: E)

  /** A string used only as an identity: a map key that is compared, never read. */
  datatype Key = Key(text: string)

  /** The elements that satisfy `keep`, in order: JavaScript's `filter`. */
  function Keep<T>(xs: seq<T>, keep: T -> bool): seq<T> {
    if xs == [] then [] else (if keep(xs[0]) then [xs[0]] else []) + Keep(xs[1..], keep)
  }

  lemma {:induction false} KeepIn<T>(xs: seq<T>, keep: T -> bool, x: T)
    ensures x in Keep(xs, keep) <==> x in xs && keep(x)
  {
    if xs != [] {
      KeepIn(xs[1..], keep, x);
      assert xs == [xs[0]] + xs[1..];
    }
  }

  function Flatten<T>(ss: seq<seq<T>>): seq<T>
  {
    if ss == [] then [] else ss[0] + Flatten(ss[1..])
  }

  lemma {:induction false} FlattenConcat<T>(a: seq<seq<T>>, b: seq<seq<T>>)
    ensures Flatten(a + b) == Flatten(a) + Flatten(b)
  {
    if a == [] {
      assert a + b == b;
    } else {
      assert (a + b)[1..] == a[1..] + b;
      FlattenConcat(a[1..], b);
    }
  }

  lemma FlattenSingle<T>(s: seq<T>)
    ensures Flatten([s]) == s
  {
    assert Flatten([s]) == s + Flatten([]);
  }

  /** `s` is what is left of `t` after dropping some elements from the front. */
  predicate IsSuffix<T(==)>(s: seq<T>, t: seq<T>)
  {
    |s| <= |t| && t[|t| - |s|..] == s
  }

  lemma NothingIsSuffix<T>(s: seq<T>, t: seq<T>)
    requires s == []
    ensures IsSuffix(s, t)
  {
  }

  lemma SuffixOfDrop<T>(s: seq<T>, t: seq<T>, k: nat)
    requires IsSuffix(s, t) && k <= |s|
    ensures IsSuffix(s[k..], t)
  {
    assert t[|t| - |s[k..]|..] == s[k..];
  }

  lemma SuffixExtend<T>(s: seq<T>, t: seq<T>, u: seq<T>)
    requires IsSuffix(s, t)
    ensures IsSuffix(s + u, t + u)
  {
    assert (t + u)[|t + u| - |s + u|..] == t[|t| - |s|..] + u;
  }

  lemma SuffixTransitive<T>(s: seq<T>, t: seq<T>, u: seq<T>)
    requires IsSuffix(s, t) && IsSuffix(t, u)
    ensures IsSuffix(s, u)
  {
    assert u[|u| - |s|..] == t[|t| - |s|..];
  }

  /** A sequence is split at its last separator in one way only. */
  lemma LastSplit<T>(separator: T, a: seq<T>, b: seq<T>, x: seq<T>, y: seq<T>)
    requires separator !in x && separator !in y && a + ([separator] + x) == b + ([separator] + y)
    ensures a == b && x == y
  {
    var s := a + ([separator] + x);
    LastPlace(separator, a, x, b, y);
    LastPlace(separator, b, y, a, x);
    assert s[..|a|] == a && s[..|b|] == b;
    assert s[|a| + 1..] == x && s[|b| + 1..] == y;
  }

  lemma LastPlace<T>(separator: T, a: seq<T>, x: seq<T>, b: seq<T>, y: seq<T>)
    requires separator !in y && a + ([separator] + x) == b + ([separator] + y)
    ensures |a| <= |b|
  {
    var s := a + ([separator] + x);
    assert s[|a|] == separator;
    assert forall i :: |b| < i < |s| ==> s[i] == y[i - |b| - 1] && y[i - |b| - 1] in y;
  }

  /** A sequence is split at its first separator in one way only. */
  lemma FirstSplit<T>(separator: T, a: seq<T>, b: seq<T>, x: seq<T>, y: seq<T>)
    requires separator !in a && separator !in b && a + ([separator] + x) == b + ([separator] + y)
    ensures a == b && x == y
  {
    var s := a + ([separator] + x);
    FirstPlace(separator, a, x, b, y);
    FirstPlace(separator, b, y, a, x);
    assert s[..|a|] == a && s[..|b|] == b;
    assert s[|a| + 1..] == x && s[|b| + 1..] == y;
  }

  lemma FirstPlace<T>(separator: T, a: seq<T>, x: seq<T>, b: seq<T>, y: seq<T>)
    requires separator !in b && a + ([separator] + x) == b + ([separator] + y)
    ensures |a| >= |b|
  {
    var s := a + ([separator] + x);
    assert s[|a|] == separator;
    assert forall i :: 0 <= i < |b| ==> s[i] == b[i] && b[i] in b;
  }

  lemma SameAfter<T>(front: seq<T>, a: seq<T>, b: seq<T>)
    requires front + a == front + b
    ensures a == b
  {
    assert (front + a)[|front|..] == a && (front + b)[|front|..] == b;
  }

  /** Two sequences between the same neighbours. */
  lemma SameMiddle<T>(front: seq<T>, a: seq<T>, b: seq<T>, tail: seq<T>)
    requires front + (a + tail) == front + (b + tail)
    ensures a == b
  {
    var s, t := front + (a + tail), front + (b + tail);
    assert |a| == |b|;
    assert s[|front|..][..|a|] == a && t[|front|..][..|b|] == b;
  }

  lemma ConcatAssociative<T>(a: seq<T>, b: seq<T>, c: seq<T>)
    ensures (a + b) + c == a + (b + c)
  {
  }

  lemma {:induction false} SizeMonotone<T>(a: set<T>, b: set<T>)
    requires a <= b
    ensures |a| <= |b|
  {
    if a != {} {
      var x :| x in a;
      SizeMonotone(a - {x}, b - {x});
    }
  }

  function AbsReal(x: real): real {
    if x < 0.0 then -x else x
  }
}
