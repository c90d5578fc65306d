/** Index tuples of device id patterns (src/device_id.cpp, PatternIndex): their
    canonical form, their order and the mutable object that builds them. */
module PatternIndexes {

  const UNSPECIFIED: int := -1

  /** The value on an axis; axes beyond the tuple are unspecified. */
  function At(s: seq<int>, i: nat): int {
    if i < |s| then s[i] else UNSPECIFIED
  }

  function Clamp(value: int): int {
    if value >= 0 then value else UNSPECIFIED
  }

  /** No other negative value than "unspecified", and none at the end. */
  predicate Canonical(s: seq<int>) {
    && (forall i :: 0 <= i < |s| ==> s[i] >= UNSPECIFIED)
    && (s != [] ==> s[|s| - 1] >= 0)
  }

  /** Negative values at the end are gone, and others read -1. */
  predicate Trimmed(s: seq<int>, args: seq<int>) {
    && |s| <= |args|
    && (s != [] ==> args[|s| - 1] >= 0)
    && (forall i :: |s| <= i < |args| ==> args[i] < 0)
    && forall i :: 0 <= i < |s| ==> s[i] == if args[i] >= 0 then args[i] else -1
  }

  /** A canonical tuple is determined by its values on all axes. */
  lemma CanonicalUnique(a: seq<int>, b: seq<int>)
    requires Canonical(a) && Canonical(b) && forall i: nat :: At(a, i) == At(b, i)
    ensures a == b
  {
    if b != [] {
      assert At(a, |b| - 1) == At(b, |b| - 1) >= 0;
    }
    if a != [] {
      assert At(b, |a| - 1) == At(a, |a| - 1) >= 0;
    }
    forall i | 0 <= i < |a| && i < |b| ensures a[i] == b[i] {
      assert At(a, i) == At(b, i);
    }
  }

  class PatternIndex {
    var indexes: seq<int>

    constructor ()
      ensures indexes == []
    {
      indexes := [];
    }

    constructor Of(args: seq<int>)
      ensures Canonical(indexes) && Trimmed(indexes, args)
      ensures forall i: nat :: At(indexes, i) == Clamp(At(args, i))
    {
      indexes := args;
      new;
      Normalize();
    }

    method Normalize()
      modifies this
      ensures Canonical(indexes) && Trimmed(indexes, old(indexes))
      ensures forall i: nat :: At(indexes, i) == Clamp(At(old(indexes), i))
    {
      while |indexes| > 0 && indexes[|indexes| - 1] < 0
        invariant indexes <= old(indexes)
        invariant forall i :: |indexes| <= i < |old(indexes)| ==> old(indexes)[i] < 0
      {
        indexes := indexes[..|indexes| - 1];
      }
      ghost var trimmed := indexes;
      for i := 0 to |indexes|
        invariant |indexes| == |trimmed|
        invariant forall j :: 0 <= j < i ==> indexes[j] == Clamp(trimmed[j])
        invariant forall j :: i <= j < |indexes| ==> indexes[j] == trimmed[j]
      {
        if indexes[i] < 0 {
          indexes := indexes[i := UNSPECIFIED];
        }
      }
    }

    method Set(i: nat, value: int)
      requires Canonical(indexes)
      modifies this
      ensures Canonical(indexes)
      ensures forall j: nat :: At(indexes, j) == if j == i then Clamp(value) else At(old(indexes), j)
    {
      var actualValue := Clamp(value);
      if |indexes| <= i {
        if actualValue != UNSPECIFIED {
          indexes := indexes + seq(i - |indexes|, _ => UNSPECIFIED) + [actualValue];
        }
      } else {
        indexes := indexes[i := actualValue];
        Normalize();
      }
    }
  }

  /** Setting an axis, on the tuple itself: the axis reads the value, or -1 for a negative
      one; the others read what they did; and no -1 is left at the end. */
  lemma SetMeans(was: seq<int>, now: seq<int>, i: nat, value: int)
    requires Canonical(was) && Canonical(now)
    requires forall j: nat :: At(now, j) == if j == i then Clamp(value) else At(was, j)
    ensures value >= 0 ==> i < |now| && now[i] == value
    ensures value < 0 && i < |now| ==> now[i] == -1
    ensures forall j :: 0 <= j < |now| && j != i ==> now[j] == if j < |was| then was[j] else -1
    ensures forall j :: |now| <= j < |was| && j != i ==> was[j] == -1
    ensures now != [] ==> now[|now| - 1] >= 0
  {
    assert At(now, i) == Clamp(value);
    forall j | 0 <= j < |now| && j != i ensures now[j] == if j < |was| then was[j] else -1 {
      assert At(now, j) == At(was, j);
    }
    forall j | |now| <= j < |was| && j != i ensures was[j] == -1 {
      assert At(now, j) == At(was, j);
    }
  }

  // --------------------------------------------------------------------- order

  /** The first axis on which the tuples differ decides; unspecified comes first. */
  ghost predicate Less(a: seq<int>, b: seq<int>) {
    exists i: nat :: At(a, i) < At(b, i) && forall j: nat :: j < i ==> At(a, j) == At(b, j)
  }

  /** Axis by axis, -1 standing for no value: equal before `i`, and smaller there. */
  ghost predicate SmallerAt(a: seq<int>, b: seq<int>, i: nat) {
    && (if i < |a| then a[i] else -1) < (if i < |b| then b[i] else -1)
    && forall j: nat :: j < i && (j < |a| || j < |b|) ==>
         (if j < |a| then a[j] else -1) == (if j < |b| then b[j] else -1)
  }

  lemma LessMeans(a: seq<int>, b: seq<int>)
    ensures Less(a, b) <==> exists i: nat :: SmallerAt(a, b, i)
  {
    if Less(a, b) {
      var i: nat :| At(a, i) < At(b, i) && forall j: nat :: j < i ==> At(a, j) == At(b, j);
      forall j: nat | j < i && (j < |a| || j < |b|)
        ensures (if j < |a| then a[j] else -1) == (if j < |b| then b[j] else -1)
      {
        assert At(a, j) == At(b, j);
      }
      assert SmallerAt(a, b, i);
    }
    if i: nat :| SmallerAt(a, b, i) {
      assert At(a, i) < At(b, i);
      assert forall j: nat :: j < i ==> At(a, j) == At(b, j);
    }
  }

  method LessThan(a: seq<int>, b: seq<int>) returns (r: bool)
    requires Canonical(a) && Canonical(b)
    ensures r <==> Less(a, b)
    ensures r <==> exists i: nat :: SmallerAt(a, b, i)
  {
    LessMeans(a, b);
    var dim := if |a| > |b| then |a| else |b|;
    for i := 0 to dim
      invariant forall j: nat :: j < i ==> At(a, j) == At(b, j)
    {
      if At(a, i) < At(b, i) {
        return true;
      } else if At(a, i) > At(b, i) {
        return false;
      }
    }
    return false;
  }

  lemma {:induction false} FirstDifference(a: seq<int>, b: seq<int>, n: nat) returns (i: nat)
    requires At(a, n) != At(b, n)
    ensures i <= n && At(a, i) != At(b, i) && forall j: nat :: j < i ==> At(a, j) == At(b, j)
  {
    i := 0;
    while At(a, i) == At(b, i)
      invariant i <= n && forall j: nat :: j < i ==> At(a, j) == At(b, j)
      decreases n - i
    {
      i := i + 1;
    }
  }

  /** `operator<` is a strict total order on canonical tuples that agrees with `==`. */
  lemma LessIsTotal(a: seq<int>, b: seq<int>)
    requires Canonical(a) && Canonical(b)
    ensures Less(a, b) || Less(b, a) || a == b
    ensures !(Less(a, b) && Less(b, a)) && !Less(a, a)
  {
    if forall i: nat :: At(a, i) == At(b, i) {
      CanonicalUnique(a, b);
    } else {
      var n: nat :| At(a, n) != At(b, n);
      var i := FirstDifference(a, b, n);
    }
    if Less(a, b) {
      LessIsAsymmetric(a, b);
    }
  }

  lemma LessIsAsymmetric(a: seq<int>, b: seq<int>)
    requires Less(a, b)
    ensures !Less(b, a)
  {
    var i: nat :| At(a, i) < At(b, i) && forall j: nat :: j < i ==> At(a, j) == At(b, j);
    assert forall k: nat :: At(b, k) < At(a, k) ==> i < k && At(b, i) != At(a, i);
  }

  lemma LessIsTransitive(a: seq<int>, b: seq<int>, c: seq<int>)
    requires Less(a, b) && Less(b, c)
    ensures Less(a, c)
  {
    var i: nat :| At(a, i) < At(b, i) && forall j: nat :: j < i ==> At(a, j) == At(b, j);
    var k: nat :| At(b, k) < At(c, k) && forall j: nat :: j < k ==> At(b, j) == At(c, j);
    var n := if i < k then i else k;
    assert At(a, n) < At(c, n);
    assert forall j: nat :: j < n ==> At(a, j) == At(b, j) == At(c, j);
  }
}
