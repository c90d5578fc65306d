/** The index space of a pattern (src/device_id.cpp, CartesianProductRange): one
    counter decoded in mixed radix, against the plain cartesian product. */
module CartesianProducts {
  import opened MixedRadix
  import opened PatternIndexes

  const TWO_32: nat := 0x1_0000_0000

  /** Values allowed on one axis; an axis that no bracket uses allows anything. */
  datatype Domain = Anything | Values(elems: seq<nat>) {

    function Size(): nat {
      if Anything? then 1 else |elems|
    }

    function Get(i: nat): int
      requires i < Size()
    {
      if Anything? then UNSPECIFIED else elems[i]
    }

    predicate Contains(elem: int) {
      Anything? || elem in elems
    }

    predicate Valid() {
      Values? ==> forall i, j :: 0 <= i < j < |elems| ==> elems[i] < elems[j]
    }

    /** What an enumeration puts on this axis. */
    predicate Enumerates(v: int) {
      if Anything? then v == UNSPECIFIED else v in elems
    }
  }

  predicate ValidRanges(ranges: seq<Domain>) {
    forall i :: 0 <= i < |ranges| ==> ranges[i].Valid()
  }

  function Product(ranges: seq<Domain>): nat {
    if ranges == [] then 1 else Times(Product(ranges[..|ranges| - 1]), ranges[|ranges| - 1].Size())
  }

  /** `unsigned product`: the multiplication wraps. */
  method Product32(ranges: seq<Domain>) returns (result: nat)
    ensures result == Product(ranges) % 4294967296
  {
    result := 1;
    for i := 0 to |ranges|
      invariant result == Product(ranges[..i]) % TWO_32
    {
      assert ranges[..i + 1][..i] == ranges[..i];
      WrapFactor(Product(ranges[..i]), ranges[i].Size(), TWO_32);
      result := (result * ranges[i].Size()) % TWO_32;
    }
    assert ranges[..|ranges|] == ranges;
  }

  /** The tuple that a counter value stands for, last axis least significant. */
  function Tuple(ranges: seq<Domain>, mi: nat): (t: seq<int>)
    requires Product(ranges) > 0
    ensures |t| == |ranges|
  {
    if ranges == [] then []
    else
      var init, last := ranges[..|ranges| - 1], ranges[|ranges| - 1];
      TimesPositive(Product(init), last.Size());
      assert Rem(mi, last.Size()) < last.Size();
      Tuple(init, Quot(mi, last.Size())) + [last.Get(Rem(mi, last.Size()))]
  }

  function Trim(t: seq<int>): seq<int> {
    if t != [] && t[|t| - 1] < 0 then Trim(t[..|t| - 1]) else t
  }

  lemma {:induction false} TrimKeepsValues(t: seq<int>)
    requires forall i :: 0 <= i < |t| ==> t[i] >= UNSPECIFIED
    ensures Canonical(Trim(t)) && forall i: nat :: At(Trim(t), i) == At(t, i)
  {
    if t != [] && t[|t| - 1] < 0 {
      TrimKeepsValues(t[..|t| - 1]);
    }
  }

  lemma {:induction false} TupleValues(ranges: seq<Domain>, mi: nat)
    requires Product(ranges) > 0
    ensures forall i :: 0 <= i < |ranges| ==>
      ranges[i].Enumerates(Tuple(ranges, mi)[i]) && Tuple(ranges, mi)[i] >= UNSPECIFIED
  {
    if ranges != [] {
      var init, last := ranges[..|ranges| - 1], ranges[|ranges| - 1];
      TimesPositive(Product(init), last.Size());
      assert Rem(mi, last.Size()) < last.Size();
      TupleValues(init, Quot(mi, last.Size()));
      assert forall i :: 0 <= i < |init| ==> ranges[i] == init[i];
    }
  }

  /** Dereferencing the iterator. */
  method Deref(ranges: seq<Domain>, masterIndex: nat) returns (result: PatternIndex)
    requires Product(ranges) > 0
    ensures fresh(result) && result.indexes == Trim(Tuple(ranges, masterIndex))
  {
    result := new PatternIndex();
    var mi := masterIndex;
    var i := |ranges|;
    ghost var suffix: seq<int> := [];
    assert ranges[..|ranges|] == ranges;
    while i > 0
      invariant 0 <= i <= |ranges| && |suffix| == |ranges| - i && Product(ranges[..i]) > 0
      invariant Tuple(ranges, masterIndex) == Tuple(ranges[..i], mi) + suffix
      invariant Canonical(result.indexes) && fresh(result)
      invariant forall j: nat :: At(result.indexes, j) == if j < i then UNSPECIFIED else At(suffix, j - i)
    {
      i := i - 1;
      assert ranges[..i + 1][..i] == ranges[..i];
      var s := ranges[i].Size();
      TimesPositive(Product(ranges[..i]), s);
      ghost var v := ranges[i].Get(mi % s);
      assert Clamp(v) == v;
      result.Set(i, ranges[i].Get(mi % s));
      mi := mi / s;
      suffix := [v] + suffix;
    }
    TupleValues(ranges, masterIndex);
    TrimKeepsValues(Tuple(ranges, masterIndex));
    assert Tuple(ranges, masterIndex) == suffix;
    CanonicalUnique(result.indexes, Trim(Tuple(ranges, masterIndex)));
  }

  /** All tuples, from the first counter value to the (wrapped) size. */
  method DomainVec(ranges: seq<Domain>) returns (result: seq<seq<int>>)
    ensures |result| == Product(ranges) % TWO_32
    ensures forall k :: 0 <= k < |result| ==> result[k] == Trim(Tuple(ranges, k))
  {
    result := [];
    var end := Product32(ranges);
    for masterIndex := 0 to end
      invariant |result| == masterIndex
      invariant forall k :: 0 <= k < masterIndex ==> result[k] == Trim(Tuple(ranges, k))
    {
      var index := Deref(ranges, masterIndex);
      result := result + [index.indexes];
    }
  }

  // ------------------------------------------------- the plain cartesian product

  function Extend(ts: seq<seq<int>>, last: Domain): seq<seq<int>> {
    if ts == [] then []
    else seq(last.Size(), i requires 0 <= i < last.Size() => ts[0] + [last.Get(i)]) + Extend(ts[1..], last)
  }

  function Cart(ranges: seq<Domain>): seq<seq<int>> {
    if ranges == [] then [[]] else Extend(Cart(ranges[..|ranges| - 1]), ranges[|ranges| - 1])
  }

  lemma {:induction false} ExtendSize(ts: seq<seq<int>>, last: Domain)
    ensures |Extend(ts, last)| == Times(|ts|, last.Size())
  {
    if ts != [] {
      ExtendSize(ts[1..], last);
      TimesStep(|ts|, last.Size());
    }
  }

  lemma {:induction false} ExtendAt(ts: seq<seq<int>>, last: Domain, k: nat)
    requires k < Times(|ts|, last.Size())
    ensures |Extend(ts, last)| == Times(|ts|, last.Size())
    ensures last.Size() > 0 && Quot(k, last.Size()) < |ts| && Rem(k, last.Size()) < last.Size()
    ensures Extend(ts, last)[k] == ts[Quot(k, last.Size())] + [last.Get(Rem(k, last.Size()))]
    decreases |ts|
  {
    hide Times, Quot, Rem;
    var s := last.Size();
    ExtendSize(ts, last);
    QuotBelow(k, |ts|, s);
    if k < s {
      QuotFirst(k, s);
    } else {
      QuotStep(k, s);
      TimesStep(|ts|, s);
      ExtendAt(ts[1..], last, k - s);
    }
  }

  /** Counting up to the size goes through the cartesian product in its order. */
  lemma {:induction false} CounterEnumeratesProduct(ranges: seq<Domain>)
    ensures |Cart(ranges)| == Product(ranges)
    ensures forall k :: 0 <= k < Product(ranges) ==> Cart(ranges)[k] == Tuple(ranges, k)
  {
    hide Times, Quot, Rem;
    if ranges != [] {
      var init, last := ranges[..|ranges| - 1], ranges[|ranges| - 1];
      CounterEnumeratesProduct(init);
      ExtendSize(Cart(init), last);
      forall k | 0 <= k < Product(ranges) ensures Cart(ranges)[k] == Tuple(ranges, k) {
        QuotBelow(k, Product(init), last.Size());
        ExtendAt(Cart(init), last, k);
      }
    }
  }

  predicate InProduct(ranges: seq<Domain>, t: seq<int>) {
    |t| == |ranges| && forall i :: 0 <= i < |ranges| ==> ranges[i].Enumerates(t[i])
  }

  /** The counter value of a tuple. */
  lemma {:induction false} CounterOf(ranges: seq<Domain>, t: seq<int>) returns (k: nat)
    requires InProduct(ranges, t)
    ensures k < Product(ranges) && Tuple(ranges, k) == t
  {
    hide Times, Quot, Rem;
    if ranges == [] {
      k := 0;
    } else {
      var n := |ranges| - 1;
      var init, last := ranges[..n], ranges[n];
      assert last.Enumerates(t[n]);
      var q := CounterOf(init, t[..n]);
      var r := PlaceOf(last, t[n]);
      k := Times(q, last.Size()) + r;
      Below(q, r, Product(init), last.Size());
      DivModUnique(q, r, last.Size());
      assert t == t[..n] + [t[n]];
    }
  }

  lemma PlaceOf(d: Domain, v: int) returns (r: nat)
    requires d.Enumerates(v)
    ensures r < d.Size() && d.Get(r) == v
  {
    r := if d.Anything? then 0 else (var i :| 0 <= i < |d.elems| && d.elems[i] == v; i);
  }

  /** The product holds exactly the tuples that take each axis from its domain. */
  lemma CartMembers(ranges: seq<Domain>, t: seq<int>)
    ensures t in Cart(ranges) <==> InProduct(ranges, t)
  {
    CounterEnumeratesProduct(ranges);
    if t in Cart(ranges) {
      var k :| 0 <= k < |Cart(ranges)| && Cart(ranges)[k] == t;
      TupleValues(ranges, k);
    }
    if InProduct(ranges, t) {
      var k := CounterOf(ranges, t);
      assert Cart(ranges)[k] == t;
    }
  }

  /** One value per axis, from the axis, or -1 where the axis is unrestricted. */
  lemma CartMeans(ranges: seq<Domain>, t: seq<int>)
    ensures t in Cart(ranges) <==>
      |t| == |ranges| && forall i :: 0 <= i < |ranges| ==>
        if ranges[i] == Anything then t[i] == -1 else t[i] in ranges[i].elems
  {
    CartMembers(ranges, t);
    hide Cart;
  }

  /** Counting up goes strictly up in the order of index tuples; in particular no
      tuple comes twice. */
  lemma {:induction false} CounterAscends(ranges: seq<Domain>, k: nat, m: nat)
    requires ValidRanges(ranges) && k < m < Product(ranges)
    ensures Less(Tuple(ranges, k), Tuple(ranges, m))
  {
    hide Times, Quot, Rem, Less;
    var init, last := ranges[..|ranges| - 1], ranges[|ranges| - 1];
    var s := last.Size();
    QuotBelow(m, Product(init), s);
    QuotBelow(k, Product(init), s);
    QuotMonotone(k, m, s);
    var x, y := last.Get(Rem(k, s)), last.Get(Rem(m, s));
    if Quot(k, s) < Quot(m, s) {
      CounterAscends(init, Quot(k, s), Quot(m, s));
      LessExtend(Tuple(init, Quot(k, s)), Tuple(init, Quot(m, s)), x, y);
    } else {
      LessLast(Tuple(init, Quot(k, s)), x, y);
    }
  }

  lemma LessExtend(a: seq<int>, b: seq<int>, x: int, y: int)
    requires |a| == |b| && Less(a, b)
    ensures Less(a + [x], b + [y])
  {
    var i: nat :| At(a, i) < At(b, i) && forall j: nat :: j < i ==> At(a, j) == At(b, j);
    assert i < |a|;
    assert forall j: nat :: j <= i ==> At(a + [x], j) == At(a, j) && At(b + [y], j) == At(b, j);
  }

  lemma LessLast(a: seq<int>, x: int, y: int)
    requires x < y
    ensures Less(a + [x], a + [y])
  {
    assert At(a + [x], |a|) < At(a + [y], |a|);
    assert forall j: nat :: j < |a| ==> At(a + [x], j) == a[j] == At(a + [y], j);
  }

  /** The enumeration is the whole product in ascending order exactly when the
      number of its tuples does not wrap. */
  lemma EnumerationIsComplete(ranges: seq<Domain>, result: seq<seq<int>>)
    requires |result| == Product(ranges) % TWO_32
    requires forall k :: 0 <= k < |result| ==> result[k] == Trim(Tuple(ranges, k))
    ensures |result| == |Cart(ranges)| <==> |Cart(ranges)| < 4294967296
    ensures Product(ranges) == |Cart(ranges)|
    ensures |Cart(ranges)| < 4294967296 ==>
      forall k :: 0 <= k < |result| ==> result[k] == Trim(Cart(ranges)[k])
  {
    hide Tuple, Trim, Product;
    CounterEnumeratesProduct(ranges);
  }

  /** An axis with the values 0 up to `n`. */
  function FirstValues(n: nat): Domain {
    Values(seq(n, i requires 0 <= i < n => i))
  }

  /** Two axes of 65536 values each: 2^32 tuples, of which the enumeration lists none. */
  lemma TwoAxesWrap(result: seq<seq<int>>)
    requires |result| == Product([FirstValues(65536), FirstValues(65536)]) % TWO_32
    ensures |Cart([FirstValues(65536), FirstValues(65536)])| == TWO_32 && result == []
  {
    var axis := FirstValues(65536);
    var ranges := [axis, axis];
    assert ranges[..1] == [axis] && [axis][..0] == [];
    assert Product([]) == 1 && Product([axis]) == 65536;
    assert Product(ranges) == 65536 * 65536;
    CounterEnumeratesProduct(ranges);
  }
}
