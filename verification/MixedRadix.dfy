/** Quotient and remainder facts behind mixed-radix counting. */
module MixedRadix {

  // Names for the three operations, so that proofs about counting can set their
  // arithmetic aside.

  function Times(a: nat, b: nat): nat {
    a * b
  }

  function Quot(k: nat, s: nat): nat
    requires s > 0
  {
    k / s
  }

  function Rem(k: nat, s: nat): nat
    requires s > 0
  {
    k % s
  }

  lemma AtLeastOnce(a: nat, s: nat)
    requires a >= 1
    ensures a * s >= s
  {
    assert a * s == (a - 1) * s + s;
  }

  lemma Factored(a: nat, b: nat, s: nat)
    requires a < b
    ensures a * s + s <= b * s
  {
    AtLeastOnce(b - a, s);
    assert b * s == a * s + (b - a) * s;
  }

  lemma DivMod(x: nat, s: nat)
    requires s > 0
    ensures x == x / s * s + x % s && x % s < s
  {
  }

  /** Quotient and remainder are unique. */
  lemma DivModUnique(q: nat, r: nat, s: nat)
    requires r < s
    ensures Quot(Times(q, s) + r, s) == q && Rem(Times(q, s) + r, s) == r
  {
    var x := q * s + r;
    DivMod(x, s);
    var q' := x / s;
    if q' < q {
      Factored(q', q, s);
    } else if q < q' {
      Factored(q, q', s);
    }
  }

  lemma QuotBelow(k: nat, p: nat, s: nat)
    requires k < Times(p, s)
    ensures s > 0 && p > 0 && Quot(k, s) < p && Rem(k, s) < s
  {
    if s > 0 {
      DivMod(k, s);
      if p <= k / s {
        if p < k / s { Factored(p, k / s, s); }
      }
    }
  }

  lemma Below(q: nat, r: nat, p: nat, s: nat)
    requires q < p && r < s
    ensures Times(q, s) + r < Times(p, s)
  {
    Factored(q, p, s);
  }

  lemma QuotMonotone(k: nat, m: nat, s: nat)
    requires k < m && s > 0
    ensures Quot(k, s) <= Quot(m, s) && (Quot(k, s) == Quot(m, s) ==> Rem(k, s) < Rem(m, s))
  {
    DivMod(k, s);
    DivMod(m, s);
    if m / s < k / s {
      Factored(m / s, k / s, s);
    }
  }

  lemma QuotFirst(k: nat, s: nat)
    requires k < s
    ensures Quot(k, s) == 0 && Rem(k, s) == k
  {
    DivModUnique(0, k, s);
  }

  lemma QuotStep(k: nat, s: nat)
    requires 0 < s <= k
    ensures Quot(k, s) == Quot(k - s, s) + 1 && Rem(k, s) == Rem(k - s, s)
  {
    DivMod(k - s, s);
    var q, r := (k - s) / s, (k - s) % s;
    assert (q + 1) * s + r == k;
    DivModUnique(q + 1, r, s);
  }

  lemma TimesPositive(a: nat, b: nat)
    ensures Times(a, b) > 0 <==> a > 0 && b > 0
  {
    if a > 0 && b > 0 {
      AtLeastOnce(a, b);
    }
  }

  lemma TimesStep(a: nat, s: nat)
    requires a > 0
    ensures Times(a, s) == s + Times(a - 1, s)
  {
  }

  lemma Distribute(q: nat, n: nat, r: nat, b: nat)
    ensures (q * n + r) * b == q * b * n + r * b
  {
    assert (q * n + r) * b == q * n * b + r * b;
    assert q * n * b == q * b * n;
  }

  lemma Regroup(q: nat, c: nat, n: nat, r: nat)
    ensures q * n + (c * n + r) == (q + c) * n + r
  {
  }

  /** Wrapping a factor does not change the wrapped product. */
  lemma WrapFactor(a: nat, b: nat, n: nat)
    requires n > 0
    ensures (a % n * b) % n == (a * b) % n
  {
    var q, r := a / n, a % n;
    DivMod(a, n);
    var x := r * b;
    var c, y := x / n, x % n;
    DivMod(x, n);
    Distribute(q, n, r, b);
    var qb := q * b;
    Regroup(qb, c, n, y);
    assert a * b == (qb + c) * n + y;
    DivModUnique(qb + c, y, n);
  }
}
