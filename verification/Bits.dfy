/** Binary digits of natural numbers and the machine operations on them. */
module Bits {
  import opened PropertyValues
  import opened MixedRadix

  function Bit(v: nat, k: nat): bool {
    if k == 0 then v % 2 == 1 else Bit(v / 2, k - 1)
  }

  /** The operator `&`. */
  function And(a: nat, b: nat): nat {
    if a == 0 || b == 0 then 0
    else 2 * And(a / 2, b / 2) + if a % 2 == 1 && b % 2 == 1 then 1 else 0
  }

  /** The operator `<<` on 64 bits. */
  function ShiftLeft(v: nat, k: nat): nat
    decreases k
  {
    if k == 0 then v else ShiftLeft(v * 2 % TWO_64, k - 1)
  }

  function Pow2(n: nat): (p: nat)
    ensures p > 0
  {
    if n == 0 then 1 else 2 * Pow2(n - 1)
  }

  /** The lowest `n` binary digits. */
  function LowBits(v: nat, n: nat): nat {
    if n == 0 then 0 else v % 2 + 2 * LowBits(v / 2, n - 1)
  }

  lemma {:induction false} ZeroHasNoBits(k: nat)
    ensures !Bit(0, k)
  {
    if k > 0 {
      ZeroHasNoBits(k - 1);
    }
  }

  lemma {:induction false} AndBits(a: nat, b: nat, k: nat)
    ensures Bit(And(a, b), k) <==> Bit(a, k) && Bit(b, k)
    decreases k
  {
    if a == 0 || b == 0 {
      ZeroHasNoBits(k);
    } else {
      assert And(a, b) / 2 == And(a / 2, b / 2);
      if k > 0 {
        AndBits(a / 2, b / 2, k - 1);
      }
    }
  }

  /** A number is determined by its binary digits. */
  lemma {:induction false} BitsDetermine(a: nat, b: nat)
    requires forall k: nat :: Bit(a, k) <==> Bit(b, k)
    ensures a == b
    decreases a + b
  {
    if a + b > 0 {
      assert Bit(a, 0) <==> Bit(b, 0);
      forall k: nat ensures Bit(a / 2, k) <==> Bit(b / 2, k) {
        assert Bit(a, k + 1) <==> Bit(b, k + 1);
      }
      BitsDetermine(a / 2, b / 2);
    }
  }

  /** `v & m == m` exactly if every binary digit set in the mask is set in the value. */
  lemma MaskIncluded(v: nat, m: nat)
    ensures And(v, m) == m <==> Included(m, v)
  {
    if Included(m, v) {
      forall k: nat ensures Bit(And(v, m), k) <==> Bit(m, k) {
        AndBits(v, m, k);
      }
      BitsDetermine(And(v, m), m);
    } else {
      var k: nat :| Bit(m, k) && !Bit(v, k);
      AndBits(v, m, k);
    }
  }

  /** Every binary digit set in `m` is set in `v`. */
  ghost predicate Included(m: nat, v: nat) {
    forall k: nat :: Bit(m, k) ==> Bit(v, k)
  }

  ghost predicate Meet(m: nat, v: nat) {
    exists k: nat :: Bit(m, k) && Bit(v, k)
  }

  /** `v & m` is not zero exactly if they have a binary digit in common. */
  lemma MaskTouched(v: nat, m: nat)
    ensures And(v, m) != 0 <==> Meet(m, v)
  {
    if Meet(m, v) {
      var k: nat :| Bit(m, k) && Bit(v, k);
      AndBits(v, m, k);
      ZeroHasNoBits(k);
    } else {
      forall k: nat ensures Bit(And(v, m), k) <==> Bit(0, k) {
        AndBits(v, m, k);
        ZeroHasNoBits(k);
      }
      BitsDetermine(And(v, m), 0);
    }
  }

  lemma HalfRemainder(v: nat, p: nat)
    requires p > 0
    ensures v % (2 * p) == v % 2 + 2 * (v / 2 % p)
  {
    var w, b := v / 2, v % 2;
    var q, r := w / p, w % p;
    DivMod(w, p);
    Doubled(q, p);
    Unique(v, q, 2 * r + b, 2 * p);
  }

  lemma Unique(v: nat, q: nat, r: nat, s: nat)
    requires v == q * s + r && r < s
    ensures v % s == r
  {
    DivModUnique(q, r, s);
  }

  lemma {:induction false} LowBitsAreRemainder(v: nat, n: nat)
    ensures LowBits(v, n) == v % Pow2(n)
  {
    if n > 0 {
      LowBitsAreRemainder(v / 2, n - 1);
      HalfRemainder(v, Pow2(n - 1));
    }
  }

  lemma Doubled(q: nat, p: nat)
    ensures 2 * (q * p) == q * (2 * p)
  {
  }

  lemma {:induction false} LowBitsBits(v: nat, n: nat, k: nat)
    ensures Bit(LowBits(v, n), k) <==> k < n && Bit(v, k)
  {
    if n == 0 {
      ZeroHasNoBits(k);
    } else {
      assert LowBits(v, n) / 2 == LowBits(v / 2, n - 1);
      if k > 0 {
        LowBitsBits(v / 2, n - 1, k - 1);
      }
    }
  }

  lemma SixtyFour()
    ensures Pow2(64) == TWO_64
  {
    assert Pow2(8) == 0x100;
    assert Pow2(16) == 0x1_0000;
    assert Pow2(24) == 0x100_0000;
    assert Pow2(32) == 0x1_0000_0000;
    assert Pow2(40) == 0x100_0000_0000;
    assert Pow2(48) == 0x1_0000_0000_0000;
    assert Pow2(56) == 0x100_0000_0000_0000;
  }

  lemma Wrapped(v: nat, k: nat)
    ensures Bit(v % TWO_64, k) <==> k < 64 && Bit(v, k)
  {
    LowBitsAreRemainder(v, 64);
    LowBitsBits(v, 64, k);
    SixtyFour();
  }

  lemma Twice(v: nat, k: nat)
    ensures Bit(v * 2, k) <==> k > 0 && Bit(v, k - 1)
  {
    assert v * 2 / 2 == v;
  }

  /** Shifting moves the binary digits up; those beyond the 64th are lost. */
  lemma {:induction false} ShiftBits(v: nat, i: nat, k: nat)
    requires v < TWO_64
    ensures Bit(ShiftLeft(v, i), k) <==> i <= k < 64 && Bit(v, k - i)
    decreases i
  {
    if i == 0 {
      Wrapped(v, k);
    } else {
      ShiftBits(v * 2 % TWO_64, i - 1, k);
      if i <= k + 1 {
        DoubledBit(v, k - (i - 1));
      }
    }
  }

  lemma DoubledBit(v: nat, k: nat)
    ensures Bit(v * 2 % TWO_64, k) <==> 0 < k < 64 && Bit(v, k - 1)
  {
    Wrapped(v * 2, k);
    Twice(v, k);
  }

  lemma {:induction false} BitOfOne(k: nat)
    ensures Bit(1, k) <==> k == 0
  {
    if k > 0 {
      ZeroHasNoBits(k - 1);
    }
  }

  /** A mask with a single digit: included if that digit is set. */
  lemma SingleBit(v: nat, i: nat)
    requires i < 64
    ensures And(v, ShiftLeft(1, i)) == ShiftLeft(1, i) <==> Bit(v, i)
  {
    forall k: nat ensures Bit(ShiftLeft(1, i), k) <==> k == i {
      ShiftBits(1, i, k);
      if i <= k {
        BitOfOne(k - i);
      }
    }
    MaskIncluded(v, ShiftLeft(1, i));
  }

  /** The lowest digits, written as a sum of powers of two, one digit more. */
  lemma {:induction false} LowBitsOneMore(v: nat, n: nat)
    ensures LowBits(v, n + 1) == LowBits(v, n) + if Bit(v, n) then Pow2(n) else 0
  {
    if n > 0 {
      LowBitsOneMore(v / 2, n - 1);
    }
  }
}
