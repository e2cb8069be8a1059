/** Alignment and bit-mask macros, in unsigned arithmetic of any width w. */
module Alignment {
  import opened Bits

  /** MY_ALIGN_DOWN(A, L) */
  function AlignDown(w: nat, a: nat, l: nat): nat
    requires 0 < l <= Pow2(w)
  {
    And(a, Not(w, l - 1))
  }

  /** MY_ALIGN(A, L), where the sum may wrap around */
  function Align(w: nat, a: nat, l: nat): nat
    requires 0 < l <= Pow2(w)
  {
    And((a + l - 1) % Pow2(w), Not(w, l - 1))
  }

  ghost predicate IsGreatestMultiple(r: nat, a: nat, l: nat)
    requires l > 0
  {
    r % l == 0 && r <= a && forall m: nat | m % l == 0 && m <= a :: m <= r
  }

  ghost predicate IsLeastMultiple(r: nat, a: nat, l: nat)
    requires l > 0
  {
    r % l == 0 && a <= r && forall m: nat | m % l == 0 && a <= m :: r <= m
  }

  /** The low k bits of x. */
  function LowBits(x: nat, k: nat): nat {
    if k == 0 then 0 else x % 2 + 2 * LowBits(x / 2, k - 1)
  }

  lemma {:induction false} LowBitsAreRemainder(x: nat, k: nat)
    ensures LowBits(x, k) == x % Pow2(k)
    decreases k
  {
    if k == 0 {
    } else {
      LowBitsAreRemainder(x / 2, k - 1);
      DivDiv(x, 2, Pow2(k - 1));
    }
  }

  lemma AndHalves(x: nat, y: nat)
    ensures And(x, y) == 2 * And(x / 2, y / 2) + if x % 2 == 1 && y % 2 == 1 then 1 else 0
  {
  }

  /** Masking with ~(2^k - 1) drops the low k bits. */
  lemma {:induction false} MaskDropsLowBits(w: nat, k: nat, x: nat)
    requires k <= w && x < Pow2(w)
    ensures Pow2(k) <= Pow2(w)
    ensures And(x, Pow2(w) - Pow2(k)) == x - LowBits(x, k)
    decreases w
  {
    PowIncreases(k, w);
    if w == 0 {
    } else {
      MaskDropsLowBits(w - 1, if k == 0 then 0 else k - 1, x / 2);
      AndHalves(x, Pow2(w) - Pow2(k));
    }
  }

  lemma FloorIsMultiple(a: int, l: int)
    requires l > 0
    ensures (a - a % l) % l == 0
  {
    DivisionIs(l * (a / l), l, a / l, 0);
  }

  lemma AlignDownDrops(w: nat, a: nat, k: nat)
    requires k <= w && a < Pow2(w)
    ensures Pow2(k) <= Pow2(w)
    ensures AlignDown(w, a, Pow2(k)) == a - a % Pow2(k)
    ensures (a - a % Pow2(k)) % Pow2(k) == 0
  {
    MaskDropsLowBits(w, k, a);
    LowBitsAreRemainder(a, k);
    FloorIsMultiple(a, Pow2(k));
  }

  lemma MultiplesAreApart(l: int, m: int, r: int)
    requires l > 0 && m % l == 0 && r % l == 0 && m < r
    ensures m + l <= r
  {
    assert m == l * (m / l) && r == l * (r / l);
    if r / l <= m / l {
      MulKeepsOrder(l, r / l, m / l);
      assert false;
    }
    MulKeepsOrder(l, m / l + 1, r / l);
    MulDistributes(l, m / l, 1);
  }

  /** MY_ALIGN_DOWN is the greatest multiple not above A. */
  lemma AlignDownIsGreatest(w: nat, a: nat, k: nat)
    requires k <= w && a < Pow2(w)
    ensures Pow2(k) <= Pow2(w)
    ensures IsGreatestMultiple(AlignDown(w, a, Pow2(k)), a, Pow2(k))
  {
    AlignDownDrops(w, a, k);
    var l := Pow2(k);
    forall m: nat | m % l == 0 && m <= a
      ensures m <= a - a % l
    {
      if a - a % l < m {
        MultiplesAreApart(l, a - a % l, m);
        assert false;
      }
    }
  }

  /** MY_ALIGN is the least multiple not below A exactly when the sum does not
      wrap around; when it does, the result is 0. */
  lemma AlignIsLeastIff(w: nat, a: nat, k: nat)
    requires k <= w && a < Pow2(w)
    ensures Pow2(k) <= Pow2(w)
    ensures IsLeastMultiple(Align(w, a, Pow2(k)), a, Pow2(k)) <==> a + Pow2(k) - 1 < Pow2(w)
    ensures a + Pow2(k) - 1 >= Pow2(w) ==> Align(w, a, Pow2(k)) == 0
  {
    PowIncreases(k, w);
    var l, sum := Pow2(k), a + Pow2(k) - 1;
    if sum < Pow2(w) {
      DivisionIs(sum, Pow2(w), 0, sum);
      AlignIsLeast(w, a, k);
    } else {
      DivisionIs(sum, Pow2(w), 1, sum - Pow2(w));
      AlignDownDrops(w, sum - Pow2(w), k);
      DivisionIs(sum - Pow2(w), l, 0, sum - Pow2(w));
    }
  }

  lemma AlignWithoutWrap(w: nat, a: nat, k: nat)
    requires k <= w && a + Pow2(k) - 1 < Pow2(w)
    ensures Pow2(k) <= Pow2(w)
    ensures var sum := a + Pow2(k) - 1;
            Align(w, a, Pow2(k)) == AlignDown(w, sum, Pow2(k)) == sum - sum % Pow2(k)
  {
    PowIncreases(k, w);
    var sum := a + Pow2(k) - 1;
    DivisionIs(sum, Pow2(w), 0, sum);
    AlignDownDrops(w, sum, k);
  }

  lemma AlignIsLeast(w: nat, a: nat, k: nat)
    requires k <= w && a + Pow2(k) - 1 < Pow2(w)
    ensures Pow2(k) <= Pow2(w)
    ensures Align(w, a, Pow2(k)) == AlignDown(w, a + Pow2(k) - 1, Pow2(k))
    ensures IsLeastMultiple(Align(w, a, Pow2(k)), a, Pow2(k))
  {
    AlignWithoutWrap(w, a, k);
    RoundingUp(a, Pow2(k));
  }

  lemma RoundingUp(a: nat, l: nat)
    requires l > 0
    ensures var sum := a + l - 1; IsLeastMultiple(sum - sum % l, a, l)
  {
    var sum := a + l - 1;
    var r := sum - sum % l;
    FloorIsMultiple(sum, l);
    forall m: nat | m % l == 0 && a <= m
      ensures r <= m
    {
      if m < r {
        MultiplesAreApart(l, m, r);
        assert false;
      }
    }
  }

  /** Both are idempotent, and aligned values are their fixed points, even where
      MY_ALIGN wraps around. */
  lemma AlignmentIsIdempotent(w: nat, a: nat, k: nat)
    requires k <= w && a < Pow2(w)
    ensures Pow2(k) <= Pow2(w)
    ensures AlignDown(w, AlignDown(w, a, Pow2(k)), Pow2(k)) == AlignDown(w, a, Pow2(k))
    ensures Align(w, Align(w, a, Pow2(k)), Pow2(k)) == Align(w, a, Pow2(k))
    ensures AlignDown(w, a, Pow2(k)) == a <==> a % Pow2(k) == 0
    ensures Align(w, a, Pow2(k)) == a <==> a % Pow2(k) == 0
  {
    AlignDownDrops(w, a, k);
    AlignDownDrops(w, AlignDown(w, a, Pow2(k)), k);
    if a % Pow2(k) == 0 {
      AlignOfAligned(w, a, k);
    }
    AlignIsAligned(w, a, k);
    AlignOfAligned(w, Align(w, a, Pow2(k)), k);
  }

  lemma AlignIsAligned(w: nat, a: nat, k: nat)
    requires k <= w && a < Pow2(w)
    ensures Pow2(k) <= Pow2(w)
    ensures Align(w, a, Pow2(k)) < Pow2(w) && Align(w, a, Pow2(k)) % Pow2(k) == 0
  {
    PowIncreases(k, w);
    AlignDownDrops(w, (a + Pow2(k) - 1) % Pow2(w), k);
  }

  lemma AlignOfAligned(w: nat, r: nat, k: nat)
    requires k <= w && r < Pow2(w) && r % Pow2(k) == 0
    ensures Pow2(k) <= Pow2(w)
    ensures Align(w, r, Pow2(k)) == r
  {
    AlignedPlusMaskFits(w, r, k);
    AlignIsLeast(w, r, k);
    assert Align(w, r, Pow2(k)) <= r;
  }

  /** An aligned value leaves room for the L - 1 that MY_ALIGN adds. */
  lemma AlignedPlusMaskFits(w: nat, r: nat, k: nat)
    requires k <= w && r < Pow2(w) && r % Pow2(k) == 0
    ensures r + Pow2(k) - 1 < Pow2(w)
  {
    var l := Pow2(k);
    PowSum(k, w - k);
    DivisionIs(Pow2(w), l, Pow2(w - k), 0);
    MultiplesAreApart(l, r, Pow2(w));
  }

  // ----- masks -----

  /** set_bits(type, n) for a w-bit type */
  function SetBits(w: nat, n: nat): nat
    requires w > 0
  {
    if w <= n then Not(w, 0) else OneBitShifted(w, n); Shl(w, 1, n) - 1
  }

  lemma OneBitShifted(w: nat, n: nat)
    requires n < w
    ensures Shl(w, 1, n) == Pow2(n)
  {
    PowIncreases(n + 1, w);
    DivisionIs(Pow2(n), Pow2(w), 0, Pow2(n));
  }

  /** test_all_bits(a, b) */
  predicate TestAllBits(a: nat, b: nat) {
    And(a, b) == b
  }

  lemma {:induction false} LowBitsSet(n: nat, i: nat)
    ensures Bit(Pow2(n) - 1, i) <==> i < n
    decreases n
  {
    if n == 0 {
      DivisionIs(0, Pow2(i), 0, 0);
    } else if i > 0 {
      assert (Pow2(n) - 1) / 2 == Pow2(n - 1) - 1;
      Halves(Pow2(n) - 1, i);
      LowBitsSet(n - 1, i - 1);
    }
  }

  /** Exactly the low n bits are set, all of them when the type is too narrow. */
  lemma SetBitsSetsLowBits(w: nat, n: nat, i: nat)
    requires w > 0
    ensures SetBits(w, n) == Pow2(if n < w then n else w) - 1
    ensures Bit(SetBits(w, n), i) <==> i < n && i < w
  {
    if n < w {
      OneBitShifted(w, n);
    }
    LowBitsSet(if n < w then n else w, i);
  }

  lemma {:induction false} DifferentBit(x: nat, y: nat) returns (i: nat)
    requires x != y
    ensures Bit(x, i) != Bit(y, i)
    decreases x + y
  {
    if x % 2 != y % 2 {
      i := 0;
    } else {
      i := DifferentBit(x / 2, y / 2);
      i := i + 1;
      Halves(x, i);
      Halves(y, i);
    }
  }

  /** test_all_bits(a, b) holds exactly when every bit of b is set in a. */
  lemma TestAllBitsIff(a: nat, b: nat)
    ensures TestAllBits(a, b) <==> forall i: nat :: Bit(b, i) ==> Bit(a, i)
  {
    if TestAllBits(a, b) {
      forall i: nat
        ensures Bit(b, i) ==> Bit(a, i)
      {
        AndBits(a, b, i);
      }
    } else {
      var i := DifferentBit(And(a, b), b);
      AndBits(a, b, i);
    }
  }
}
