/** C's bitwise operators on non-negative numbers of any width. */
module Bits {

  function Pow2(n: nat): (p: nat)
    ensures p >= 1
  {
    if n == 0 then 1 else 2 * Pow2(n - 1)
  }

  /** x >> k; the operand may be negative, where >> rounds down. */
  function Shr(x: int, k: nat): int {
    x / Pow2(k)
  }

  /** x << k in a w-bit unsigned type. */
  function Shl(w: nat, x: nat, k: nat): nat {
    (x * Pow2(k)) % Pow2(w)
  }

  predicate Bit(x: nat, i: nat) {
    (x / Pow2(i)) % 2 == 1
  }

  function Or(x: nat, y: nat): nat
    decreases x + y
  {
    if x == 0 && y == 0 then 0
    else 2 * Or(x / 2, y / 2) + if x % 2 == 1 || y % 2 == 1 then 1 else 0
  }

  function And(x: nat, y: nat): nat {
    if x == 0 then 0
    else 2 * And(x / 2, y / 2) + if x % 2 == 1 && y % 2 == 1 then 1 else 0
  }

  /** ~x in a w-bit unsigned type. */
  function Not(w: nat, x: nat): nat
    requires x < Pow2(w)
  {
    Pow2(w) - 1 - x
  }

  // ----- arithmetic -----

  lemma {:induction false} PowSum(a: nat, b: nat)
    ensures Pow2(a + b) == Pow2(a) * Pow2(b)
  {
    if a == 0 {
    } else {
      PowSum(a - 1, b);
      assert Pow2(a + b) == 2 * Pow2(a - 1 + b);
    }
  }

  lemma {:induction false} PowIncreases(a: nat, b: nat)
    requires a <= b
    ensures Pow2(a) <= Pow2(b)
  {
    if a < b {
      PowIncreases(a, b - 1);
    }
  }

  lemma MulDistributes(a: int, x: int, y: int)
    ensures a * (x + y) == a * x + a * y
  {
  }

  lemma MulAssociates(a: int, x: int, y: int)
    ensures a * (x * y) == (a * x) * y
  {
  }

  lemma MulKeepsOrder(a: int, x: int, y: int)
    requires a >= 0 && x <= y
    ensures a * x <= a * y
  {
  }

  lemma DivisionIs(x: int, d: int, q: int, r: int)
    requires d > 0 && x == d * q + r && 0 <= r < d
    ensures x / d == q && x % d == r
  {
    var q' := x / d;
    assert x == d * q' + x % d;
    if q' < q {
      MulKeepsOrder(d, q' + 1, q);
      MulDistributes(d, q', 1);
      assert false;
    } else if q < q' {
      MulKeepsOrder(d, q + 1, q');
      MulDistributes(d, q, 1);
      assert false;
    }
  }

  /** Dividing by a and then by b. */
  lemma DivDiv(x: int, a: int, b: int)
    requires a > 0 && b > 0
    ensures a * b > 0 && x / a / b == x / (a * b)
    ensures x % (a * b) == a * ((x / a) % b) + x % a
  {
    var q, r := x / a / b, (x / a) % b;
    assert x / a == b * q + r;
    MulDistributes(a, b * q, r);
    MulAssociates(a, b, q);
    MulKeepsOrder(a, r + 1, b);
    MulKeepsOrder(a, 0, r);
    MulDistributes(a, r, 1);
    DivisionIs(x, a * b, q, a * r + x % a);
  }

  // ----- bits -----

  lemma Halves(x: nat, i: nat)
    requires i > 0
    ensures Bit(x, i) == Bit(x / 2, i - 1)
  {
    DivDiv(x, 2, Pow2(i - 1));
  }

  lemma {:induction false} OrBits(x: nat, y: nat, i: nat)
    ensures Bit(Or(x, y), i) <==> Bit(x, i) || Bit(y, i)
    decreases i
  {
    if i == 0 {
      assert Or(x, y) % 2 == if x % 2 == 1 || y % 2 == 1 then 1 else 0;
    } else {
      assert Or(x, y) / 2 == Or(x / 2, y / 2);
      Halves(x, i);
      Halves(y, i);
      Halves(Or(x, y), i);
      OrBits(x / 2, y / 2, i - 1);
    }
  }

  lemma {:induction false} AndBits(x: nat, y: nat, i: nat)
    ensures Bit(And(x, y), i) <==> Bit(x, i) && Bit(y, i)
    decreases i
  {
    if x == 0 {
      DivisionIs(0, Pow2(i), 0, 0);
    } else if i == 0 {
      assert And(x, y) % 2 == if x % 2 == 1 && y % 2 == 1 then 1 else 0;
    } else {
      assert And(x, y) / 2 == And(x / 2, y / 2);
      Halves(x, i);
      Halves(y, i);
      Halves(And(x, y), i);
      AndBits(x / 2, y / 2, i - 1);
    }
  }

  lemma {:induction false} OrZero(x: nat)
    ensures Or(0, x) == x
  {
    if x == 0 {
    } else {
      OrZero(x / 2);
    }
  }

  lemma {:induction false} OrCommutes(x: nat, y: nat)
    ensures Or(x, y) == Or(y, x)
    decreases x + y
  {
    if x > 0 || y > 0 {
      OrCommutes(x / 2, y / 2);
    }
  }

  /** Or of numbers that share no bit position is their sum. */
  lemma {:induction false} OrIsSum(low: nat, high: nat, k: nat)
    requires low < Pow2(k)
    ensures Or(low, high * Pow2(k)) == low + high * Pow2(k)
  {
    if k == 0 {
      OrZero(high);
    } else {
      var rest := high * Pow2(k - 1);
      assert high * Pow2(k) == 2 * rest by {
        assert high * (2 * Pow2(k - 1)) == 2 * rest;
      }
      OrIsSum(low / 2, high, k - 1);
    }
  }

  /** x & (1 << k) for a number of k + 1 bits. */
  lemma {:induction false} AndTopBit(x: nat, k: nat)
    requires x < Pow2(k + 1)
    ensures And(x, Pow2(k)) == if x >= Pow2(k) then Pow2(k) else 0
  {
    if k > 0 && x > 0 {
      AndTopBit(x / 2, k - 1);
    } else if x > 0 {
      assert And(x / 2, 0) == 0;
    }
  }
}
