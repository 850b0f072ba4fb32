/** Binary numbers: powers of two, and bitwise or. */
module Bits {
  function Pow2(n: nat): (p: nat)
    ensures p > 0
  {
    if n == 0 then 1 else 2 * Pow2(n - 1)
  }

  lemma Pow2Step(n: nat)
    requires n > 0
    ensures Pow2(n) == 2 * Pow2(n - 1)
  {
  }

  lemma Regroup(x: int, p: int, q: int)
    ensures x * p * q == x * (p * q)
  {
  }

  lemma Doubled(x: int, p: int)
    ensures x * (2 * p) == 2 * (x * p)
  {
  }

  lemma {:induction false} Pow2Sum(m: nat, n: nat)
    ensures Pow2(m + n) == Pow2(m) * Pow2(n)
  {
    if m > 0 {
      Pow2Sum(m - 1, n);
      Pow2Step(m);
      Pow2Step(m + n);
      hide Pow2;
      Regroup(2, Pow2(m - 1), Pow2(n));
    }
  }

  /** Bitwise or, from the lowest bit on. */
  function Or(a: nat, b: nat): nat
    decreases a + b
  {
    if a == 0 && b == 0 then 0
    else (if a % 2 == 0 then b % 2 else 1) + 2 * Or(a / 2, b / 2)
  }

  lemma {:induction false} OrZero(a: nat)
    ensures Or(a, 0) == Or(0, a) == a
  {
    if a > 0 {
      OrZero(a / 2);
    }
  }

  lemma Halves(x: nat, b: nat)
    ensures 2 * x / 2 == x && 2 * x % 2 == 0 && b == 2 * (b / 2) + b % 2
  {
  }

  /** No bit is added beyond those of either number. */
  lemma {:induction false} OrSmall(a: nat, b: nat, n: nat)
    requires a < Pow2(n) && b < Pow2(n)
    ensures Or(a, b) < Pow2(n)
  {
    if n > 0 {
      OrSmall(a / 2, b / 2, n - 1);
    }
  }

  /** Numbers without a common bit, because one ends before the other starts, are added. */
  lemma {:induction false} OrDisjoint(a: nat, b: nat, k: nat)
    requires b < Pow2(k)
    ensures Or(a * Pow2(k), b) == a * Pow2(k) + b
  {
    if k == 0 {
      OrZero(a);
    } else {
      Pow2Step(k);
      hide Pow2;
      var x := a * Pow2(k - 1);
      Doubled(a, Pow2(k - 1));
      Halves(x, b);
      OrDisjoint(a, b / 2, k - 1);
    }
  }

  /** Shifting left, and shifting right: the quotient by a power of two, rounded down. */
  function ShiftLeft(x: nat, n: nat): nat {
    x * Pow2(n)
  }

  function ShiftRight(x: nat, n: nat): nat {
    if n == 0 then x else ShiftRight(x / 2, n - 1)
  }

  lemma {:induction false} ShiftRightBounds(x: nat, n: nat)
    ensures ShiftRight(x, n) * Pow2(n) <= x < ShiftRight(x, n) * Pow2(n) + Pow2(n)
  {
    if n > 0 {
      ShiftRightBounds(x / 2, n - 1);
      Pow2Step(n);
      hide Pow2;
      Doubled(ShiftRight(x, n), Pow2(n - 1));
    }
  }

  lemma {:induction false} ShiftRightDivides(x: nat, n: nat)
    ensures ShiftRight(x, n) == x / Pow2(n)
  {
    hide ShiftRight, Pow2;
    ShiftRightBounds(x, n);
    QuotientIs(x, Pow2(n), ShiftRight(x, n));
  }

  lemma QuotientIs(x: int, p: nat, q: int)
    requires q * p <= x < q * p + p
    ensures x / p == q
  {
    var r := x % p;
    assert x == p * (x / p) + r && 0 <= r < p;
    Between(x / p - q, p, x - q * p - r);
  }

  lemma Between(d: int, p: int, e: int)
    requires d * p == e && -p < e < p
    ensures d == 0
  {
  }

  lemma OrShifted(a: nat, b: nat, k: nat)
    requires b < Pow2(k)
    ensures Or(ShiftLeft(a, k), b) == ShiftLeft(a, k) + b
  {
    hide Or, Pow2;
    OrDisjoint(a, b, k);
  }

  /** A multiple of the divisor passes through. */
  lemma ShiftRightAdds(x: nat, l: nat, n: nat)
    ensures ShiftRight(ShiftLeft(x, n) + l, n) == x + ShiftRight(l, n)
  {
    hide ShiftRight, Pow2;
    var q, p := ShiftRight(l, n), Pow2(n);
    ShiftRightBounds(l, n);
    assert (x + q) * p == x * p + q * p;
    QuotientIs(x * p + l, p, x + q);
    ShiftRightDivides(x * p + l, n);
  }

  /** Two shifts to the left are one. */
  lemma ShiftLeftTwice(x: nat, m: nat, n: nat)
    ensures ShiftLeft(ShiftLeft(x, m), n) == ShiftLeft(x, m + n)
  {
    hide Pow2;
    Pow2Sum(m, n);
    Regroup(x, Pow2(m), Pow2(n));
  }

  /** A shift to the right makes room. */
  lemma {:induction false} ShiftRightBound(x: nat, m: nat, n: nat)
    requires x < Pow2(m + n)
    ensures ShiftRight(x, n) < Pow2(m)
  {
    if n > 0 {
      ShiftRightBound(x / 2, m, n - 1);
    }
  }

  /** Bit k of a number is what is left when the k bits below it are shifted out, modulo 2. */
  lemma {:induction false} OrBits(a: nat, b: nat, k: nat)
    ensures Or(a, b) / Pow2(k) % 2 == if a / Pow2(k) % 2 == 1 || b / Pow2(k) % 2 == 1 then 1 else 0
  {
    hide Pow2;
    ShiftRightDivides(a, k);
    ShiftRightDivides(b, k);
    ShiftRightDivides(Or(a, b), k);
    OrShifts(a, b, k);
  }

  lemma {:induction false} OrShifts(a: nat, b: nat, k: nat)
    ensures ShiftRight(Or(a, b), k) % 2 == if ShiftRight(a, k) % 2 == 1 || ShiftRight(b, k) % 2 == 1 then 1 else 0
  {
    if k > 0 {
      OrShifts(a / 2, b / 2, k - 1);
    }
  }
}
