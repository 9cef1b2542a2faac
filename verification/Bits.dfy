/** Bit operations on natural numbers, as sums, quotients and remainders. */
module Bits {
  function Pow2(k: nat): (p: nat)
    ensures p > 0
  {
    if k == 0 then 1 else 2 * Pow2(k - 1)
  }

  function And(a: nat, b: nat): nat {
    if a == 0 || b == 0 then 0 else 2 * And(a / 2, b / 2) + (if a % 2 == 1 && b % 2 == 1 then 1 else 0)
  }

  function Or(a: nat, b: nat): nat
    decreases a
  {
    if a == 0 then b else if b == 0 then a
    else 2 * Or(a / 2, b / 2) + (if a % 2 == 1 || b % 2 == 1 then 1 else 0)
  }

  /** A mask of ones takes the remainder. */
  lemma {:induction false} AndMask(a: nat, k: nat)
    ensures And(a, Pow2(k) - 1) == a % Pow2(k)
  {
    hide And;
    AndZero(a);
    if k > 0 {
      AndMask(a / 2, k - 1);
      AndStep(a, Pow2(k - 1));
    }
  }

  lemma AndZero(a: nat)
    ensures And(a, 0) == And(0, a) == 0
  {
  }

  lemma AndStep(a: nat, p: nat)
    requires p > 0 && And(a / 2, p - 1) == a / 2 % p
    ensures And(a, 2 * p - 1) == a % (2 * p)
  {
    assert (2 * p - 1) / 2 == p - 1 && (2 * p - 1) % 2 == 1;
    HalfMod(a, p);
    if a == 0 {
      ModIs(0, 2 * p, 0, 0);
    }
  }

  lemma HalfMod(a: nat, p: nat)
    requires p > 0
    ensures a % (2 * p) == 2 * (a / 2 % p) + a % 2
  {
    var q, r := a / 2 / p, a / 2 % p;
    DivMod(a / 2, p);
    assert q * (2 * p) == 2 * (q * p);
    ModIs(a, 2 * p, q, 2 * r + a % 2);
  }

  lemma AtLeastOnce(x: int, p: nat)
    requires x >= 1
    ensures x * p >= p
  {
  }

  lemma Positive(x: int, p: nat)
    requires x * p > 0
    ensures x >= 1
  {
    if x <= 0 {
      AtLeastOnce(1 - x, p);
    }
  }

  lemma DivMod(a: nat, p: nat)
    requires p > 0
    ensures a == a / p * p + a % p
  {
  }

  lemma SameQuotient(p: nat, q: int, r: nat, q': int, r': nat)
    requires q * p + r == q' * p + r' && r < p && r' < p
    ensures q == q' && r == r'
  {
    assert (q - q') * p == r' - r && (q' - q) * p == r - r';
    if q > q' {
      AtLeastOnce(q - q', p);
    } else if q < q' {
      AtLeastOnce(q' - q, p);
    }
  }

  lemma ModIs(a: nat, p: nat, q: nat, r: nat)
    requires p > 0 && a == q * p + r && r < p
    ensures a % p == r && a / p == q
  {
    DivMod(a, p);
    SameQuotient(p, a / p, a % p, q, r);
  }

  lemma OrStep(a: nat, b: nat)
    ensures Or(a, b) == 2 * Or(a / 2, b / 2) + (if a % 2 == 1 || b % 2 == 1 then 1 else 0)
    ensures Or(a, 0) == a
  {
  }

  /** The union acts on the high and the low bits apart. */
  lemma {:induction false} OrScaled(a: nat, b: nat, k: nat, r: nat)
    requires r < Pow2(k)
    ensures Or(a * Pow2(k), b * Pow2(k) + r) == Or(a, b) * Pow2(k) + r
  {
    hide Or;
    if k > 0 {
      var p: nat := Pow2(k - 1);
      var x, y := a * p, b * p;
      OrScaled(a, b, k - 1, r / 2);
      assert a * Pow2(k) == 2 * x && b * Pow2(k) == 2 * y;
      OrStep(2 * x, 2 * y + r);
      assert (2 * y + r) / 2 == y + r / 2;
      assert Or(a, b) * Pow2(k) == 2 * (Or(a, b) * p);
    }
  }

  /** Shifting a number past the bits of another makes the union a sum. */
  lemma OrDisjoint(a: nat, k: nat, b: nat)
    requires b < Pow2(k)
    ensures Or(a * Pow2(k), b) == a * Pow2(k) + b
  {
    OrScaled(a, 0, k, b);
    OrStep(a, 0);
  }
}
