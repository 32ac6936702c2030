/**
 * JavaScript's `&` and `|` on the non-negative integers below 2^31 that the
 * UUID code applies them to, defined bit by bit.
 */
module Bits {

  function Pow2(k: nat): (p: nat)
    ensures p >= 1
  {
    if k == 0 then 1 else 2 * Pow2(k - 1)
  }

  /** Bitwise and: bit i of the result is set when bit i is set in both operands. */
  function And(a: nat, b: nat): nat
  {
    if a == 0 || b == 0 then 0
    else 2 * And(a / 2, b / 2) + (if a % 2 == 1 && b % 2 == 1 then 1 else 0)
  }

  /** Bitwise or: bit i of the result is set when bit i is set in either operand. */
  function Or(a: nat, b: nat): nat
  {
    if a == 0 then b
    else if b == 0 then a
    else 2 * Or(a / 2, b / 2) + (if a % 2 == 1 || b % 2 == 1 then 1 else 0)
  }

  /** Masking with 2^k - 1 keeps exactly the k low bits. */
  lemma {:induction false} AndLowMask(x: nat, k: nat)
    ensures And(x, Pow2(k) - 1) == x % Pow2(k)
  {
    if k == 0 || x == 0 {
    } else {
      var m := Pow2(k) - 1;
      assert m % 2 == 1 && m / 2 == Pow2(k - 1) - 1;
      AndLowMask(x / 2, k - 1);
      calc {
        And(x, m);
        2 * ((x / 2) % Pow2(k - 1)) + x % 2;
        { DivModSplit(x, Pow2(k - 1)); }
        x % Pow2(k);
      }
    }
  }

  lemma DivModSplit(x: nat, p: nat)
    requires p >= 1
    ensures 2 * ((x / 2) % p) + x % 2 == x % (2 * p)
  {
    var q, r := (x / 2) / p, (x / 2) % p;
    assert x / 2 == p * q + r;
    assert x == 2 * (x / 2) + x % 2;
    assert x == (2 * p) * q + (2 * r + x % 2);
    DivModUnique(x, 2 * p, q, 2 * r + x % 2);
  }

  /** Quotient and remainder are the unique q, s with x == d * q + s and 0 <= s < d. */
  lemma DivModUnique(x: int, d: int, q: int, s: int)
    requires 0 < d && 0 <= s < d && x == d * q + s
    ensures x / d == q && x % d == s
  {
    var q', s' := x / d, x % d;
    assert d * (q' - q) == s - s';
    MulAwayFromZero(d, q' - q);
  }

  lemma MulAwayFromZero(d: int, k: int)
    requires d >= 0
    ensures k >= 1 ==> d * k >= d
    ensures k <= -1 ==> d * k <= -d
  {
  }

  /** A number below 2^k shares no bit with a multiple of 2^k. */
  lemma {:induction false} AndDisjoint(x: nat, y: nat, k: nat)
    requires x < Pow2(k) && y % Pow2(k) == 0
    ensures And(x, y) == 0
  {
    if x != 0 && y != 0 {
      assert k > 0;
      assert y % 2 == 0 && (y / 2) % Pow2(k - 1) == 0 by { ModHalf(y, Pow2(k - 1)); }
      AndDisjoint(x / 2, y / 2, k - 1);
    }
  }

  lemma ModHalf(y: nat, p: nat)
    requires p >= 1 && y % (2 * p) == 0
    ensures y % 2 == 0 && (y / 2) % p == 0
  {
    var q := y / (2 * p);
    assert y == (2 * p) * q;
    assert y == 2 * (p * q) + 0;
    DivModUnique(y, 2, p * q, 0);
    DivModUnique(y / 2, p, q, 0);
  }

  /** Or of two numbers with no common bit is their sum. */
  lemma {:induction false} OrDisjoint(x: nat, y: nat)
    requires And(x, y) == 0
    ensures Or(x, y) == x + y
  {
    if x != 0 && y != 0 {
      assert !(x % 2 == 1 && y % 2 == 1) && And(x / 2, y / 2) == 0;
      OrDisjoint(x / 2, y / 2);
    }
  }

  /** `(x & (2^k - 1)) | y` for a multiple y of 2^k: the low k bits of x placed under y. */
  lemma MaskThenSet(x: nat, y: nat, k: nat)
    requires y % Pow2(k) == 0
    ensures Or(And(x, Pow2(k) - 1), y) == x % Pow2(k) + y
  {
    AndLowMask(x, k);
    AndDisjoint(x % Pow2(k), y, k);
    OrDisjoint(x % Pow2(k), y);
  }
}
