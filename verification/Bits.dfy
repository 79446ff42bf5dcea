/** The bitwise operators of the decoder on non-negative numbers, bit by bit. */
module Bits {

  function Pow2(k: nat): (p: nat)
    ensures p > 0
  {
    if k == 0 then 1 else 2 * Pow2(k - 1)
  }

  function Or(a: nat, b: nat): nat {
    if a == 0 && b == 0 then 0
    else 2 * Or(a / 2, b / 2) + (if a % 2 == 1 || b % 2 == 1 then 1 else 0)
  }

  function And(a: nat, b: nat): nat {
    if a == 0 || b == 0 then 0
    else 2 * And(a / 2, b / 2) + (if a % 2 == 1 && b % 2 == 1 then 1 else 0)
  }

  /** A left shift that must stay below the sign bit of the 32-bit integer JavaScript shifts in. */
  function Shl(a: nat, k: nat): nat
    requires a * Pow2(k) < 0x8000_0000
  {
    a * Pow2(k)
  }

  function Shr(a: nat, k: nat): nat {
    QuotientIsNat(a, Pow2(k));
    a / Pow2(k)
  }

  lemma QuotientIsNat(a: nat, p: nat)
    requires p > 0
    ensures a / p >= 0
  {
  }

  lemma {:induction false} OrZero(a: nat)
    ensures Or(a, 0) == a && Or(0, a) == a
  {
    if a > 0 {
      OrZero(a / 2);
    }
  }

  /** Or-ing a value into cleared low bits is addition. */
  lemma {:induction false} OrDisjoint(a: nat, b: nat, k: nat)
    requires b < Pow2(k)
    ensures Or(a * Pow2(k), b) == a * Pow2(k) + b
  {
    if k == 0 {
      OrZero(a);
    } else {
      OrDisjoint(a, b / 2, k - 1);
      Reassociate(a, Pow2(k - 1));
    }
  }

  lemma Reassociate(a: nat, p: nat)
    ensures a * (2 * p) == 2 * (a * p)
  {
  }

  lemma {:induction false} OrCommutes(a: nat, b: nat)
    ensures Or(a, b) == Or(b, a)
  {
    if a > 0 || b > 0 {
      OrCommutes(a / 2, b / 2);
    }
  }

  /** All ones absorb anything that fits under them: why the 255 sentinel wins. */
  lemma {:induction false} OrOnes(a: nat, k: nat)
    requires a < Pow2(k)
    ensures Or(Pow2(k) - 1, a) == Pow2(k) - 1 == Or(a, Pow2(k) - 1)
  {
    if k > 0 {
      OrOnes(a / 2, k - 1);
    }
    OrCommutes(a, Pow2(k) - 1);
  }

  lemma ModDouble(a: nat, p: nat)
    requires p > 0
    ensures a % (2 * p) == 2 * (a / 2 % p) + a % 2
  {
    var q, v := a / 2 / p, a / 2 % p;
    assert a / 2 == p * q + v;
    assert a == 2 * p * q + (2 * v + a % 2);
    DivModUnique(a, 2 * p, q, 2 * v + a % 2);
  }

  lemma DivModUnique(a: nat, m: nat, q: nat, r: nat)
    requires a == m * q + r && r < m
    ensures a / m == q && a % m == r
  {
    var x, d := a / m, a / m - q;
    assert a == m * x + a % m;
    assert m * d == m * x - m * q;
  }

  /** And-ing with 2^k - 1 keeps the low k bits. */
  lemma {:induction false} AndMask(a: nat, k: nat)
    ensures And(a, Pow2(k) - 1) == a % Pow2(k)
  {
    if k > 0 {
      var m := Pow2(k - 1);
      AndMask(a / 2, k - 1);
      ModDouble(a, m);
      AndOddMask(a, m - 1);
    }
  }

  lemma AndOddMask(a: nat, m: nat)
    ensures And(a, 2 * m + 1) == 2 * And(a / 2, m) + a % 2
  {
  }
}
