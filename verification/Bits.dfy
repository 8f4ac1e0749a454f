/**
 Bitwise arithmetic on mathematical integers, as C and Python use it: `|`, `&`, `>>` and single
 bits. A negative integer has its two's-complement bits, because `/` and `%` by 2 round down.
 */
module Bits {

  function Pow2(k: nat): (p: nat)
    ensures p >= 1
  {
    if k == 0 then 1 else 2 * Pow2(k - 1)
  }

  /** Bit k of n. */
  predicate BitAt(n: int, k: nat)
    decreases k
  {
    if k == 0 then n % 2 == 1 else BitAt(n / 2, k - 1)
  }

  /** `a | b` */
  function Or(a: nat, b: nat): nat
    decreases a + b
  {
    if a == 0 && b == 0 then 0
    else (if a % 2 == 1 || b % 2 == 1 then 1 else 0) + 2 * Or(a / 2, b / 2)
  }

  /** `a & b` */
  function And(a: nat, b: nat): nat
    decreases a + b
  {
    if a == 0 || b == 0 then 0
    else (if a % 2 == 1 && b % 2 == 1 then 1 else 0) + 2 * And(a / 2, b / 2)
  }

  lemma {:induction false} ZeroBits(k: nat)
    ensures !BitAt(0, k)
  {
    if k > 0 { ZeroBits(k - 1); }
  }

  lemma {:induction false} OrBits(a: nat, b: nat, k: nat)
    ensures BitAt(Or(a, b), k) <==> BitAt(a, k) || BitAt(b, k)
  {
    if a == 0 && b == 0 {
      ZeroBits(k);
    } else {
      assert Or(a, b) / 2 == Or(a / 2, b / 2);
      if k > 0 { OrBits(a / 2, b / 2, k - 1); }
    }
  }

  lemma {:induction false} AndBits(a: nat, b: nat, k: nat)
    ensures BitAt(And(a, b), k) <==> BitAt(a, k) && BitAt(b, k)
  {
    if a == 0 || b == 0 {
      ZeroBits(k);
    } else {
      assert And(a, b) / 2 == And(a / 2, b / 2);
      if k > 0 { AndBits(a / 2, b / 2, k - 1); }
    }
  }

  lemma Regroup(n: int, a: int, b: int, q: int, s: int, r: int, t: int)
    requires n == a * q + s && q == b * r + t
    ensures n == (a * b) * r + (a * t + s)
  {
  }

  lemma RegroupedBelow(a: int, b: int, s: int, t: int)
    requires 0 <= s < a && 0 <= t < b
    ensures a * b > 0 && 0 <= a * t + s < a * b
  {
    ProductMonotone(a, t, b - 1);
    ProductMonotone(a, 0, t);
    assert a * (b - 1) == a * b - a;
  }

  lemma DivDiv(n: int, a: int, b: int)
    requires a > 0 && b > 0
    ensures a * b > 0 && (n / a) / b == n / (a * b)
  {
    var q, s := n / a, n % a;
    var r, t := q / b, q % b;
    Regroup(n, a, b, q, s, r, t);
    RegroupedBelow(a, b, s, t);
    QuotientUnique(n, a * b, r, a * t + s);
  }

  lemma QuotientUnique(n: int, d: int, q: int, r: int)
    requires d > 0 && n == d * q + r && 0 <= r < d
    ensures n / d == q && n % d == r
  {
    var q', r' := n / d, n % d;
    assert n == d * q' + r' && 0 <= r' < d;
    if q' > q {
      ProductMonotone(d, q + 1, q');
    } else if q' < q {
      ProductMonotone(d, q' + 1, q);
    }
  }

  lemma ProductMonotone(d: nat, a: int, b: int)
    requires a <= b
    ensures d * a <= d * b && d * a - d == d * (a - 1)
  {
  }

  /** `n >> k & 1` reads bit k. */
  lemma {:induction false} ShiftReadsBit(n: int, k: nat)
    ensures BitAt(n, k) <==> (n / Pow2(k)) % 2 == 1
    decreases k
  {
    if k > 0 {
      ShiftReadsBit(n / 2, k - 1);
      DivDiv(n, 2, Pow2(k - 1));
    }
  }

  lemma {:induction false} Pow2Bits(k: nat, j: nat)
    ensures BitAt(Pow2(k), j) <==> j == k
  {
    if k == 0 {
      if j > 0 { ZeroBits(j - 1); }
    } else {
      assert Pow2(k) / 2 == Pow2(k - 1);
      if j > 0 { Pow2Bits(k - 1, j - 1); }
    }
  }

  lemma AndMaskStep(n: nat, p: nat)
    requires p >= 1
    ensures And(n, 2 * p - 1) == n % 2 + 2 * And(n / 2, p - 1)
  {
  }

  /** `n & (2^k - 1)` keeps the low k bits. */
  lemma {:induction false} AndLowMask(n: nat, k: nat)
    ensures And(n, Pow2(k) - 1) == n % Pow2(k)
  {
    if k > 0 {
      AndLowMask(n / 2, k - 1);
      AndMaskStep(n, Pow2(k - 1));
      HalveRemainder(n, Pow2(k - 1));
    }
  }

  lemma HalveRemainder(n: int, p: int)
    requires p > 0
    ensures n % (2 * p) == n % 2 + 2 * ((n / 2) % p)
  {
    var h := n / 2;
    var q, r := h / p, h % p;
    Regroup(n, 2, p, h, n % 2, q, r);
    QuotientUnique(n, 2 * p, q, n % 2 + 2 * r);
  }

  /** Setting a bit above every set bit of v adds it. */
  lemma {:induction false} OrHighBit(v: nat, k: nat)
    requires v < Pow2(k)
    ensures Or(v, Pow2(k)) == v + Pow2(k)
  {
    if k == 0 {
      assert Or(0, 1) == 1 + 2 * Or(0, 0);
    } else {
      OrHighBit(v / 2, k - 1);
      assert Pow2(k) % 2 == 0 && Pow2(k) / 2 == Pow2(k - 1);
    }
  }

  lemma {:induction false} OrBelow(a: nat, b: nat, k: nat)
    requires a < Pow2(k) && b < Pow2(k)
    ensures Or(a, b) < Pow2(k)
  {
    if k > 0 && (a > 0 || b > 0) {
      OrBelow(a / 2, b / 2, k - 1);
    }
  }

  lemma {:induction false} AndBelow(a: nat, b: nat)
    ensures And(a, b) <= a
    decreases a
  {
    if a > 0 && b > 0 { AndBelow(a / 2, b / 2); }
  }

  /** Integers below 2^k with the same low k bits are equal. */
  lemma {:induction false} SameBits(a: nat, b: nat, k: nat)
    requires a < Pow2(k) && b < Pow2(k)
    requires forall j: nat | j < k :: BitAt(a, j) == BitAt(b, j)
    ensures a == b
  {
    if k > 0 {
      assert BitAt(a, 0) == BitAt(b, 0);
      forall j: nat | j < k - 1 ensures BitAt(a / 2, j) == BitAt(b / 2, j) {
        assert BitAt(a, j + 1) == BitAt(b, j + 1);
      }
      SameBits(a / 2, b / 2, k - 1);
    }
  }
}
