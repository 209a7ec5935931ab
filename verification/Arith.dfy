/**
 Integer facts shared by the other modules: powers of two, rounded-up logarithms, and
 quotients and remainders with a variable divisor.
 */
module Arith {

  const TWO_TO_31 := 0x8000_0000
  const TWO_TO_32 := 0x1_0000_0000
  const TWO_TO_64 := 0x1_0000_0000_0000_0000

  datatype Option<+T> = None | Some(value: T)

  datatype Result<+T, +E> = Success(value: T) | Failure(error: E)

  function Pow2(k: nat): (r: nat)
    ensures r >= 1
  {
    if k == 0 then 1 else 2 * Pow2(k - 1)
  }

  lemma {:induction false} Pow2Sum(a: nat, b: nat)
    ensures Pow2(a + b) == Pow2(a) * Pow2(b)
  {
    if a > 0 {
      Pow2Sum(a - 1, b);
      assert Pow2(a + b) == 2 * Pow2((a - 1) + b);
      assert 2 * (Pow2(a - 1) * Pow2(b)) == (2 * Pow2(a - 1)) * Pow2(b);
    }
  }

  lemma {:induction false} Pow2Monotone(a: nat, b: nat)
    requires a <= b
    ensures Pow2(a) <= Pow2(b)
  {
    if a < b { Pow2Monotone(a, b - 1); }
  }

  lemma Pow2Strict(a: nat, b: nat)
    requires a < b
    ensures 2 * Pow2(a) <= Pow2(b)
  {
    Pow2Monotone(a + 1, b);
  }

  lemma Pow2Words()
    ensures Pow2(31) == 0x8000_0000
    ensures Pow2(60) == 0x1000_0000_0000_0000
    ensures Pow2(64) == 0x1_0000_0000_0000_0000
  {
    assert Pow2(10) == 1024;
    Pow2Sum(10, 10);
    Pow2Sum(20, 10);
    Pow2Sum(30, 30);
    Pow2Sum(60, 4);
  }

  /** The rounded-up binary logarithm: the least L with m <= 2^L. */
  function CeilLog2(m: nat): (L: nat)
    ensures m <= Pow2(L)
    ensures forall l: nat :: l < L ==> Pow2(l) < m
    decreases m
  {
    if m <= 1 then 0
    else
      var half := (m + 1) / 2;
      var l := CeilLog2(half);
      assert Pow2(l + 1) == 2 * Pow2(l);
      assert forall k: nat :: k < l + 1 ==> Pow2(k) < m by {
        forall k: nat | k < l + 1 ensures Pow2(k) < m {
          if k > 0 { assert Pow2(k - 1) < half; }
        }
      }
      l + 1
  }

  lemma CeilLog2AtMost(m: nat, k: nat)
    ensures CeilLog2(m) <= k <==> m <= Pow2(k)
  {
    if CeilLog2(m) <= k { Pow2Monotone(CeilLog2(m), k); }
  }

  lemma CeilLog2OfPow2(k: nat)
    ensures CeilLog2(Pow2(k)) == k
  {
    CeilLog2AtMost(Pow2(k), k);
    if CeilLog2(Pow2(k)) < k { Pow2Strict(CeilLog2(Pow2(k)), k); }
  }

  lemma NonzeroMultiple(k: int, d: int)
    requires d > 0
    ensures k > 0 ==> k * d >= d
    ensures k < 0 ==> k * d <= -d
  {
    if k > 0 { assert (k - 1) * d >= 0; }
    if k < 0 { assert (-k - 1) * d >= 0; }
  }

  /** Before the b-th multiple of c there is room for one more c after the a-th. */
  lemma MultiplesApart(a: nat, b: nat, c: nat)
    requires a < b
    ensures a * c + c <= b * c
  {
    var k := b - a - 1;
    assert b * c == (a + 1 + k) * c == a * c + c + k * c;
  }

  /** A quotient and a remainder are determined by the division equation. */
  lemma DivModUnique(a: int, d: int, quot: int, rem: int)
    requires d > 0 && 0 <= rem < d && a == quot * d + rem
    ensures a / d == quot && a % d == rem
  {
    var diff := quot - a / d;
    assert diff * d == quot * d - (a / d) * d;
    assert -d < diff * d < d;
    NonzeroMultiple(diff, d);
  }

  lemma ModAddMultiple(a: int, k: int, d: int)
    requires d > 0
    ensures (a + k * d) % d == a % d
  {
    assert a + k * d == (a / d + k) * d + a % d;
    DivModUnique(a + k * d, d, a / d + k, a % d);
  }

  lemma ModMultiple(k: int, d: int)
    requires d > 0
    ensures (k * d) % d == 0 && (k * d) / d == k
  {
    DivModUnique(k * d, d, k, 0);
  }

  /** Reducing the operands first does not change a sum modulo d. */
  lemma ModAdd(a: int, b: int, d: int)
    requires d > 0
    ensures (a % d + b % d) % d == (a + b) % d
    ensures (a + b % d) % d == (a + b) % d
  {
    assert a + b == (a % d + b % d) + (a / d + b / d) * d;
    ModAddMultiple(a % d + b % d, a / d + b / d, d);
    ModAddMultiple(a + b % d, b / d, d);
    assert a + b == a + b % d + (b / d) * d;
  }

  lemma ModMul(a: int, b: int, d: int)
    requires d > 0
    ensures (a * (b % d)) % d == (a * b) % d
  {
    assert a * b == a * (b % d) + a * ((b / d) * d);
    assert a * ((b / d) * d) == (a * (b / d)) * d;
    ModAddMultiple(a * (b % d), a * (b / d), d);
  }

  /** Two digits, the lower below b and the upper below c, make a number below b * c. */
  lemma DigitBounds(low: nat, high: nat, b: nat, c: nat)
    requires low < b && high < c
    ensures b * high + low < b * c
  {
    MultiplesApart(high, c, b);
  }

  lemma Regrouped(b: nat, c: nat, q: nat, r: nat, low: nat)
    ensures b * (c * q + r) + low == q * (b * c) + (b * r + low)
  {
  }
}
