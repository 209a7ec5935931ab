/**
 Oblivious expansion of a query: one encrypted polynomial becomes m ciphertexts, ciphertext k
 holding a scaled coefficient k. Ciphertexts stay opaque; the evaluator's operations are
 parameters, and what they do to the encrypted polynomial is stated in Faithful.
 */
module QueryExpander {
  import opened Arith
  import opened NegacyclicRing

  /** `Undefined` is no exception: with fewer than two outputs the count of levels wraps around below zero. */
  datatype Error = TooManyCoefficients | SizeMismatch | Undefined

  /** `blank` is a default-constructed ciphertext: nothing is assumed of it. */
  datatype Evaluator<!C> = Evaluator(
    dec: C -> Poly,
    add: (C, C) -> C,
    galois: (C, nat) -> C,
    shift: (C, nat) -> C,
    double: C -> C,
    blank: C)

  ghost predicate Faithful<C(!new)>(R: Ring, E: Evaluator<C>) {
    && (forall c :: IsPoly(R, E.dec(c)))
    && (forall c, d :: E.dec(E.add(c, d)) == Add(R, E.dec(c), E.dec(d)))
    && (forall c, g :: E.dec(E.galois(c, g)) == Rotate(R, E.dec(c), g))
    && (forall c, e :: E.dec(E.shift(c, e)) == Shift(R, E.dec(c), e))
    && (forall c :: E.dec(E.double(c)) == Add(R, E.dec(c), E.dec(c)))
  }

  // ----- what a level of the expansion holds

  /** The coefficients of p at a, a + stride, a + 2*stride, ..., scaled, each divided by x^a. */
  function Sieve(R: Ring, p: Poly, stride: nat, scale: nat, a: nat): (r: Poly)
    requires IsPoly(R, p) && stride > 0
    ensures IsPoly(R, r)
  {
    seq(R.n, t requires 0 <= t < R.n =>
      if t % stride == 0 && a + t < R.n then (scale * p[a + t]) % R.q else 0)
  }

  lemma DoubledResidue(R: Ring, c: nat, x: nat)
    ensures AddMod(R, (c * x) % R.q, (c * x) % R.q) == ((2 * c) * x) % R.q
  {
    ModAdd(c * x, c * x, R.q);
    assert (2 * c) * x == c * x + c * x;
  }

  lemma NegTwice(R: Ring, c: nat)
    requires c < R.q
    ensures Neg(R, Neg(R, c)) == c && AddMod(R, Neg(R, c), c) == 0
  {
  }

  /** A position that is a multiple of b, and of 2b, in terms of its quotient by b. */
  lemma EvenMultiple(t: nat, b: nat)
    requires b > 0
    ensures t % (2 * b) == 0 <==> t % b == 0 && (t / b) % 2 == 0
    ensures t % b == 0 ==> (t + b) % b == 0 && (t + b) / b == t / b + 1
    ensures t % b != 0 ==> (t + b) % b != 0
  {
    var v := t / b;
    assert t == v * b + t % b;
    assert t == (v / 2) * (2 * b) + ((v % 2) * b + t % b) by {
      assert v == 2 * (v / 2) + v % 2;
      assert v * b == (2 * (v / 2)) * b + (v % 2) * b;
      assert (2 * (v / 2)) * b == (v / 2) * (2 * b);
    }
    assert v % 2 == 0 || v % 2 == 1;
    DivModUnique(t, 2 * b, v / 2, (v % 2) * b + t % b);
    assert t + b == (v + 1) * b + t % b;
    DivModUnique(t + b, b, v + 1, t % b);
  }

  lemma SieveLow(R: Ring, p: Poly, b: nat, h: nat, c: nat, a: nat)
    requires IsPoly(R, p) && b > 0 && h % 2 == 0 && R.n == b * h
    ensures var T := Sieve(R, p, b, c, a);
            Add(R, T, Rotate(R, T, h + 1)) == Sieve(R, p, 2 * b, 2 * c, a)
  {
    var T := Sieve(R, p, b, c, a);
    var sum, goal := Add(R, T, Rotate(R, T, h + 1)), Sieve(R, p, 2 * b, 2 * c, a);
    forall t | 0 <= t < R.n ensures sum[t] == goal[t] {
      RotateSparse(R, T, b, h, t);
      EvenMultiple(t, b);
      if a + t < R.n { DoubledResidue(R, c, p[a + t]); }
    }
  }

  /** Adding the negated rotation keeps and doubles every second multiple of b. */
  lemma RotationCancels(R: Ring, T: Poly, b: nat, h: nat, t: nat)
    requires IsPoly(R, T) && b > 0 && h % 2 == 0 && R.n == b * h && t + b < R.n
    requires forall s | 0 <= s < R.n && s % b != 0 :: T[s] == 0
    ensures AddMod(R, T[t + b], Neg(R, Rotate(R, T, h + 1)[t + b])) ==
            if t % (2 * b) == 0 then AddMod(R, T[t + b], T[t + b]) else 0
  {
    RotateSparse(R, T, b, h, t + b);
    EvenMultiple(t, b);
    NegTwice(R, T[t + b]);
  }

  lemma SieveHighInside(R: Ring, p: Poly, b: nat, h: nat, c: nat, a: nat, t: nat)
    requires IsPoly(R, p) && b > 0 && h % 2 == 0 && R.n == b * h && t + b < R.n
    ensures var T := Sieve(R, p, b, c, a);
            AddMod(R, T[t + b], Neg(R, Rotate(R, T, h + 1)[t + b])) == Sieve(R, p, 2 * b, 2 * c, a + b)[t]
  {
    RotationCancels(R, Sieve(R, p, b, c, a), b, h, t);
    SieveNext(R, p, b, c, a, t);
  }

  lemma SieveNext(R: Ring, p: Poly, b: nat, c: nat, a: nat, t: nat)
    requires IsPoly(R, p) && b > 0 && t + b < R.n
    ensures var x := Sieve(R, p, b, c, a)[t + b];
            Sieve(R, p, 2 * b, 2 * c, a + b)[t] == if t % (2 * b) == 0 then AddMod(R, x, x) else 0
  {
    EvenMultiple(t, b);
    if a + b + t < R.n { DoubledResidue(R, c, p[a + (t + b)]); }
  }

  lemma SieveHighWrapped(R: Ring, p: Poly, b: nat, h: nat, c: nat, a: nat, t: nat)
    requires IsPoly(R, p) && 0 < b <= R.n && h % 2 == 0 && h > 0 && R.n == b * h && R.n - b <= t < R.n
    ensures var T := Sieve(R, p, b, c, a); var G := Rotate(R, T, h + 1);
            AddMod(R, Neg(R, T[t + b - R.n]), G[t + b - R.n]) == Sieve(R, p, 2 * b, 2 * c, a + b)[t]
  {
    var T := Sieve(R, p, b, c, a);
    TopIsOdd(R.n, b, h, t);
    RotateSparse(R, T, b, h, t + b - R.n);
    NegTwice(R, T[t + b - R.n]);
  }

  lemma SieveHigh(R: Ring, p: Poly, b: nat, h: nat, c: nat, a: nat)
    requires IsPoly(R, p) && 0 < b <= R.n && h % 2 == 0 && h > 0 && R.n == b * h
    ensures var T := Sieve(R, p, b, c, a);
            Add(R, Shift(R, T, 2 * R.n - b), Shift(R, Rotate(R, T, h + 1), R.n - b))
            == Sieve(R, p, 2 * b, 2 * c, a + b)
  {
    var T := Sieve(R, p, b, c, a);
    var G := Rotate(R, T, h + 1);
    var sum := Add(R, Shift(R, T, 2 * R.n - b), Shift(R, G, R.n - b));
    var goal := Sieve(R, p, 2 * b, 2 * c, a + b);
    forall t | 0 <= t < R.n ensures sum[t] == goal[t] {
      ShiftDown(R, T, b, t);
      ShiftDownNegated(R, G, b, t);
      if t + b < R.n {
        SieveHighInside(R, p, b, h, c, a, t);
      } else {
        SieveHighWrapped(R, p, b, h, c, a, t);
      }
    }
  }

  /** The positions within b of the top: none is a multiple of 2b. */
  lemma TopIsOdd(n: nat, b: nat, h: nat, t: nat)
    requires b > 0 && h > 0 && h % 2 == 0 && n == b * h && n - b <= t < n
    ensures t % (2 * b) != 0
    ensures t + b - n < b
    ensures t + b > n ==> (t + b - n) % b != 0
    ensures (t + b - n) / b == 0
  {
    assert h == 2 * (h / 2);
    var half := h / 2;
    assert b * h == half * (2 * b) by { assert b * (2 * half) == half * (2 * b); }
    assert t == (half - 1) * (2 * b) + (t - n + 2 * b) by {
      assert (half - 1) * (2 * b) == half * (2 * b) - 2 * b;
    }
    DivModUnique(t, 2 * b, half - 1, t - n + 2 * b);
    DivModUnique(t + b - n, b, 0, t + b - n);
  }

  lemma SieveDouble(R: Ring, p: Poly, b: nat, c: nat, a: nat)
    requires IsPoly(R, p) && b > 0
    ensures var T := Sieve(R, p, b, c, a); Add(R, T, T) == Sieve(R, p, b, 2 * c, a)
  {
    var T := Sieve(R, p, b, c, a);
    var sum, goal := Add(R, T, T), Sieve(R, p, b, 2 * c, a);
    forall t | 0 <= t < R.n ensures sum[t] == goal[t] {
      if a + t < R.n { DoubledResidue(R, c, p[a + t]); }
    }
  }

  // ----- the index arithmetic, in the machine's integers

  /** A 32-bit signed product as two's complement hardware leaves it. */
  function WrapInt32(x: int): (r: int)
    ensures -TWO_TO_31 <= r < TWO_TO_31 && (x - r) % TWO_TO_32 == 0
  {
    (x + TWO_TO_31) % TWO_TO_32 - TWO_TO_31
  }

  function GaloisElement(n: nat, i: nat): nat {
    (n + Pow2(i)) / Pow2(i)
  }

  function IndexProduct(n: nat, i: nat): int {
    (2 * n - Pow2(i)) * GaloisElement(n, i)
  }

  /** The second shift: the 32-bit product, converted to 64 bits, modulo 2n. */
  function SecondShift(n: nat, product: int): nat
    requires n > 0
  {
    (WrapInt32(product) % TWO_TO_64) % (2 * n)
  }

  /** For any n, it is the quotient rounded down. */
  lemma GaloisElementIsFloor(n: nat, i: nat, e: nat)
    ensures e == GaloisElement(n, i) <==> e * Pow2(i) <= n + Pow2(i) < (e + 1) * Pow2(i)
  {
    var b := Pow2(i);
    var a := n + b;
    assert a == (a / b) * b + a % b;
    if e * b <= a < (e + 1) * b { DivModUnique(a, b, e, a - e * b); }
  }

  lemma GaloisElementIs(logn: nat, i: nat)
    requires i <= logn
    ensures GaloisElement(Pow2(logn), i) == Pow2(logn - i) + 1
    ensures Pow2(logn) == Pow2(i) * Pow2(logn - i)
  {
    Pow2Sum(i, logn - i);
    DivModUnique(Pow2(logn) + Pow2(i), Pow2(i), Pow2(logn - i) + 1, 0);
  }

  lemma IndexProductIs(logn: nat, i: nat)
    requires i <= logn
    ensures IndexProduct(Pow2(logn), i) == 2 * Pow2(logn) * Pow2(logn - i) + Pow2(logn) - Pow2(i)
  {
    GaloisElementIs(logn, i);
    var n, b, h := Pow2(logn), Pow2(i), Pow2(logn - i);
    assert (2 * n - b) * (h + 1) == 2 * n * h + 2 * n - b * h - b;
  }

  /** The signed product overflows no 32-bit integer at any level exactly when n <= 2^14. */
  lemma IndexProductFits(logn: nat)
    ensures (forall i: nat :: i < logn ==> IndexProduct(Pow2(logn), i) < TWO_TO_31) <==> logn <= 14
  {
    if logn <= 14 {
      forall i: nat | i < logn ensures IndexProduct(Pow2(logn), i) < TWO_TO_31 {
        SmallRingFits(logn, i);
      }
    } else {
      LargeRingOverflows(logn);
      assert IndexProduct(Pow2(logn), 0) >= TWO_TO_31;
    }
  }

  lemma SmallRingFits(logn: nat, i: nat)
    requires i < logn <= 14
    ensures IndexProduct(Pow2(logn), i) < TWO_TO_31
  {
    Pow2Monotone(logn, 14);
    Pow2Monotone(logn - i, 14);
    IndexProductIs(logn, i);
    SmallProduct(Pow2(logn), Pow2(logn - i));
  }

  lemma SmallProduct(n: nat, h: nat)
    requires n <= 16384 && h <= 16384
    ensures 2 * n * h + n < TWO_TO_31
  {
    MulAtMost(n, h, 16384, 16384);
    assert 2 * n * h == 2 * (n * h);
  }

  lemma LargeRingOverflows(logn: nat)
    requires logn >= 15
    ensures IndexProduct(Pow2(logn), 0) >= TWO_TO_31
  {
    Pow2Monotone(15, logn);
    IndexProductIs(logn, 0);
    MulAtMost(32768, 32768, Pow2(logn), Pow2(logn));
  }

  lemma MulAtMost(a: nat, b: nat, c: nat, d: nat)
    requires a <= c && b <= d
    ensures a * b <= c * d
  {
    assert a * b <= c * b <= c * d;
  }

  /** Dropping a multiple of a multiple of d does not change a remainder modulo d. */
  lemma ModUnwrap(x: int, j: int, span: int, rest: int, d: int)
    requires d > 0 && span == rest * d
    ensures (x - j * span) % d == x % d
  {
    assert x - j * span == x + (-j * rest) * d;
    ModAddMultiple(x, -j * rest, d);
  }

  lemma WrappedRemainder(n: nat, prod: int, rest: int)
    requires n > 0 && rest * (2 * n) == TWO_TO_32
    ensures SecondShift(n, prod) == prod % (2 * n)
  {
    var w := WrapInt32(prod);
    ModUnwrap(prod, (prod + TWO_TO_31) / TWO_TO_32, TWO_TO_32, rest, 2 * n);
    assert (TWO_TO_32 * rest) * (2 * n) == TWO_TO_32 * (rest * (2 * n));
    ModUnwrap(w, w / TWO_TO_64, TWO_TO_64, TWO_TO_32 * rest, 2 * n);
  }

  lemma ProductRemainder(n: nat, h: nat, b: nat)
    requires 0 < b <= n
    ensures (2 * n * h + n - b) % (2 * n) == n - b
  {
    assert 2 * n * h == h * (2 * n);
    DivModUnique(2 * n * h + n - b, 2 * n, h, n - b);
  }

  lemma ShiftOfProduct(n: nat, h: nat, b: nat, rest: nat, product: int)
    requires 0 < b <= n && rest * (2 * n) == TWO_TO_32 && product == 2 * n * h + n - b
    ensures SecondShift(n, product) == n - b
  {
    WrappedRemainder(n, product, rest);
    ProductRemainder(n, h, b);
  }

  lemma WordIsMultiple(logn: nat)
    requires logn <= 31
    ensures Pow2(31 - logn) * (2 * Pow2(logn)) == TWO_TO_32
  {
    var k := 31 - logn;
    Pow2Sum(k, logn);
    Pow2Words();
    DoubleProduct(Pow2(k), Pow2(logn));
  }

  lemma DoubleProduct(a: nat, b: nat)
    ensures a * (2 * b) == 2 * (a * b)
  {
  }

  /** Whether or not the product wrapped, the second shift is by n - 2^i, that is by -x^(-2^i). */
  lemma SecondShiftIs(logn: nat, i: nat, product: int)
    requires i < logn <= 30 && product == IndexProduct(Pow2(logn), i)
    ensures SecondShift(Pow2(logn), product) == Pow2(logn) - Pow2(i)
  {
    IndexProductIs(logn, i);
    WordIsMultiple(logn);
    Pow2Monotone(i, logn);
    ShiftOfProduct(Pow2(logn), Pow2(logn - i), Pow2(i), Pow2(31 - logn), product);
  }

  // ----- the expansion itself

  /** Output slots whose last level was the plain doubling keep the coarser stride. */
  function OutputStride(m: nat, k: nat): (stride: nat)
    requires m >= 2
    ensures stride > 0
  {
    var half := Pow2(CeilLog2(m) - 1);
    if m - half <= k < half then half else 2 * half
  }

  /** What output k of expanding p into m ciphertexts encrypts, for any p at all. */
  function ExpandedPart(R: Ring, p: Poly, m: nat, k: nat): (r: Poly)
    requires IsPoly(R, p) && m >= 2
    ensures IsPoly(R, r)
  {
    Sieve(R, p, OutputStride(m, k), Pow2(CeilLog2(m)), k)
  }

  ghost predicate LevelHolds<C(!new)>(R: Ring, E: Evaluator<C>, p: Poly, i: nat, temp: seq<C>)
    requires Faithful(R, E) && IsPoly(R, p)
  {
    && |temp| == Pow2(i)
    && forall a | 0 <= a < |temp| :: SlotHolds(R, E, p, i, a, temp[a])
  }

  ghost predicate SlotHolds<C(!new)>(R: Ring, E: Evaluator<C>, p: Poly, i: nat, a: nat, c: C)
    requires IsPoly(R, p)
  {
    E.dec(c) == Sieve(R, p, Pow2(i), Pow2(i), a)
  }

  /** What level i needs of n: the stride divides it an even number of times. */
  lemma LevelArithmetic(logn: nat, i: nat)
    requires i < logn <= 30
    ensures var n, b, h := Pow2(logn), Pow2(i), Pow2(logn - i);
            && 0 < b <= n && h % 2 == 0 && h > 0 && n == b * h
            && GaloisElement(n, i) == h + 1
  {
    GaloisElementIs(logn, i);
    Pow2Monotone(i, logn);
    HalfIsWhole(logn - i);
  }

  lemma HalfIsWhole(k: nat)
    requires k > 0
    ensures Pow2(k) % 2 == 0
  {
  }

  /** One rotation, two shifts and two additions split slot a of level i in two. */
  method SplitSlot<C(!new)>(
    R: Ring, logn: nat, E: Evaluator<C>, c: C, element: nat, i: nat, ghost p: Poly, ghost a: nat)
    returns (low: C, high: C)
    requires R.n == Pow2(logn) && i < logn <= 30 && Faithful(R, E) && IsPoly(R, p)
    requires element == GaloisElement(R.n, i)
    requires E.dec(c) == Sieve(R, p, Pow2(i), Pow2(i), a)
    ensures E.dec(low) == Sieve(R, p, Pow2(i + 1), Pow2(i + 1), a)
    ensures E.dec(high) == Sieve(R, p, Pow2(i + 1), Pow2(i + 1), a + Pow2(i))
  {
    LevelArithmetic(logn, i);
    var indexRaw := 2 * R.n - Pow2(i);
    var index := SecondShift(R.n, indexRaw * element);
    SecondShiftIs(logn, i, indexRaw * element);
    var rotated := E.galois(c, element);
    low := E.add(c, rotated);
    var shifted := E.shift(c, indexRaw);
    var rotatedShifted := E.shift(rotated, index);
    high := E.add(shifted, rotatedShifted);
    SplitSlotMeaning(R, E, c, Pow2(i), Pow2(i + 1), Pow2(logn - i), element, indexRaw, index, p, a);
  }

  lemma SplitSlotMeaning<C(!new)>(
    R: Ring, E: Evaluator<C>, c: C, b: nat, b2: nat, h: nat, element: nat, down: nat, negated: nat, p: Poly,
    a: nat)
    requires Faithful(R, E) && IsPoly(R, p)
    requires 0 < b <= R.n && h % 2 == 0 && h > 0 && R.n == b * h && b2 == 2 * b
    requires element == h + 1 && down == 2 * R.n - b && negated == R.n - b
    requires E.dec(c) == Sieve(R, p, b, b, a)
    ensures E.dec(E.add(c, E.galois(c, element))) == Sieve(R, p, b2, b2, a)
    ensures E.dec(E.add(E.shift(c, down), E.shift(E.galois(c, element), negated))) == Sieve(R, p, b2, b2, a + b)
  {
    SieveLow(R, p, b, h, b, a);
    SieveHigh(R, p, b, h, b, a);
  }

  /** A level that splits every slot. */
  method SplitLevel<C(!new)>(R: Ring, logn: nat, E: Evaluator<C>, temp: seq<C>, element: nat, i: nat, ghost p: Poly)
    returns (newtemp: seq<C>)
    requires R.n == Pow2(logn) && i < logn <= 30 && Faithful(R, E) && IsPoly(R, p)
    requires element == GaloisElement(R.n, i)
    requires LevelHolds(R, E, p, i, temp)
    ensures LevelHolds(R, E, p, i + 1, newtemp)
  {
    newtemp := seq(2 * |temp|, _ => E.blank);
    for a := 0 to |temp|
      invariant |newtemp| == 2 * |temp|
      invariant forall b | 0 <= b < a :: SlotHolds(R, E, p, i + 1, b, newtemp[b])
      invariant forall b | |temp| <= b < |temp| + a :: SlotHolds(R, E, p, i + 1, b, newtemp[b])
    {
      assert SlotHolds(R, E, p, i, a, temp[a]);
      var low, high := SplitSlot(R, logn, E, temp[a], element, i, p, a);
      newtemp := newtemp[a := low][a + |temp| := high];
    }
  }

  /** Which of the two cases of the last level an output comes from. */
  lemma OutputsOfSlot(R: Ring, p: Poly, m: nat, half: nat, a: nat)
    requires IsPoly(R, p) && m >= 2 && half == Pow2(CeilLog2(m) - 1) && a < half
    ensures half < m <= 2 * half && Pow2(CeilLog2(m)) == 2 * half
    ensures a >= m - half ==> ExpandedPart(R, p, m, a) == Sieve(R, p, half, 2 * half, a)
    ensures a < m - half ==> ExpandedPart(R, p, m, a) == Sieve(R, p, 2 * half, 2 * half, a)
    ensures a < m - half ==> ExpandedPart(R, p, m, a + half) == Sieve(R, p, 2 * half, 2 * half, a + half)
  {
  }

  ghost predicate IsOutput<C(!new)>(R: Ring, E: Evaluator<C>, p: Poly, m: nat, k: nat, c: C)
    requires IsPoly(R, p) && m >= 2
  {
    E.dec(c) == ExpandedPart(R, p, m, k)
  }

  lemma DoubledIsOutput<C(!new)>(R: Ring, E: Evaluator<C>, p: Poly, m: nat, half: nat, a: nat, c: C)
    requires Faithful(R, E) && IsPoly(R, p) && m >= 2 && half == Pow2(CeilLog2(m) - 1) && m - half <= a < half
    requires E.dec(c) == Sieve(R, p, half, half, a)
    ensures IsOutput(R, E, p, m, a, E.double(c))
  {
    SieveDouble(R, p, half, half, a);
    OutputsOfSlot(R, p, m, half, a);
  }

  lemma HalvesAreOutputs<C(!new)>(
    R: Ring, E: Evaluator<C>, p: Poly, m: nat, half: nat, whole: nat, a: nat, low: C, high: C)
    requires Faithful(R, E) && IsPoly(R, p) && m >= 2 && half == Pow2(CeilLog2(m) - 1) && whole == 2 * half
    requires a < half && a < m - half
    requires E.dec(low) == Sieve(R, p, whole, whole, a) && E.dec(high) == Sieve(R, p, whole, whole, a + half)
    ensures IsOutput(R, E, p, m, a, low) && IsOutput(R, E, p, m, a + half, high)
  {
    OutputsOfSlot(R, p, m, half, a);
  }

  lemma LastLevelIsHalf(m: nat)
    requires m >= 2
    ensures Pow2(CeilLog2(m) - 1) < m <= 2 * Pow2(CeilLog2(m) - 1)
  {
  }

  /** A slot whose two halves are both outputs. */
  method SplitLastSlot<C(!new)>(
    R: Ring, logn: nat, E: Evaluator<C>, c: C, element: nat, last: nat, m: nat, ghost p: Poly, ghost a: nat)
    returns (low: C, high: C)
    requires R.n == Pow2(logn) && last < logn <= 30 && Faithful(R, E) && IsPoly(R, p)
    requires element == GaloisElement(R.n, last) && m >= 2 && last == CeilLog2(m) - 1
    requires a < m - Pow2(last) && E.dec(c) == Sieve(R, p, Pow2(last), Pow2(last), a)
    ensures IsOutput(R, E, p, m, a, low) && IsOutput(R, E, p, m, a + Pow2(last), high)
  {
    LastLevelIsHalf(m);
    assert Pow2(last + 1) == 2 * Pow2(last);
    low, high := SplitSlot(R, logn, E, c, element, last, p, a);
    HalvesAreOutputs(R, E, p, m, Pow2(last), Pow2(last + 1), a, low, high);
  }

  /** The last level splits only the slots whose upper half is still wanted. */
  method LastLevel<C(!new)>(
    R: Ring, logn: nat, E: Evaluator<C>, temp: seq<C>, element: nat, last: nat, m: nat, ghost p: Poly)
    returns (newtemp: seq<C>)
    requires R.n == Pow2(logn) && last < logn <= 30 && Faithful(R, E) && IsPoly(R, p)
    requires element == GaloisElement(R.n, last)
    requires m >= 2 && last == CeilLog2(m) - 1
    requires LevelHolds(R, E, p, last, temp)
    ensures |newtemp| >= m
    ensures forall k | 0 <= k < m :: IsOutput(R, E, p, m, k, newtemp[k])
  {
    LastLevelIsHalf(m);
    newtemp := seq(2 * |temp|, _ => E.blank);
    for a := 0 to |temp|
      invariant |newtemp| == 2 * |temp|
      invariant forall b | 0 <= b < a :: IsOutput(R, E, p, m, b, newtemp[b])
      invariant forall b | |temp| <= b < |temp| + a && b < m :: IsOutput(R, E, p, m, b, newtemp[b])
    {
      assert SlotHolds(R, E, p, last, a, temp[a]);
      if a >= m - Pow2(last) {
        DoubledIsOutput(R, E, p, m, Pow2(last), a, temp[a]);
        newtemp := newtemp[a := E.double(temp[a])];
      } else {
        var low, high := SplitLastSlot(R, logn, E, temp[a], element, last, m, p, a);
        newtemp := newtemp[a := low][a + |temp| := high];
      }
    }
  }

  method GaloisElements(n: nat) returns (elements: seq<nat>)
    ensures |elements| == CeilLog2(n)
    ensures forall i | 0 <= i < |elements| :: elements[i] == GaloisElement(n, i)
  {
    elements := [];
    for i := 0 to CeilLog2(n)
      invariant |elements| == i
      invariant forall l | 0 <= l < i :: elements[l] == GaloisElement(n, l)
    {
      elements := elements + [(n + Pow2(i)) / Pow2(i)];
    }
  }

  /** __expand_query. */
  method ExpandPart<C(!new)>(R: Ring, logn: nat, E: Evaluator<C>, encrypted: C, m: nat)
    returns (res: Result<seq<C>, Error>)
    requires R.n == Pow2(logn) && logn <= 30 && Faithful(R, E)
    ensures res == Failure(TooManyCoefficients) <==> m > R.n && m >= 2
    ensures res == Failure(Undefined) <==> m < 2
    ensures res.Success? <==> 2 <= m <= R.n
    ensures res.Success? ==> IsExpansion(R, E, encrypted, m, res.value)
  {
    ghost var p := E.dec(encrypted);
    if m == 0 {
      return Failure(Undefined);
    }
    var logm := CeilLog2(m);
    CeilLog2OfPow2(logn);
    CeilLog2AtMost(m, logn);
    if logm > CeilLog2(R.n) {
      return Failure(TooManyCoefficients);
    }
    var galoisElements := GaloisElements(R.n);
    if logm == 0 {
      return Failure(Undefined);
    }
    var temp := [encrypted];
    FirstLevel(R, p);
    for i := 0 to logm - 1
      invariant LevelHolds(R, E, p, i, temp)
    {
      temp := SplitLevel(R, logn, E, temp, galoisElements[i], i, p);
    }
    var newtemp := LastLevel(R, logn, E, temp, galoisElements[logm - 1], logm - 1, m, p);
    res := Success(newtemp[..m]);
  }

  ghost predicate IsExpansion<C(!new)>(R: Ring, E: Evaluator<C>, encrypted: C, m: nat, out: seq<C>)
    requires Faithful(R, E) && m >= 2
  {
    && |out| == m
    && forall k | 0 <= k < m :: IsOutput(R, E, E.dec(encrypted), m, k, out[k])
  }

  lemma FirstLevel(R: Ring, p: Poly)
    requires IsPoly(R, p)
    ensures Sieve(R, p, 1, 1, 0) == p
  {
    forall t | 0 <= t < R.n ensures Sieve(R, p, 1, 1, 0)[t] == p[t] {
      DivModUnique(p[t], R.q, 0, p[t]);
    }
  }

  // ----- expand_query: several ciphertexts, each expanded on its own

  /** How many outputs ciphertext j of the query is expanded into. */
  function PartSize(n: nat, count: nat, ni: nat, j: nat): nat
    requires n > 0
  {
    if j + 1 == count then ni % n else n
  }

  /** Block i of the output is the expansion of ciphertext i. */
  ghost predicate BlockHolds<C(!new)>(R: Ring, E: Evaluator<C>, query: seq<C>, ni: nat, i: nat, out: seq<C>)
    requires Faithful(R, E) && i < |query| && ni % R.n >= 2
  {
    var start, size := Start(R.n, i), PartSize(R.n, |query|, ni, i);
    start + size <= |out| && IsExpansion(R, E, query[i], size, out[start..start + size])
  }

  ghost predicate Blocks<C(!new)>(R: Ring, E: Evaluator<C>, query: seq<C>, ni: nat, j: nat, out: seq<C>)
    requires Faithful(R, E) && j <= |query| && (|query| > 0 ==> ni % R.n >= 2)
  {
    forall i | 0 <= i < j :: BlockHolds(R, E, query, ni, i, out)
  }

  ghost predicate IsQueryExpansion<C(!new)>(R: Ring, E: Evaluator<C>, query: seq<C>, ni: nat, out: seq<C>)
    requires Faithful(R, E) && (|query| > 0 ==> ni % R.n >= 2)
  {
    |out| == ni && Blocks(R, E, query, ni, |query|, out)
  }

  function Start(n: nat, j: nat): nat {
    j * n
  }

  lemma SizesAgree(n: nat, count: nat, ni: nat)
    requires n > 0 && count > 0
    ensures (count - 1) * n + ni % n == ni <==> count == ni / n + 1
  {
    var diff := count - 1 - ni / n;
    assert diff * n == (count - 1) * n - (ni / n) * n;
    NonzeroMultiple(diff, n);
  }

  lemma AppendBlock<C(!new)>(R: Ring, E: Evaluator<C>, query: seq<C>, ni: nat, j: nat, out: seq<C>, part: seq<C>)
    requires Faithful(R, E) && j < |query| && ni % R.n >= 2
    requires |out| == Start(R.n, j) && Blocks(R, E, query, ni, j, out)
    requires IsExpansion(R, E, query[j], PartSize(R.n, |query|, ni, j), part)
    ensures Blocks(R, E, query, ni, j + 1, out + part)
  {
    var all := out + part;
    forall i | 0 <= i < j + 1 ensures BlockHolds(R, E, query, ni, i, all) {
      var start, size := Start(R.n, i), PartSize(R.n, |query|, ni, i);
      if i < j {
        assert BlockHolds(R, E, query, ni, i, out);
        assert all[start..start + size] == out[start..start + size];
      } else {
        assert all[start..start + size] == part;
      }
    }
  }

  /**
   What comes of expanding a query. It is undefined exactly when some ciphertext is to be expanded into
   fewer than two outputs; else it succeeds exactly when there is one ciphertext for every started block
   of n outputs.
   */
  ghost predicate IsOutcome<C(!new)>(
    R: Ring, E: Evaluator<C>, query: seq<C>, ni: nat, res: Result<seq<C>, Error>)
    requires Faithful(R, E)
  {
    && (res == Failure(Undefined) <==> query != [] && ni % R.n < 2)
    && (res == Failure(SizeMismatch) <==>
          (query == [] ==> ni > 0) && (query != [] ==> ni % R.n >= 2 && |query| != ni / R.n + 1))
    && res != Failure(TooManyCoefficients)
    && (res.Success? && query != [] ==> ni % R.n >= 2)
    && (res.Success? ==> IsQueryExpansion(R, E, query, ni, res.value))
  }

  /** For a query of one ciphertext, in terms of the number of outputs. */
  lemma SingleOutcome<C(!new)>(R: Ring, E: Evaluator<C>, c: C, ni: nat, res: Result<seq<C>, Error>)
    requires Faithful(R, E) && IsOutcome(R, E, [c], ni, res)
    ensures res.Success? <==> 2 <= ni < R.n
    ensures res == Failure(Undefined) <==> ni % R.n < 2
    ensures res.Success? ==> |res.value| == ni
  {
    SizesAgree(R.n, 1, ni);
    if ni < R.n { DivModUnique(ni, R.n, 0, ni); }
    if res.Failure? {
      assert res.error.TooManyCoefficients? || res.error.SizeMismatch? || res.error.Undefined?;
      assert res == Failure(res.error);
    }
  }

  /** expand_query. */
  method ExpandQuery<C(!new)>(R: Ring, logn: nat, E: Evaluator<C>, query: seq<C>, ni: nat)
    returns (res: Result<seq<C>, Error>)
    requires R.n == Pow2(logn) && logn <= 30 && Faithful(R, E)
    ensures IsOutcome(R, E, query, ni, res)
  {
    var expanded: seq<C> := [];
    for j := 0 to |query|
      invariant j > 0 ==> R.n >= 2
      invariant j == |query| > 0 ==> ni % R.n >= 2
      invariant |expanded| == if 0 < j == |query| then Start(R.n, j - 1) + ni % R.n else Start(R.n, j)
      invariant ni % R.n >= 2 ==> Blocks(R, E, query, ni, j, expanded)
    {
      var total := R.n;
      if j == |query| - 1 {
        total := ni % R.n;
      }
      var part := ExpandPart(R, logn, E, query[j], total);
      if part.Failure? {
        assert part.error == Undefined && ni % R.n < 2;
        return Failure(Undefined);
      }
      if ni % R.n >= 2 { AppendBlock(R, E, query, ni, j, expanded, part.value); }
      expanded := expanded + part.value;
    }
    if |query| > 0 { SizesAgree(R.n, |query|, ni); }
    if |expanded| != ni {
      return Failure(SizeMismatch);
    }
    res := Success(expanded);
  }

  // ----- what the expansion is for

  /** Every output is the constant 2^L * p_k. */
  ghost predicate SeparatesCoefficients(R: Ring, p: Poly, m: nat)
    requires IsPoly(R, p) && 2 <= m <= R.n
  {
    forall k | 0 <= k < m ::
      ExpandedPart(R, p, m, k) == Constant(R, (Pow2(CeilLog2(m)) * p[k]) % R.q)
  }

  /** An output can only pick up, above its own coefficient, coefficients from m upwards. */
  lemma OutputReaches(m: nat, k: nat, t: nat)
    requires m >= 2 && k < m && t > 0 && t % OutputStride(m, k) == 0
    ensures k + t >= m
  {
    var s := OutputStride(m, k);
    assert t >= s by { if t < s { DivModUnique(t, s, 0, t); } }
    assert m <= Pow2(CeilLog2(m)) == 2 * Pow2(CeilLog2(m) - 1);
  }

  lemma ResidueDistance(j: nat, half: nat)
    requires half > 0
    ensures var r := j % (2 * half);
            (j - r) % (2 * half) == 0 && (j - r) % half == 0 && (j - r + half) % half == 0
  {
    var v := j / (2 * half);
    assert j - j % (2 * half) == v * (2 * half) == (2 * v) * half;
    assert (2 * v) * half + half == (2 * v + 1) * half;
    ModMultiple(v, 2 * half);
    ModMultiple(2 * v, half);
    ModMultiple(2 * v + 1, half);
  }

  /** Every coefficient from m upwards does reach some output, above its constant term. */
  lemma ReachedBy(m: nat, j: nat) returns (k: nat)
    requires 2 <= m <= j
    ensures k < m && k < j && (j - k) % OutputStride(m, k) == 0
  {
    var half := Pow2(CeilLog2(m) - 1);
    assert half < m <= 2 * half;
    var r := j % (2 * half);
    ResidueDistance(j, half);
    if r < m { k := r; } else { k := r - half; }
  }

  /**
   The expansion separates the coefficients exactly when nothing of p, scaled, is left at or
   above x^m. No other input is handled.
   */
  lemma ExpansionIsExact(R: Ring, p: Poly, m: nat)
    requires IsPoly(R, p) && 2 <= m <= R.n
    ensures SeparatesCoefficients(R, p, m)
            <==> forall j | m <= j < R.n :: (Pow2(CeilLog2(m)) * p[j]) % R.q == 0
  {
    var c := Pow2(CeilLog2(m));
    if SeparatesCoefficients(R, p, m) {
      forall j | m <= j < R.n ensures (c * p[j]) % R.q == 0 {
        var k := ReachedBy(m, j);
        var out := ExpandedPart(R, p, m, k);
        assert out == Constant(R, (c * p[k]) % R.q);
        assert out[j - k] == (c * p[k + (j - k)]) % R.q;
      }
    }
    if forall j | m <= j < R.n :: (c * p[j]) % R.q == 0 {
      forall k | 0 <= k < m ensures ExpandedPart(R, p, m, k) == Constant(R, (c * p[k]) % R.q) {
        SeparateOne(R, p, m, k);
      }
    }
  }

  lemma SeparateOne(R: Ring, p: Poly, m: nat, k: nat)
    requires IsPoly(R, p) && 2 <= m <= R.n && k < m
    requires forall j | m <= j < R.n :: (Pow2(CeilLog2(m)) * p[j]) % R.q == 0
    ensures ExpandedPart(R, p, m, k) == Constant(R, (Pow2(CeilLog2(m)) * p[k]) % R.q)
  {
    var out, goal := ExpandedPart(R, p, m, k), Constant(R, (Pow2(CeilLog2(m)) * p[k]) % R.q);
    forall t | 0 <= t < R.n ensures out[t] == goal[t] {
      if t > 0 && t % OutputStride(m, k) == 0 { OutputReaches(m, k, t); }
    }
  }

  /** A client's query for item c: x^c, divided beforehand by the factor the expansion brings in. */
  lemma OneHotQuery(R: Ring, m: nat, c: nat, inverse: nat)
    requires 2 <= m <= R.n && c < m && inverse < R.q
    requires (Pow2(CeilLog2(m)) * inverse) % R.q == 1 % R.q
    ensures forall k | 0 <= k < m ::
      ExpandedPart(R, Monomial(R, inverse, c), m, k) == Constant(R, if k == c then 1 % R.q else 0)
  {
    var p, scale := Monomial(R, inverse, c), Pow2(CeilLog2(m));
    forall k | 0 <= k < R.n ensures (scale * p[k]) % R.q == if k == c then 1 % R.q else 0 {
      if k != c { assert scale * p[k] == 0; }
    }
    ExpansionIsExact(R, p, m);
  }

  lemma ZeroExpands(R: Ring, m: nat, k: nat)
    requires 2 <= m <= R.n && k < m
    ensures ExpandedPart(R, Constant(R, 0), m, k) == Constant(R, 0)
  {
    var zero, scale := Constant(R, 0), Pow2(CeilLog2(m));
    forall j | 0 <= j < R.n ensures (scale * zero[j]) % R.q == 0 {
      assert scale * zero[j] == 0;
      DivModUnique(0, R.q, 0, 0);
    }
    SeparateOne(R, zero, m, k);
  }

  /** Which block of the output, and which place in it, an output is. */
  lemma OutputPlace(n: nat, count: nat, ni: nat, k: nat)
    requires n > 0 && count == ni / n + 1 && k < ni
    ensures k / n < count && k % n < PartSize(n, count, ni, k / n) && k == Start(n, k / n) + k % n
  {
    var i, o := k / n, k % n;
    assert k == i * n + o && ni == (ni / n) * n + ni % n;
    if i > ni / n { MultiplesApart(ni / n, i, n); }
    if i + 1 == count { assert i == ni / n; }
  }

  /** Each ciphertext of a query holds one block of the selection: x^o, scaled for its block, or zero. */
  ghost predicate SelectsItem<C(!new)>(R: Ring, E: Evaluator<C>, query: seq<C>, ni: nat, item: nat, inverse: nat) {
    && item < ni && inverse < R.q && |query| == ni / R.n + 1
    && (Pow2(CeilLog2(PartSize(R.n, |query|, ni, item / R.n))) * inverse) % R.q == 1 % R.q
    && forall i | 0 <= i < |query| :: E.dec(query[i]) == BlockPlaintext(R, item, inverse, i)
  }

  function BlockPlaintext(R: Ring, item: nat, inverse: nat, i: nat): (p: Poly)
    requires inverse < R.q
    ensures IsPoly(R, p)
  {
    if i == item / R.n then Monomial(R, inverse, item % R.n) else Constant(R, 0)
  }

  /** A query for an item, of however many ciphertexts, expands to one at the item and zero elsewhere. */
  lemma OneHotBlocks<C(!new)>(
    R: Ring, E: Evaluator<C>, query: seq<C>, ni: nat, item: nat, inverse: nat, out: seq<C>, k: nat)
    requires Faithful(R, E) && ni % R.n >= 2 && SelectsItem(R, E, query, ni, item, inverse)
    requires IsQueryExpansion(R, E, query, ni, out) && k < ni
    ensures E.dec(out[k]) == Constant(R, if k == item then 1 % R.q else 0)
  {
    OutputPlace(R.n, |query|, ni, item);
    var i, o, size := OutputOfBlock(R, E, query, ni, out, k);
    if i == item / R.n {
      OneHotQuery(R, size, item % R.n, inverse);
    } else {
      ZeroExpands(R, size, o);
    }
  }

  /** Which ciphertext output k comes from, which of its outputs it is, and of how many. */
  lemma OutputOfBlock<C(!new)>(R: Ring, E: Evaluator<C>, query: seq<C>, ni: nat, out: seq<C>, k: nat)
    returns (i: nat, o: nat, size: nat)
    requires Faithful(R, E) && ni % R.n >= 2 && |query| == ni / R.n + 1
    requires IsQueryExpansion(R, E, query, ni, out) && k < ni
    ensures i == k / R.n < |query| && o == k % R.n && k == Start(R.n, i) + o
    ensures size == PartSize(R.n, |query|, ni, i) && 2 <= size <= R.n && o < size
    ensures IsOutput(R, E, E.dec(query[i]), size, o, out[k])
  {
    i, o := k / R.n, k % R.n;
    OutputPlace(R.n, |query|, ni, k);
    size := PartSize(R.n, |query|, ni, i);
    var start := Start(R.n, i);
    assert BlockHolds(R, E, query, ni, i, out);
    assert out[start..start + size][o] == out[k];
  }
}
