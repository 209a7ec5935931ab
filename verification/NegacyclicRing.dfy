/**
 The ring Z_q[x]/(x^n + 1). An element is the sequence of its n coefficients, lowest degree
 first, each below q. Substituting a power of x and multiplying by a power of x are one
 operation here: x^t becomes x^(g*t + e), and x^n is read as -1.
 */
module NegacyclicRing {
  import opened Arith

  datatype RingShape = Ring(n: nat, q: nat)

  type Ring = R: RingShape | R.n > 0 && R.q > 0 witness RingShape.Ring(1, 1)

  type Poly = seq<nat>

  predicate IsPoly(R: Ring, p: Poly) {
    |p| == R.n && forall t | 0 <= t < R.n :: p[t] < R.q
  }

  function Neg(R: Ring, c: nat): (r: nat)
    requires c < R.q
    ensures r < R.q && AddMod(R, c, r) == 0
  {
    if c == 0 then 0 else R.q - c
  }

  /** The sum of two residues, reduced once. */
  function AddMod(R: Ring, a: nat, b: nat): (r: nat)
    requires a < R.q && b < R.q
    ensures r < R.q && r == (a + b) % R.q
  {
    DivModUnique(a + b, R.q, if a + b < R.q then 0 else 1, if a + b < R.q then a + b else a + b - R.q);
    if a + b < R.q then a + b else a + b - R.q
  }

  function Add(R: Ring, a: Poly, b: Poly): (r: Poly)
    requires IsPoly(R, a) && IsPoly(R, b)
    ensures IsPoly(R, r)
  {
    seq(R.n, s requires 0 <= s < R.n => AddMod(R, a[s], b[s]))
  }

  /** The coefficient of x^s in c * x^e. */
  function TermAt(R: Ring, c: nat, e: nat, s: nat): (r: nat)
    requires c < R.q
    ensures r < R.q
  {
    if e % R.n != s then 0 else if (e / R.n) % 2 == 0 then c else Neg(R, c)
  }

  function Exponent(g: nat, e: nat, t: nat): nat {
    g * t + e
  }

  /** The coefficient of x^s in the sum over t < k of p[t] * x^(g*t + e). */
  function SubstAt(R: Ring, p: Poly, g: nat, e: nat, s: nat, k: nat): (r: nat)
    requires IsPoly(R, p) && k <= R.n
    ensures r < R.q
  {
    if k == 0 then 0
    else AddMod(R, SubstAt(R, p, g, e, s, k - 1), TermAt(R, p[k - 1], Exponent(g, e, k - 1), s))
  }

  /** The image of p when each x^t becomes x^(g*t + e). */
  function Subst(R: Ring, p: Poly, g: nat, e: nat): (r: Poly)
    requires IsPoly(R, p)
    ensures IsPoly(R, r)
  {
    seq(R.n, s requires 0 <= s < R.n => SubstAt(R, p, g, e, s, R.n))
  }

  /** x^t becomes x^(g*t): what a Galois rotation does. */
  function Rotate(R: Ring, p: Poly, g: nat): (r: Poly)
    requires IsPoly(R, p)
    ensures IsPoly(R, r)
  {
    Subst(R, p, g, 0)
  }

  /** Multiplication by x^e. */
  function Shift(R: Ring, p: Poly, e: nat): (r: Poly)
    requires IsPoly(R, p)
    ensures IsPoly(R, r)
  {
    Subst(R, p, 1, e)
  }

  /** If only the term at r can land on x^s, the coefficient there is that term's. */
  lemma {:induction false} SubstSingle(R: Ring, p: Poly, g: nat, e: nat, s: nat, r: nat, k: nat)
    requires IsPoly(R, p) && k <= R.n && r < R.n && s < R.n
    requires forall t | 0 <= t < k && t != r :: p[t] == 0 || TermAt(R, p[t], Exponent(g, e, t), s) == 0
    ensures SubstAt(R, p, g, e, s, k) == if r < k then TermAt(R, p[r], Exponent(g, e, r), s) else 0
  {
    if k > 0 {
      SubstSingle(R, p, g, e, s, r, k - 1);
      if k - 1 != r {
        assert TermAt(R, p[k - 1], Exponent(g, e, k - 1), s) == 0;
      }
    }
  }

  /** Multiplying by x^(2n - b) divides by x^b: x^b wraps to the top with a minus sign. */
  lemma ShiftDown(R: Ring, p: Poly, b: nat, s: nat)
    requires IsPoly(R, p) && 0 < b <= R.n && s < R.n
    ensures Shift(R, p, 2 * R.n - b)[s] ==
            if s + b < R.n then p[s + b] else Neg(R, p[s + b - R.n])
  {
    var n, e := R.n, 2 * R.n - b;
    var r := if s + b < n then s + b else s + b - n;
    forall t | 0 <= t < n
      ensures Exponent(1, e, t) % n == s <==> t == r
      ensures t == r ==> Exponent(1, e, t) / n == if s + b < n then 2 else 1
    {
      if t >= b { DivModUnique(t + e, n, 2, t - b); } else { DivModUnique(t + e, n, 1, t - b + n); }
    }
    SubstSingle(R, p, 1, e, s, r, n);
  }

  /** Multiplying by x^(n - b) divides by -x^b. */
  lemma ShiftDownNegated(R: Ring, p: Poly, b: nat, s: nat)
    requires IsPoly(R, p) && 0 < b <= R.n && s < R.n
    ensures Shift(R, p, R.n - b)[s] ==
            if s + b < R.n then Neg(R, p[s + b]) else p[s + b - R.n]
  {
    var n, e := R.n, R.n - b;
    var r := if s + b < n then s + b else s + b - n;
    forall t | 0 <= t < n
      ensures Exponent(1, e, t) % n == s <==> t == r
      ensures t == r ==> Exponent(1, e, t) / n == if s + b < n then 1 else 0
    {
      if t >= b { DivModUnique(t + e, n, 1, t - b); } else { DivModUnique(t + e, n, 0, t - b + n); }
    }
    SubstSingle(R, p, 1, e, s, r, n);
  }

  /**
   A polynomial in x^b, with n = b*h and h even, under x -> x^(h + 1): the coefficient of
   x^(b*v) changes sign exactly when v is odd.
   */
  lemma RotateSparse(R: Ring, p: Poly, b: nat, h: nat, s: nat)
    requires IsPoly(R, p) && s < R.n && b > 0 && h % 2 == 0 && R.n == b * h
    requires forall t | 0 <= t < R.n && t % b != 0 :: p[t] == 0
    ensures Rotate(R, p, h + 1)[s] ==
            if s % b != 0 then 0 else if (s / b) % 2 == 0 then p[s] else Neg(R, p[s])
  {
    forall t | 0 <= t < R.n && t % b == 0
      ensures Exponent(h + 1, 0, t) % R.n == t && Exponent(h + 1, 0, t) / R.n == t / b
    {
      var v := t / b;
      assert t == b * v;
      assert (h + 1) * t == h * (b * v) + t;
      assert h * (b * v) == v * (b * h);
      DivModUnique((h + 1) * t, R.n, v, t);
    }
    SubstSingle(R, p, h + 1, 0, s, s, R.n);
    if s % b != 0 { assert p[s] == 0; }
  }

  function Constant(R: Ring, c: nat): (r: Poly)
    requires c < R.q
    ensures IsPoly(R, r)
  {
    seq(R.n, t => if t == 0 then c else 0)
  }

  /** c * x^e for e below n. */
  function Monomial(R: Ring, c: nat, e: nat): (r: Poly)
    requires c < R.q && e < R.n
    ensures IsPoly(R, r)
  {
    seq(R.n, t => if t == e then c else 0)
  }

  // ----- products

  function MulAdd(q: nat, acc: int, x: int, y: int): (r: nat)
    requires q > 0
    ensures r < q
  {
    (acc + x * y) % q
  }

  /** The coefficient of x^s in (a[0] + a[1]*x + ... + a[k-1]*x^(k-1)) * b. */
  function ProductAt(R: Ring, a: seq<int>, b: Poly, s: nat, k: nat): (r: nat)
    requires IsPoly(R, b) && s < R.n && k <= |a|
    ensures r < R.q
  {
    if k == 0 then 0
    else MulAdd(R.q, ProductAt(R, a, b, s, k - 1), a[k - 1], Shift(R, b, k - 1)[s])
  }

  /** A polynomial with integer coefficients times a ring element. */
  function Product(R: Ring, a: seq<int>, b: Poly): (r: Poly)
    requires IsPoly(R, b)
    ensures IsPoly(R, r)
  {
    seq(R.n, s requires 0 <= s < R.n => ProductAt(R, a, b, s, |a|))
  }

  /** x^e is x^(e % n), negated once for every n that e passes. */
  function Sign(n: nat, e: nat): int
    requires n > 0
  {
    if (e / n) % 2 == 0 then 1 else -1
  }

  /** The one power below n that x^e takes to x^s, signs apart. */
  function Origin(n: nat, e: nat, s: nat): (t: nat)
    requires s < n
    ensures t < n
  {
    (s - e) % n
  }

  lemma OriginIs(n: nat, e: nat, s: nat, u: nat)
    requires s < n && u < n
    ensures (e + u) % n == s <==> u == Origin(n, e, s)
  {
    var t, k := Origin(n, e, s), (s - e) / n;
    if u == t {
      assert e + t == -k * n + s;
      DivModUnique(e + t, n, -k, s);
    } else if (e + u) % n == s {
      var m := (e + u) / n;
      assert s - e == -m * n + u;
      DivModUnique(s - e, n, -m, u);
    }
  }

  /**
   The product's coefficient at x^s over the integers, written out: a[k] * x^k meets the one b[t] * x^t
   with which it makes x^s, and keeps its sign or changes it as x^n = -1 demands.
   */
  function Convolution(n: nat, a: seq<int>, b: seq<nat>, s: nat, k: nat): int
    requires s < n == |b| && k <= |a|
  {
    if k == 0 then 0
    else
      var t := Origin(n, k - 1, s);
      Convolution(n, a, b, s, k - 1) + Sign(n, k - 1 + t) * (a[k - 1] * b[t])
  }

  lemma ShiftIsSigned(R: Ring, p: Poly, e: nat, s: nat)
    requires IsPoly(R, p) && s < R.n
    ensures var t := Origin(R.n, e, s);
      Shift(R, p, e)[s] == if Sign(R.n, e + t) == 1 then p[t] else Neg(R, p[t])
  {
    forall t | 0 <= t < R.n && t != Origin(R.n, e, s) ensures TermAt(R, p[t], Exponent(1, e, t), s) == 0 {
      OriginIs(R.n, e, s, t);
    }
    OriginIs(R.n, e, s, Origin(R.n, e, s));
    SubstSingle(R, p, 1, e, s, Origin(R.n, e, s), R.n);
  }

  lemma AddSignedTerm(R: Ring, sum: int, x: int, c: nat, plus: bool)
    requires c < R.q
    ensures MulAdd(R.q, sum % R.q, x, if plus then c else Neg(R, c)) == (sum + if plus then x * c else -(x * c)) % R.q
  {
    var y := if plus then c else Neg(R, c);
    ModAdd(x * y, sum, R.q);
    if !plus && c > 0 {
      assert x * (R.q - c) == -(x * c) + x * R.q;
      ModAddMultiple(sum - x * c, x, R.q);
    }
  }

  lemma {:induction false} ProductIsConvolutionAt(R: Ring, a: seq<int>, b: Poly, s: nat, k: nat)
    requires IsPoly(R, b) && s < R.n && k <= |a|
    ensures ProductAt(R, a, b, s, k) == Convolution(R.n, a, b, s, k) % R.q
  {
    if k == 0 {
      DivModUnique(0, R.q, 0, 0);
    } else {
      var t := Origin(R.n, k - 1, s);
      ProductIsConvolutionAt(R, a, b, s, k - 1);
      ShiftIsSigned(R, b, k - 1, s);
      AddSignedTerm(R, Convolution(R.n, a, b, s, k - 1), a[k - 1], b[t], Sign(R.n, k - 1 + t) == 1);
    }
  }

  /** The product is the negacyclic convolution, reduced modulo q. */
  lemma ProductIsConvolution(R: Ring, a: seq<int>, b: Poly)
    requires IsPoly(R, b)
    ensures forall s | 0 <= s < R.n :: Product(R, a, b)[s] == Convolution(R.n, a, b, s, |a|) % R.q
  {
    forall s | 0 <= s < R.n ensures Product(R, a, b)[s] == Convolution(R.n, a, b, s, |a|) % R.q {
      ProductIsConvolutionAt(R, a, b, s, |a|);
    }
  }

  lemma {:induction false} ProductOfMonomialAt(R: Ring, c: nat, e: nat, b: Poly, s: nat, k: nat)
    requires IsPoly(R, b) && c < R.q && e < R.n && s < R.n && k <= R.n
    ensures ProductAt(R, Monomial(R, c, e), b, s, k) == if e < k then (c * Shift(R, b, e)[s]) % R.q else 0
  {
    if k > 0 {
      ProductOfMonomialAt(R, c, e, b, s, k - 1);
      if k - 1 != e {
        var before := ProductAt(R, Monomial(R, c, e), b, s, k - 1);
        assert 0 * Shift(R, b, k - 1)[s] == 0;
        DivModUnique(before, R.q, 0, before);
      }
    }
  }

  /** Multiplying by the monomial x^e is the shift by e. */
  lemma ProductOfMonomial(R: Ring, e: nat, b: Poly)
    requires IsPoly(R, b) && e < R.n
    ensures Product(R, Monomial(R, 1 % R.q, e), b) == Shift(R, b, e)
  {
    forall s | 0 <= s < R.n ensures Product(R, Monomial(R, 1 % R.q, e), b)[s] == Shift(R, b, e)[s] {
      var y := Shift(R, b, e)[s];
      ProductOfMonomialAt(R, 1 % R.q, e, b, s, R.n);
      DivModUnique(y, R.q, 0, y);
      if R.q > 1 { DivModUnique(1, R.q, 0, 1); } else { assert y == 0; }
    }
  }

  /** x^e * x^t is x^(e + t) as long as that is below n, and -x^(e + t - n) from there on. */
  lemma ProductOfMonomials(R: Ring, e: nat, t: nat)
    requires e < R.n && t < R.n
    ensures Product(R, Monomial(R, 1 % R.q, e), Monomial(R, 1 % R.q, t)) ==
      if e + t < R.n then Monomial(R, 1 % R.q, e + t) else Monomial(R, Neg(R, 1 % R.q), e + t - R.n)
  {
    var one := 1 % R.q;
    var x := Monomial(R, one, t);
    var goal := if e + t < R.n then Monomial(R, one, e + t) else Monomial(R, Neg(R, one), e + t - R.n);
    ProductOfMonomial(R, e, x);
    forall s | 0 <= s < R.n ensures Shift(R, x, e)[s] == goal[s] {
      if e == 0 {
        SubstSingle(R, x, 1, 0, s, t, R.n);
        DivModUnique(t, R.n, 0, t);
      } else {
        ShiftDownNegated(R, x, R.n - e, s);
      }
    }
  }

  lemma {:induction false} ProductAddsAt(R: Ring, a: seq<int>, a1: seq<int>, a2: seq<int>, b: Poly, s: nat, k: nat)
    requires IsPoly(R, b) && s < R.n && k <= |a| == |a1| == |a2|
    requires forall i | 0 <= i < |a| :: (a1[i] + a2[i]) % R.q == a[i] % R.q
    ensures AddMod(R, ProductAt(R, a1, b, s, k), ProductAt(R, a2, b, s, k)) == ProductAt(R, a, b, s, k)
  {
    if k > 0 {
      ProductAddsAt(R, a, a1, a2, b, s, k - 1);
      AddTerms(R, ProductAt(R, a1, b, s, k - 1), ProductAt(R, a2, b, s, k - 1),
               a1[k - 1], a2[k - 1], a[k - 1], Shift(R, b, k - 1)[s]);
    }
  }

  lemma AddTerms(R: Ring, p1: nat, p2: nat, x1: int, x2: int, x: int, y: int)
    requires p1 < R.q && p2 < R.q && (x1 + x2) % R.q == x % R.q
    ensures AddMod(R, MulAdd(R.q, p1, x1, y), MulAdd(R.q, p2, x2, y)) == MulAdd(R.q, AddMod(R, p1, p2), x, y)
  {
    var q := R.q;
    ModAdd(p1 + x1 * y, p2 + x2 * y, q);
    ModMul(y, x1 + x2, q);
    ModMul(y, x, q);
    ModAdd(p1 + p2, y * (x1 + x2), q);
    ModAdd(y * x, p1 + p2, q);
    assert p1 + x1 * y + (p2 + x2 * y) == (p1 + p2) + y * (x1 + x2);
  }

  /** The product is additive in its left factor, whose coefficients count modulo q only. */
  lemma ProductAdds(R: Ring, a: seq<int>, a1: seq<int>, a2: seq<int>, b: Poly)
    requires IsPoly(R, b) && |a| == |a1| == |a2|
    requires forall i | 0 <= i < |a| :: (a1[i] + a2[i]) % R.q == a[i] % R.q
    ensures Add(R, Product(R, a1, b), Product(R, a2, b)) == Product(R, a, b)
  {
    forall s | 0 <= s < R.n
      ensures Add(R, Product(R, a1, b), Product(R, a2, b))[s] == Product(R, a, b)[s]
    {
      ProductAddsAt(R, a, a1, a2, b, s, |a|);
    }
  }

  lemma ShiftedConstant(R: Ring, c: nat, e: nat, s: nat)
    requires c < R.q && e < R.n && s < R.n
    ensures Shift(R, Constant(R, c), e)[s] == if s == e then c else 0
  {
    SubstSingle(R, Constant(R, c), 1, e, s, 0, R.n);
    DivModUnique(Exponent(1, e, 0), R.n, 0, e);
  }

  lemma {:induction false} ProductByBitAt(R: Ring, a: Poly, one: bool, s: nat, k: nat)
    requires s < R.n && k <= |a| <= R.n && forall i | 0 <= i < |a| :: a[i] < R.q
    ensures ProductAt(R, a, Constant(R, if one then 1 % R.q else 0), s, k) == if one && s < k then a[s] else 0
  {
    if k > 0 {
      var c := if one then 1 % R.q else 0;
      ProductByBitAt(R, a, one, s, k - 1);
      ShiftedConstant(R, c, k - 1, s);
      ModMul(a[k - 1], 1, R.q);
      DivModUnique(a[k - 1], R.q, 0, a[k - 1]);
      DivModUnique(0, R.q, 0, 0);
      if s == k - 1 && one {
      } else {
        assert a[k - 1] * 0 == 0;
        var before := ProductAt(R, a, Constant(R, c), s, k - 1);
        DivModUnique(before, R.q, 0, before);
      }
    }
  }

  /** One and zero do in a product what they should. */
  lemma ProductByBit(R: Ring, a: Poly, one: bool)
    requires IsPoly(R, a)
    ensures Product(R, a, Constant(R, if one then 1 % R.q else 0)) == if one then a else Constant(R, 0)
  {
    var b := Constant(R, if one then 1 % R.q else 0);
    var goal := if one then a else Constant(R, 0);
    forall s | 0 <= s < R.n ensures Product(R, a, b)[s] == goal[s] {
      ProductByBitAt(R, a, one, s, R.n);
    }
  }

  lemma AddZero(R: Ring, a: Poly)
    requires IsPoly(R, a)
    ensures Add(R, a, Constant(R, 0)) == a && Add(R, Constant(R, 0), a) == a
  {
  }

  lemma AddSwap(R: Ring, a: Poly, b: Poly, c: Poly)
    requires IsPoly(R, a) && IsPoly(R, b) && IsPoly(R, c)
    ensures Add(R, Add(R, a, b), c) == Add(R, Add(R, a, c), b)
  {
    forall s | 0 <= s < R.n ensures Add(R, Add(R, a, b), c)[s] == Add(R, Add(R, a, c), b)[s] {
      AddModSwap(R, a[s], b[s], c[s]);
    }
  }

  lemma AddModSwap(R: Ring, x: nat, y: nat, z: nat)
    requires x < R.q && y < R.q && z < R.q
    ensures AddMod(R, AddMod(R, x, y), z) == AddMod(R, AddMod(R, x, z), y)
  {
    ModAdd(z, x + y, R.q);
    ModAdd(y, x + z, R.q);
  }

  lemma TermAdds(R: Ring, x: nat, y: nat, e: nat, s: nat)
    requires x < R.q && y < R.q
    ensures TermAt(R, AddMod(R, x, y), e, s) == AddMod(R, TermAt(R, x, e, s), TermAt(R, y, e, s))
  {
    NegAdds(R, x, y);
  }

  lemma NegAdds(R: Ring, x: nat, y: nat)
    requires x < R.q && y < R.q
    ensures Neg(R, AddMod(R, x, y)) == AddMod(R, Neg(R, x), Neg(R, y))
  {
  }

  lemma AddModRegroup(R: Ring, a: nat, b: nat, c: nat, d: nat)
    requires a < R.q && b < R.q && c < R.q && d < R.q
    ensures AddMod(R, AddMod(R, a, b), AddMod(R, c, d)) == AddMod(R, AddMod(R, a, c), AddMod(R, b, d))
  {
    ModAdd(a + b, c + d, R.q);
    ModAdd(a + c, b + d, R.q);
  }

  lemma {:induction false} SubstAdds(R: Ring, b: Poly, c: Poly, g: nat, e: nat, s: nat, k: nat)
    requires IsPoly(R, b) && IsPoly(R, c) && k <= R.n
    ensures SubstAt(R, Add(R, b, c), g, e, s, k) == AddMod(R, SubstAt(R, b, g, e, s, k), SubstAt(R, c, g, e, s, k))
  {
    if k > 0 {
      SubstAdds(R, b, c, g, e, s, k - 1);
      var exp := Exponent(g, e, k - 1);
      TermAdds(R, b[k - 1], c[k - 1], exp, s);
      AddModRegroup(R, SubstAt(R, b, g, e, s, k - 1), SubstAt(R, c, g, e, s, k - 1),
                    TermAt(R, b[k - 1], exp, s), TermAt(R, c[k - 1], exp, s));
    }
  }

  lemma MulAddDistributes(R: Ring, p: nat, r: nat, x: int, y: nat, z: nat)
    requires p < R.q && r < R.q && y < R.q && z < R.q
    ensures MulAdd(R.q, AddMod(R, p, r), x, AddMod(R, y, z)) == AddMod(R, MulAdd(R.q, p, x, y), MulAdd(R.q, r, x, z))
  {
    var q := R.q;
    ModMul(x, y + z, q);
    ModAdd(p + r, x * ((y + z) % q), q);
    ModAdd(x * ((y + z) % q), p + r, q);
    ModAdd(p + r, x * (y + z), q);
    ModAdd(p + x * y, r + x * z, q);
    assert (p + x * y) + (r + x * z) == (p + r) + x * (y + z);
  }

  lemma {:induction false} ProductDistributesAt(R: Ring, a: seq<int>, b: Poly, c: Poly, s: nat, k: nat)
    requires IsPoly(R, b) && IsPoly(R, c) && s < R.n && k <= |a|
    ensures ProductAt(R, a, Add(R, b, c), s, k) == AddMod(R, ProductAt(R, a, b, s, k), ProductAt(R, a, c, s, k))
  {
    if k > 0 {
      ProductDistributesAt(R, a, b, c, s, k - 1);
      SubstAdds(R, b, c, 1, k - 1, s, R.n);
      MulAddDistributes(R, ProductAt(R, a, b, s, k - 1), ProductAt(R, a, c, s, k - 1), a[k - 1],
                        Shift(R, b, k - 1)[s], Shift(R, c, k - 1)[s]);
    }
  }

  /** The product is additive in its right factor, too. */
  lemma ProductDistributes(R: Ring, a: seq<int>, b: Poly, c: Poly)
    requires IsPoly(R, b) && IsPoly(R, c)
    ensures Product(R, a, Add(R, b, c)) == Add(R, Product(R, a, b), Product(R, a, c))
  {
    forall s | 0 <= s < R.n
      ensures Product(R, a, Add(R, b, c))[s] == Add(R, Product(R, a, b), Product(R, a, c))[s]
    {
      ProductDistributesAt(R, a, b, c, s, |a|);
    }
  }

  lemma {:induction false} ProductOfZeroAt(R: Ring, a: seq<int>, s: nat, k: nat)
    requires s < R.n && k <= |a|
    ensures ProductAt(R, a, Constant(R, 0), s, k) == 0
  {
    if k > 0 {
      ProductOfZeroAt(R, a, s, k - 1);
      SubstSingle(R, Constant(R, 0), 1, k - 1, s, 0, R.n);
      assert a[k - 1] * 0 == 0;
      DivModUnique(0, R.q, 0, 0);
    }
  }

  lemma ProductOfZero(R: Ring, a: seq<int>)
    ensures Product(R, a, Constant(R, 0)) == Constant(R, 0)
  {
    forall s | 0 <= s < R.n ensures Product(R, a, Constant(R, 0))[s] == 0 {
      ProductOfZeroAt(R, a, s, |a|);
    }
  }
}
