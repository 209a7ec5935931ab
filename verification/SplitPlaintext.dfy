/**
 SEAL's plaintext product first centres the coefficients: one from (t + 1)/2 upwards is read as
 negative. Splitting a plaintext in two halves keeps every coefficient below that threshold.
 */
module SplitPlaintext {
  import opened Arith
  import opened NegacyclicRing

  function Threshold(t: nat): nat {
    (t + 1) / 2
  }

  function Halves(t: nat, x: nat): (nat, nat) {
    if x >= Threshold(t) then (x / 2 + x % 2, x / 2) else (x, 0)
  }

  /** The halves always add up; they always stay below the threshold exactly when t is odd. */
  lemma HalvesFit(t: nat)
    requires t >= 2
    ensures forall x | 0 <= x < t :: Halves(t, x).0 + Halves(t, x).1 == x
    ensures (forall x | 0 <= x < t :: Halves(t, x).0 < Threshold(t) && Halves(t, x).1 < Threshold(t)) <==> t % 2 == 1
  {
    if t % 2 == 0 {
      assert !(Halves(t, t - 1).0 < Threshold(t));
    }
  }

  /** And for odd t alone does centring the halves keep their sum, whatever the coefficient. */
  lemma CentredHalvesAddUp(t: nat)
    requires t >= 2
    ensures (forall x | 0 <= x < t :: Centred(t, Halves(t, x).0) + Centred(t, Halves(t, x).1) == x) <==> t % 2 == 1
  {
    HalvesFit(t);
    if t % 2 == 0 {
      assert Centred(t, Halves(t, t - 1).0) + Centred(t, Halves(t, t - 1).1) == -1;
    } else {
      forall x | 0 <= x < t ensures Centred(t, Halves(t, x).0) + Centred(t, Halves(t, x).1) == x {
        assert Halves(t, x).0 < Threshold(t) && Halves(t, x).1 < Threshold(t);
      }
    }
  }

  method SplitPlaintext(t: nat, a: Poly) returns (a1: Poly, a2: Poly)
    ensures |a1| == |a2| == |a|
    ensures forall c | 0 <= c < |a| :: (a1[c], a2[c]) == Halves(t, a[c])
    ensures forall c | 0 <= c < |a| :: a1[c] + a2[c] == a[c]
    ensures forall c | 0 <= c < |a| :: if a[c] < Threshold(t) then a2[c] == 0 else a2[c] <= a1[c] <= a2[c] + 1
  {
    a1, a2 := seq(|a|, _ => 0), seq(|a|, _ => 0);
    for c := 0 to |a|
      invariant |a1| == |a2| == |a|
      invariant forall b | 0 <= b < c :: (a1[b], a2[b]) == Halves(t, a[b])
    {
      if a[c] >= (t + 1) / 2 {
        a1 := a1[c := a[c] / 2 + a[c] % 2];
        a2 := a2[c := a[c] / 2];
      } else {
        a1 := a1[c := a[c]];
        a2 := a2[c := 0];
      }
    }
  }

  /** The integer SEAL multiplies by, for a coefficient x. */
  function Centred(t: nat, x: nat): int {
    if x >= Threshold(t) then x - t else x
  }

  /** It is the coefficient modulo t, between -t/2 and the threshold. */
  lemma CentredIsNearest(t: nat, x: nat, y: int)
    requires x < t
    ensures y == Centred(t, x) <==> (y == x || y == x - t) && -(t / 2) <= y < Threshold(t)
  {
  }

  function CentredAll(t: nat, a: Poly): (r: seq<int>)
    ensures |r| == |a|
  {
    seq(|a|, c requires 0 <= c < |a| => Centred(t, a[c]))
  }

  /** multiply_plain. */
  function MultiplyPlain(R: Ring, t: nat, a: Poly, b: Poly): (r: Poly)
    requires IsPoly(R, b)
    ensures IsPoly(R, r)
  {
    Product(R, CentredAll(t, a), b)
  }

  /** mult on a split plaintext: two products, added. */
  method MultSplit(R: Ring, t: nat, a1: Poly, a2: Poly, b: Poly, ghost a: Poly) returns (c: Poly)
    requires IsPoly(R, b) && t % 2 == 1 && t >= 2 && |a1| == |a2| == |a|
    requires forall i | 0 <= i < |a| :: a[i] < t && (a1[i], a2[i]) == Halves(t, a[i])
    ensures c == Product(R, a, b)
    ensures forall s | 0 <= s < R.n :: c[s] == Convolution(R.n, a, b, s, |a|) % R.q
  {
    c := MultiplyPlain(R, t, a1, b);
    var tmp := MultiplyPlain(R, t, a2, b);
    c := Add(R, c, tmp);
    CentredHalvesAddUp(t);
    forall i | 0 <= i < |a| ensures CentredAll(t, a1)[i] + CentredAll(t, a2)[i] == a[i] {
      assert (a1[i], a2[i]) == Halves(t, a[i]);
    }
    ProductAdds(R, a, CentredAll(t, a1), CentredAll(t, a2), b);
    ProductIsConvolution(R, a, b);
  }

  /**
   The whole operation: splitting, two centred products and an addition multiply by the
   coefficients as they stand, for every plaintext and every ring element.
   */
  method Mult(R: Ring, t: nat, a: Poly, b: Poly) returns (c: Poly)
    requires IsPoly(R, b) && t % 2 == 1 && t >= 2 && forall i | 0 <= i < |a| :: a[i] < t
    ensures c == Product(R, a, b)
    ensures forall s | 0 <= s < R.n :: c[s] == Convolution(R.n, a, b, s, |a|) % R.q
  {
    var a1, a2 := SplitPlaintext(t, a);
    c := MultSplit(R, t, a1, a2, b, a);
  }

  /** add_plain_in_place: over the coefficients a has, each sum reduced at most once. */
  method AddPlainInPlace(t: nat, a: array<nat>, b: Poly)
    requires t > 0 && a.Length <= |b| && forall c | 0 <= c < a.Length :: a[c] < t && b[c] < t
    modifies a
    ensures forall c | 0 <= c < a.Length :: a[c] == (old(a[c]) + b[c]) % t
  {
    for c := 0 to a.Length
      invariant forall k | 0 <= k < c :: a[k] == (old(a[k]) + b[k]) % t
      invariant forall k | c <= k < a.Length :: a[k] == old(a[k])
    {
      ReducedOnce(t, a[c], b[c]);
      a[c] := a[c] + b[c];
      if a[c] >= t {
        a[c] := a[c] - t;
      }
    }
  }

  lemma ReducedOnce(t: nat, x: nat, y: nat)
    requires x < t && y < t
    ensures (x + y) % t == if x + y >= t then x + y - t else x + y
  {
    DivModUnique(x + y, t, if x + y >= t then 1 else 0, if x + y >= t then x + y - t else x + y);
  }

  // ----- products of sums

  /** The sum of ring elements, in the order given. */
  function AddAll(R: Ring, bs: seq<Poly>): (r: Poly)
    requires forall i | 0 <= i < |bs| :: IsPoly(R, bs[i])
    ensures IsPoly(R, r)
  {
    if bs == [] then Constant(R, 0) else Add(R, AddAll(R, bs[..|bs| - 1]), bs[|bs| - 1])
  }

  function Products(R: Ring, a: seq<int>, bs: seq<Poly>): (r: seq<Poly>)
    requires forall i | 0 <= i < |bs| :: IsPoly(R, bs[i])
    ensures |r| == |bs| && forall i | 0 <= i < |r| :: r[i] == Product(R, a, bs[i]) && IsPoly(R, r[i])
  {
    seq(|bs|, i requires 0 <= i < |bs| => Product(R, a, bs[i]))
  }

  lemma {:induction false} ProductOfSum(R: Ring, a: seq<int>, bs: seq<Poly>)
    requires forall i | 0 <= i < |bs| :: IsPoly(R, bs[i])
    ensures Product(R, a, AddAll(R, bs)) == AddAll(R, Products(R, a, bs))
  {
    if bs == [] {
      ProductOfZero(R, a);
    } else {
      var n := |bs| - 1;
      ProductOfSum(R, a, bs[..n]);
      ProductDistributes(R, a, AddAll(R, bs[..n]), bs[n]);
      assert Products(R, a, bs)[..n] == Products(R, a, bs[..n]);
    }
  }

  /** Moving one summand to the end does not change the sum. */
  lemma {:induction false} MoveToEnd(R: Ring, bs: seq<Poly>, i: nat)
    requires i < |bs| && forall k | 0 <= k < |bs| :: IsPoly(R, bs[k])
    ensures AddAll(R, bs) == Add(R, AddAll(R, bs[..i] + bs[i + 1..]), bs[i])
  {
    var n := |bs| - 1;
    if i < n {
      MoveToEnd(R, bs[..n], i);
      var rest := bs[..n][..i] + bs[..n][i + 1..];
      assert (bs[..i] + bs[i + 1..])[..n - 1] == rest;
      AddSwap(R, AddAll(R, rest), bs[i], bs[n]);
    } else {
      assert bs[..i] + bs[i + 1..] == bs[..n];
    }
  }

  lemma TakenOut<T>(s: seq<T>, i: nat)
    requires i < |s|
    ensures multiset(s[..i] + s[i + 1..]) == multiset(s) - multiset{s[i]}
  {
    assert s == s[..i] + [s[i]] + s[i + 1..];
    assert multiset(s) == multiset(s[..i] + s[i + 1..]) + multiset{s[i]};
  }

  lemma AllArePolys(R: Ring, bs: seq<Poly>, cs: seq<Poly>)
    requires multiset(bs) == multiset(cs) && forall i | 0 <= i < |bs| :: IsPoly(R, bs[i])
    ensures forall i | 0 <= i < |cs| :: IsPoly(R, cs[i])
  {
    forall i | 0 <= i < |cs| ensures IsPoly(R, cs[i]) {
      assert cs[i] in multiset(bs);
    }
  }

  lemma TakenFromBoth(bs: seq<Poly>, cs: seq<Poly>) returns (i: nat, rest: seq<Poly>)
    requires multiset(bs) == multiset(cs) && bs != []
    ensures i < |cs| && cs[i] == bs[|bs| - 1] && rest == cs[..i] + cs[i + 1..]
    ensures multiset(bs[..|bs| - 1]) == multiset(rest)
  {
    var n := |bs| - 1;
    assert bs[n] in multiset(cs);
    i :| 0 <= i < |cs| && cs[i] == bs[n];
    rest := cs[..i] + cs[i + 1..];
    TakenOut(cs, i);
    TakenOut(bs, n);
    assert bs[..n] + bs[n + 1..] == bs[..n];
  }

  lemma {:induction false} OrderIsIrrelevant(R: Ring, bs: seq<Poly>, cs: seq<Poly>)
    requires multiset(bs) == multiset(cs) && forall i | 0 <= i < |bs| :: IsPoly(R, bs[i])
    ensures forall i | 0 <= i < |cs| :: IsPoly(R, cs[i])
    ensures AddAll(R, bs) == AddAll(R, cs)
    decreases |bs|
  {
    AllArePolys(R, bs, cs);
    if bs == [] {
      assert |multiset(cs)| == 0;
    } else {
      var n := |bs| - 1;
      var i, rest := TakenFromBoth(bs, cs);
      OrderIsIrrelevant(R, bs[..n], rest);
      MoveToEnd(R, cs, i);
    }
  }

  /** Multiplying the summands one by one and adding the products, in any order, multiplies the sum. */
  lemma ProductDistributesInAnyOrder(R: Ring, a: seq<int>, bs: seq<Poly>, cs: seq<Poly>)
    requires multiset(bs) == multiset(cs) && forall i | 0 <= i < |bs| :: IsPoly(R, bs[i])
    ensures forall i | 0 <= i < |cs| :: IsPoly(R, cs[i])
    ensures Product(R, a, AddAll(R, bs)) == AddAll(R, Products(R, a, cs))
  {
    OrderIsIrrelevant(R, bs, cs);
    ProductOfSum(R, a, cs);
  }
}
