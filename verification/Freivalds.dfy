/**
 Freivalds' test: a product is checked by multiplying both sides with a random vector. The 0/1
 form compares whole matrices; the scalar form checks, row by row, what a worker sent back.
 Challenges are quantified over and counted; every statement holds for any lawful algebra.
 */
module Freivalds {
  import opened Arith
  import opened Algebra
  import opened Counting
  import opened Matrices

  // ----- linear scalings

  ghost predicate AdditiveIn<K, C(!new)>(G: Group<C>, f: (K, C) -> C, k: K) {
    Additive(G, G, (c: C) => f(k, c))
  }

  lemma AdditiveInAt<K, C(!new)>(G: Group<C>, f: (K, C) -> C, k: K, x: C, y: C)
    requires AdditiveIn(G, f, k)
    ensures f(k, G.zero) == G.zero && f(k, G.add(x, y)) == G.add(f(k, x), f(k, y))
  {
    AdditiveAt(G, G, (c: C) => f(k, c), x, y);
  }

  ghost predicate Commutes<K, C(!new)>(f: (K, C) -> C, k: K, scale: (nat, C) -> C, s: nat) {
    forall c :: f(k, scale(s, c)) == scale(s, f(k, c))
  }

  lemma KeepIsAdditive<C(!new)>(G: Group<C>, s: nat)
    requires Lawful(G)
    ensures AdditiveIn(G, Keep(G), s)
  {
    Laws(G, G.zero, G.zero, G.zero);
  }

  /** Weighing commutes with additive maps and with the sum over them: a double-sum exchange. */
  lemma ExchangeWeights<K(!new), C(!new)>(
      G: Group<C>, scale: (nat, C) -> C, f: (K, C) -> C, vec: seq<nat>, ks: seq<K>, x: (nat, nat) -> C,
      weighed: seq<C>, mapped: seq<C>)
    requires Lawful(G)
    requires forall k | 0 <= k < |ks| :: AdditiveIn(G, f, ks[k])
    requires forall j | 0 <= j < |vec| :: AdditiveIn(G, scale, vec[j])
    requires forall k, j | 0 <= k < |ks| && 0 <= j < |vec| :: Commutes(f, ks[k], scale, vec[j])
    requires |weighed| == |ks| && |mapped| == |vec|
    requires forall k | 0 <= k < |ks| :: weighed[k] == Dot(G, scale, vec, Row(x, k, |vec|))
    requires forall j | 0 <= j < |vec| :: mapped[j] == Dot(G, f, ks, Row(Flip(x), j, |ks|))
    ensures Dot(G, f, ks, weighed) == Dot(G, scale, vec, mapped)
  {
    var t := Weighed(G, scale, f, vec, ks, x);
    SumExchange(G, t, |ks|, |vec|);
    forall k | 0 <= k < |ks| ensures RowSums(G, t, |ks|, |vec|)[k] == f(ks[k], weighed[k]) {
      SumMapped(G, G, (c: C) => f(ks[k], c), Terms(scale, vec, Row(x, k, |vec|)), Row(t, k, |vec|));
    }
    assert RowSums(G, t, |ks|, |vec|) == Terms(f, ks, weighed);
    forall j | 0 <= j < |vec| ensures RowSums(G, Flip(t), |vec|, |ks|)[j] == scale(vec[j], mapped[j]) {
      WeighedColumn(G, scale, f, vec, ks, x, j);
    }
    assert RowSums(G, Flip(t), |vec|, |ks|) == Terms(scale, vec, mapped);
  }

  function Weighed<K, C>(
    G: Group<C>, scale: (nat, C) -> C, f: (K, C) -> C, vec: seq<nat>, ks: seq<K>, x: (nat, nat) -> C): (nat, nat) -> C {
    (k: nat, j: nat) => if k < |ks| && j < |vec| then f(ks[k], scale(vec[j], x(k, j))) else G.zero
  }

  lemma WeighedColumn<K(!new), C(!new)>(
      G: Group<C>, scale: (nat, C) -> C, f: (K, C) -> C, vec: seq<nat>, ks: seq<K>, x: (nat, nat) -> C, j: nat)
    requires Lawful(G) && j < |vec| && AdditiveIn(G, scale, vec[j])
    requires forall k | 0 <= k < |ks| :: Commutes(f, ks[k], scale, vec[j])
    ensures Sum(G, Row(Flip(Weighed(G, scale, f, vec, ks, x)), j, |ks|)) ==
        scale(vec[j], Dot(G, f, ks, Row(Flip(x), j, |ks|)))
  {
    var inner, outer := Terms(f, ks, Row(Flip(x), j, |ks|)), Row(Flip(Weighed(G, scale, f, vec, ks, x)), j, |ks|);
    forall k | 0 <= k < |ks| ensures outer[k] == scale(vec[j], inner[k]) {
      assert Commutes(f, ks[k], scale, vec[j]);
    }
    SumMapped(G, G, (c: C) => scale(vec[j], c), inner, outer);
  }

  // ----- how many challenges a wrong entry survives

  /** Scaling by different members of S tells apart everything the zero test tells from zero. */
  ghost predicate Separates<C(!new)>(G: Group<C>, scale: (nat, C) -> C, passes: C -> bool, S: set<nat>) {
    forall s, r, d | s in S && r in S && s != r && passes(G.Sub(scale(s, d), scale(r, d))) :: passes(d)
  }

  ghost predicate Scaling<C(!new)>(G: Group<C>, scale: (nat, C) -> C, passes: C -> bool, S: set<nat>) {
    && Lawful(G) && Subgroup(G, passes) && Separates(G, scale, passes, S)
    && forall s | s in S :: AdditiveIn(G, scale, s)
  }

  ghost function Surviving<C>(
    G: Group<C>, scale: (nat, C) -> C, passes: C -> bool, S: set<nat>, d: seq<C>): set<seq<nat>>
  {
    set v | v in Challenges(S, |d|) && |v| == |d| && passes(Dot(G, scale, v, d))
  }

  lemma OneCoordinate<C(!new)>(G: Group<C>, scale: (nat, C) -> C, v: seq<nat>, w: seq<nat>, d: seq<C>, j: nat)
    requires Lawful(G) && |v| == |w| == |d| && j < |d| && AgreeOff(v, w, j)
    ensures G.Sub(Dot(G, scale, v, d), Dot(G, scale, w, d)) == G.Sub(scale(v[j], d[j]), scale(w[j], d[j]))
  {
    var a, b := Terms(scale, v, d), Terms(scale, w, d);
    var diff := seq(|d|, i requires 0 <= i < |d| => G.Sub(a[i], b[i]));
    SumSubs(G, a, b, diff);
    forall i | 0 <= i < |d| && i != j ensures diff[i] == G.zero {
      Laws(G, a[i], a[i], a[i]);
    }
    SumOfOne(G, diff, j);
  }

  /** A non-zero entry lets at most one challenge in |S| through, whatever the other entries. */
  lemma FewSurvive<C(!new)>(G: Group<C>, scale: (nat, C) -> C, passes: C -> bool, S: set<nat>, d: seq<C>, j: nat)
    requires Scaling(G, scale, passes, S) && j < |d| && !passes(d[j])
    ensures |Surviving(G, scale, passes, S, d)| <= Power(|S|, |d| - 1)
  {
    var A := Surviving(G, scale, passes, S, d);
    forall v, w | v in A && w in A && AgreeOff(v, w, j) ensures v == w {
      ChallengesAre(S, |d|, v);
      ChallengesAre(S, |d|, w);
      OneCoordinate(G, scale, v, w, d, j);
      SubgroupAt(G, passes, Dot(G, scale, v, d), Dot(G, scale, w, d));
      assert v[j] == w[j];
    }
    FewVectors(S, |d|, j, A);
  }

  // ----- the 0/1 form

  /** Valid matrices of sizes n x m, m x p and n x p. */
  ghost predicate Shapes<C>(a: MatrixValue<C>, b: MatrixValue<C>, c: MatrixValue<C>) {
    && a.Valid() && b.Valid() && c.Valid()
    && a.cols == b.rows && a.rows == c.rows && b.cols == c.cols
  }

  /** Multiplication on the right by any fixed element is additive. */
  ghost predicate LeftAdditive<C(!new)>(G: Group<C>, mul: (C, C) -> C) {
    forall y :: AdditiveIn(G, Swap(mul), y)
  }

  function Swap<C>(mul: (C, C) -> C): (C, C) -> C {
    (y, x) => mul(x, y)
  }

  /** The selected rows of a, added up: entry t belongs to column t. */
  function SelectedSum<C>(G: Group<C>, v: seq<nat>, a: MatrixValue<C>): (r: seq<C>)
    requires a.Valid() && |v| == a.rows
    ensures |r| == a.cols && forall t | 0 <= t < a.cols :: r[t] == Dot(G, Keep(G), v, a.Column(t))
  {
    seq(a.cols, t requires 0 <= t < a.cols => Dot(G, Keep(G), v, a.Column(t)))
  }

  /** The two vectors the test compares, their entries at column k subtracted. */
  function Discrepancy<C>(
    G: Group<C>, mul: (C, C) -> C, a: MatrixValue<C>, b: MatrixValue<C>, c: MatrixValue<C>, v: seq<nat>, k: nat): C
    requires Shapes(a, b, c)
    requires |v| == a.rows && k < c.cols
  {
    G.Sub(Dot(G, mul, SelectedSum(G, v, a), b.Column(k)), Dot(G, Keep(G), v, c.Column(k)))
  }

  ghost predicate Accepts<C>(
    G: Group<C>, mul: (C, C) -> C, passes: C -> bool, a: MatrixValue<C>, b: MatrixValue<C>, c: MatrixValue<C>,
    v: seq<nat>)
    requires Shapes(a, b, c)
    requires |v| == a.rows
  {
    forall k | 0 <= k < c.cols :: passes(Discrepancy(G, mul, a, b, c, v, k))
  }

  /** left_frievalds: (v*a)*b. */
  method LeftFrievalds<C(!new)>(
    G: Group<C>, mul: (C, C) -> C, randVec: seq<nat>, a: MatrixValue<C>, b: MatrixValue<C>, result: Matrix<C>)
    returns (res: Result<(), Error>)
    requires Lawful(G) && a.Valid() && b.Valid() && a.cols > 0 && |b.data| > 0 && |randVec| == a.rows
    modifies result
    ensures res == Failure(DimensionMismatch) <==> a.cols != b.rows
    ensures res.Success? <==> a.cols == b.rows
    ensures res.Success? ==> result.Valid() && result.rows == 1 && result.cols == b.cols
    ensures res.Success? ==> forall k | 0 <= k < b.cols ::
      result.data[k] == Dot(G, mul, SelectedSum(G, randVec, a), b.Column(k))
  {
    var tmp := new Matrix(0, 0, G.zero);
    LeftMultiply(G, randVec, a, tmp);
    result.Resize(tmp.rows, b.cols, G.zero);
    assert |tmp.data| == a.cols;
    res := MatMult(G, mul, tmp.Value(), b, result);
    if res.Success? {
      assert tmp.Value().RowAt(0) == SelectedSum(G, randVec, a);
      forall k | 0 <= k < b.cols
        ensures result.data[k] == Dot(G, mul, SelectedSum(G, randVec, a), b.Column(k))
      {
        assert result.Value().At(0, k) == Cell(G, mul, tmp.Value(), b, 0, k);
      }
    }
  }

  /** Subtracts in place, stopping at the first entry the zero test rejects. */
  method DifferencePasses<C>(G: Group<C>, passes: C -> bool, left: Matrix<C>, right: seq<C>) returns (ok: bool)
    requires |left.data| == |right|
    modifies left
    ensures ok <==> forall k | 0 <= k < |right| :: passes(G.Sub(old(left.data)[k], right[k]))
  {
    for i := 0 to |right|
      invariant |left.data| == |right|
      invariant forall k | i <= k < |right| :: left.data[k] == old(left.data)[k]
      invariant forall k | 0 <= k < i :: passes(G.Sub(old(left.data)[k], right[k]))
    {
      left.data := left.data[i := G.Sub(left.data[i], right[i])];
      if !passes(left.data[i]) {
        return false;
      }
    }
    return true;
  }

  /** frievalds, its random vector a parameter. Reading the first entries needs them to exist. */
  method Frievalds<C(!new)>(
    G: Group<C>, mul: (C, C) -> C, passes: C -> bool, a: MatrixValue<C>, b: MatrixValue<C>, c: MatrixValue<C>,
    randVec: seq<nat>)
    returns (res: Result<bool, Error>)
    requires Lawful(G) && a.Valid() && b.Valid() && c.Valid()
    requires a.cols > 0 && |b.data| > 0 && |randVec| == a.rows
    ensures a.rows != c.rows || b.cols != c.cols ==> res == Success(false)
    ensures a.rows == c.rows && b.cols == c.cols && a.cols != b.rows ==> res == Failure(DimensionMismatch)
    ensures Shapes(a, b, c) ==> res == Success(Accepts(G, mul, passes, a, b, c, randVec))
  {
    if a.rows != c.rows || b.cols != c.cols {
      return Success(false);
    }
    var leftVec := new Matrix(0, 0, G.zero);
    var product := LeftFrievalds(G, mul, randVec, a, b, leftVec);
    if product.Failure? {
      return Failure(product.error);
    }
    var rightVec := new Matrix(0, 0, G.zero);
    LeftMultiply(G, randVec, c, rightVec);
    SameAsColumns(G, randVec, c, rightVec.Value());
    ghost var left, right := leftVec.data, rightVec.data;
    var ok := DifferencePasses(G, passes, leftVec, rightVec.data);
    AcceptsIs(G, mul, passes, a, b, c, randVec, left, right);
    res := Success(ok);
  }

  lemma AcceptsIs<C>(
    G: Group<C>, mul: (C, C) -> C, passes: C -> bool, a: MatrixValue<C>, b: MatrixValue<C>, c: MatrixValue<C>,
    v: seq<nat>, left: seq<C>, right: seq<C>)
    requires Shapes(a, b, c) && |v| == a.rows && |left| == |right| == c.cols
    requires forall k | 0 <= k < c.cols :: left[k] == Dot(G, mul, SelectedSum(G, v, a), b.Column(k))
    requires forall k | 0 <= k < c.cols :: right[k] == Dot(G, Keep(G), v, c.Column(k))
    ensures Accepts(G, mul, passes, a, b, c, v) <==> forall k | 0 <= k < c.cols :: passes(G.Sub(left[k], right[k]))
  {
    assert forall k | 0 <= k < c.cols :: Discrepancy(G, mul, a, b, c, v, k) == G.Sub(left[k], right[k]);
  }

  lemma SameAsColumns<C>(G: Group<C>, v: seq<nat>, c: MatrixValue<C>, r: MatrixValue<C>)
    requires c.Valid() && |v| == c.rows && r.Valid() && r.rows == 1 && r.cols == c.cols
    requires forall k | 0 <= k < c.cols :: r.At(0, k) == Dot(G, Keep(G), v, c.Column(k))
    ensures |r.data| == c.cols
    ensures forall k | 0 <= k < c.cols :: r.data[k] == Dot(G, Keep(G), v, c.Column(k))
  {
    forall k | 0 <= k < c.cols ensures r.data[k] == Dot(G, Keep(G), v, c.Column(k)) {
      assert r.data[k] == r.At(0, k);
    }
  }

  /** Column k of a*b - c. */
  function Errors<C>(
    G: Group<C>, mul: (C, C) -> C, a: MatrixValue<C>, b: MatrixValue<C>, c: MatrixValue<C>, k: nat): (d: seq<C>)
    requires Shapes(a, b, c)
    requires k < c.cols
    ensures |d| == a.rows
    ensures forall i | 0 <= i < a.rows :: d[i] == G.Sub(Cell(G, mul, a, b, i, k), c.At(i, k))
  {
    seq(a.rows, i requires 0 <= i < a.rows => G.Sub(Cell(G, mul, a, b, i, k), c.At(i, k)))
  }

  /** The discrepancy is the selected sum of the errors: (v*a)*b - v*c == v*(a*b - c). */
  lemma DiscrepancyIsSum<C(!new)>(
    G: Group<C>, mul: (C, C) -> C, a: MatrixValue<C>, b: MatrixValue<C>, c: MatrixValue<C>, v: seq<nat>, k: nat)
    requires Lawful(G) && LeftAdditive(G, mul)
    requires Shapes(a, b, c)
    requires |v| == a.rows && k < c.cols
    ensures Discrepancy(G, mul, a, b, c, v, k) == Dot(G, Keep(G), v, Errors(G, mul, a, b, c, k))
  {
    var column, selected, errors := b.Column(k), SelectedSum(G, v, a), Errors(G, mul, a, b, c, k);
    var products := seq(a.rows, i requires 0 <= i < a.rows => Cell(G, mul, a, b, i, k));
    ProductsWeighed(G, mul, a, b, v, k, products);
    var ps, cs, es := Terms(Keep(G), v, products), Terms(Keep(G), v, c.Column(k)), Terms(Keep(G), v, errors);
    Laws(G, G.zero, G.zero, G.zero);
    SumSubs(G, ps, cs, es);
  }

  lemma ProductsWeighed<C(!new)>(
    G: Group<C>, mul: (C, C) -> C, a: MatrixValue<C>, b: MatrixValue<C>, v: seq<nat>, k: nat, products: seq<C>)
    requires Lawful(G) && LeftAdditive(G, mul)
    requires a.Valid() && b.Valid() && a.cols == b.rows && |v| == a.rows && k < b.cols
    requires |products| == a.rows && forall i | 0 <= i < a.rows :: products[i] == Cell(G, mul, a, b, i, k)
    ensures Dot(G, mul, SelectedSum(G, v, a), b.Column(k)) == Dot(G, Keep(G), v, products)
  {
    var column, selected := b.Column(k), SelectedSum(G, v, a);
    var x := Transposed(G, a);
    forall j | 0 <= j < |v| ensures AdditiveIn(G, Keep(G), v[j]) { KeepIsAdditive(G, v[j]); }
    forall t, j | 0 <= t < |column| && 0 <= j < |v| ensures Commutes(Swap(mul), column[t], Keep(G), v[j]) {
      KeepCommutes(G, mul, column[t], v[j]);
    }
    SelectedEntries(G, a, v);
    ProductEntries(G, mul, a, b, k);
    ExchangeWeights(G, Keep(G), Swap(mul), v, column, x, selected, products);
    assert Terms(mul, selected, column) == Terms(Swap(mul), column, selected);
  }

  function Transposed<C>(G: Group<C>, a: MatrixValue<C>): (nat, nat) -> C
    requires a.Valid()
  {
    (t: nat, i: nat) => if t < a.cols && i < a.rows then a.At(i, t) else G.zero
  }

  lemma KeepCommutes<C(!new)>(G: Group<C>, mul: (C, C) -> C, y: C, s: nat)
    requires Lawful(G) && LeftAdditive(G, mul)
    ensures Commutes(Swap(mul), y, Keep(G), s)
  {
    AdditiveInAt(G, Swap(mul), y, G.zero, G.zero);
  }

  lemma SelectedEntries<C>(G: Group<C>, a: MatrixValue<C>, v: seq<nat>)
    requires a.Valid() && |v| == a.rows
    ensures forall t | 0 <= t < a.cols :: SelectedSum(G, v, a)[t] == Dot(G, Keep(G), v, Row(Transposed(G, a), t, |v|))
  {
    forall t | 0 <= t < a.cols
      ensures SelectedSum(G, v, a)[t] == Dot(G, Keep(G), v, Row(Transposed(G, a), t, |v|))
    {
      assert Row(Transposed(G, a), t, |v|) == a.Column(t);
    }
  }

  lemma ProductEntries<C>(G: Group<C>, mul: (C, C) -> C, a: MatrixValue<C>, b: MatrixValue<C>, k: nat)
    requires a.Valid() && b.Valid() && a.cols == b.rows && k < b.cols
    ensures forall i | 0 <= i < a.rows ::
      Cell(G, mul, a, b, i, k) == Dot(G, Swap(mul), b.Column(k), Row(Flip(Transposed(G, a)), i, b.rows))
  {
    var column := b.Column(k);
    forall i | 0 <= i < a.rows
      ensures Cell(G, mul, a, b, i, k) == Dot(G, Swap(mul), column, Row(Flip(Transposed(G, a)), i, b.rows))
    {
      assert Row(Flip(Transposed(G, a)), i, b.rows) == a.RowAt(i);
      assert Terms(mul, a.RowAt(i), column) == Terms(Swap(mul), column, a.RowAt(i));
    }
  }

  lemma KeepIsScaling<C(!new)>(G: Group<C>, passes: C -> bool)
    requires Lawful(G) && Subgroup(G, passes)
    ensures Scaling(G, Keep(G), passes, {0, 1})
  {
    KeepIsAdditive(G, 0);
    KeepIsAdditive(G, 1);
    var keep := Keep(G);
    forall s, r, d | s in {0, 1} && r in {0, 1} && s != r && passes(G.Sub(keep(s, d), keep(r, d)))
      ensures passes(d)
    {
      Laws(G, d, d, d);
      Laws(G, G.zero, G.zero, G.zero);
      Laws(G, G.neg(G.zero), G.zero, d);
      if s == 0 {
        // what passed is 0 - d
        Laws(G, G.neg(d), d, d);
        SubgroupAt(G, passes, G.zero, G.Sub(G.zero, d));
        DoubleNeg(G, d);
      }
    }
  }

  lemma DoubleNeg<C(!new)>(G: Group<C>, x: C)
    requires Lawful(G)
    ensures G.Sub(G.zero, G.Sub(G.zero, x)) == x
  {
    Laws(G, G.neg(x), x, x);
    Laws(G, x, x, x);
    Laws(G, G.neg(G.neg(x)), x, x);
    Laws(G, G.neg(x), G.neg(G.neg(x)), x);
    Cancel(G, G.neg(x), G.neg(G.neg(x)), x);
  }

  ghost predicate CorrectAt<C>(
    G: Group<C>, mul: (C, C) -> C, passes: C -> bool, a: MatrixValue<C>, b: MatrixValue<C>, c: MatrixValue<C>,
    i: nat, k: nat)
    requires a.Valid() && b.Valid() && c.Valid() && a.cols == b.rows && i < a.rows == c.rows && k < b.cols == c.cols
  {
    passes(G.Sub(Cell(G, mul, a, b, i, k), c.At(i, k)))
  }

  ghost function Accepting<C>(
    G: Group<C>, mul: (C, C) -> C, passes: C -> bool, a: MatrixValue<C>, b: MatrixValue<C>,
    c: MatrixValue<C>): set<seq<nat>>
    requires Shapes(a, b, c)
  {
    set v | v in Challenges({0, 1}, a.rows) && |v| == a.rows && Accepts(G, mul, passes, a, b, c, v)
  }

  lemma AcceptingSurvive<C(!new)>(
    G: Group<C>, mul: (C, C) -> C, passes: C -> bool, a: MatrixValue<C>, b: MatrixValue<C>, c: MatrixValue<C>,
    k: nat)
    requires Lawful(G) && LeftAdditive(G, mul)
    requires Shapes(a, b, c) && k < c.cols
    ensures Accepting(G, mul, passes, a, b, c) <= Surviving(G, Keep(G), passes, {0, 1}, Errors(G, mul, a, b, c, k))
  {
    forall v | v in Accepting(G, mul, passes, a, b, c)
      ensures v in Surviving(G, Keep(G), passes, {0, 1}, Errors(G, mul, a, b, c, k))
    {
      DiscrepancyIsSum(G, mul, a, b, c, v, k);
      assert passes(Discrepancy(G, mul, a, b, c, v, k));
    }
  }

  lemma BitVectorCount(k: nat)
    ensures |Challenges({0, 1}, k)| == Pow2(k)
    ensures k > 0 ==> Power(|{0, 1}|, k - 1) == Pow2(k - 1)
  {
    var bits: set<nat> := {0, 1};
    assert |bits| == 2;
    ChallengeCount(bits, k);
    PowerOfTwo(k);
    if k > 0 { PowerOfTwo(k - 1); }
  }

  /** If any cell of c is wrong, at most half of the 2^n challenge vectors let it through. */
  lemma FrievaldsIsSound<C(!new)>(
    G: Group<C>, mul: (C, C) -> C, passes: C -> bool, a: MatrixValue<C>, b: MatrixValue<C>, c: MatrixValue<C>,
    i: nat, k: nat)
    requires Lawful(G) && LeftAdditive(G, mul) && Subgroup(G, passes)
    requires Shapes(a, b, c)
    requires i < a.rows && k < c.cols && !CorrectAt(G, mul, passes, a, b, c, i, k)
    ensures |Accepting(G, mul, passes, a, b, c)| <= Pow2(a.rows - 1)
    ensures |Challenges({0, 1}, a.rows)| == Pow2(a.rows)
  {
    FewAcceptWrong(G, mul, passes, a, b, c, i, k);
    BitVectorCount(a.rows);
  }

  lemma FewAcceptWrong<C(!new)>(
    G: Group<C>, mul: (C, C) -> C, passes: C -> bool, a: MatrixValue<C>, b: MatrixValue<C>, c: MatrixValue<C>,
    i: nat, k: nat)
    requires Lawful(G) && LeftAdditive(G, mul) && Subgroup(G, passes)
    requires Shapes(a, b, c)
    requires i < a.rows && k < c.cols && !CorrectAt(G, mul, passes, a, b, c, i, k)
    ensures |Accepting(G, mul, passes, a, b, c)| <= Pow2(a.rows - 1)
  {
    var errors := Errors(G, mul, a, b, c, k);
    assert |errors| == a.rows && !passes(errors[i]);
    AcceptingSurvive(G, mul, passes, a, b, c, k);
    FewAccept(G, passes, errors, i, Accepting(G, mul, passes, a, b, c));
  }

  lemma FewAccept<C(!new)>(G: Group<C>, passes: C -> bool, d: seq<C>, i: nat, accepting: set<seq<nat>>)
    requires Lawful(G) && Subgroup(G, passes) && i < |d| && !passes(d[i])
    requires accepting <= Surviving(G, Keep(G), passes, {0, 1}, d)
    ensures |accepting| <= Pow2(|d| - 1)
  {
    FewBitsSurvive(G, passes, d, i);
    SubsetSize(accepting, Surviving(G, Keep(G), passes, {0, 1}, d));
  }

  lemma FewBitsSurvive<C(!new)>(G: Group<C>, passes: C -> bool, d: seq<C>, i: nat)
    requires Lawful(G) && Subgroup(G, passes) && i < |d| && !passes(d[i])
    ensures |Surviving(G, Keep(G), passes, {0, 1}, d)| <= Pow2(|d| - 1)
  {
    KeepIsScaling(G, passes);
    FewSurvive(G, Keep(G), passes, {0, 1}, d, i);
    BitVectorCount(|d|);
  }

  lemma {:induction false} PowerOfTwo(k: nat)
    ensures Power(2, k) == Pow2(k)
  {
    if k > 0 { PowerOfTwo(k - 1); }
  }

  lemma WrongIsCaught<C(!new)>(
    G: Group<C>, mul: (C, C) -> C, passes: C -> bool, a: MatrixValue<C>, b: MatrixValue<C>, c: MatrixValue<C>,
    i: nat, k: nat)
    requires Lawful(G) && LeftAdditive(G, mul) && Subgroup(G, passes)
    requires Shapes(a, b, c) && i < a.rows && k < c.cols
    requires Challenges({0, 1}, a.rows) <= Accepting(G, mul, passes, a, b, c)
    ensures CorrectAt(G, mul, passes, a, b, c, i, k)
  {
    if !CorrectAt(G, mul, passes, a, b, c, i, k) {
      FrievaldsIsSound(G, mul, passes, a, b, c, i, k);
      SubsetSize(Challenges({0, 1}, a.rows), Accepting(G, mul, passes, a, b, c));
      Pow2Strict(a.rows - 1, a.rows);
    }
  }

  lemma RightIsAccepted<C(!new)>(
    G: Group<C>, mul: (C, C) -> C, passes: C -> bool, a: MatrixValue<C>, b: MatrixValue<C>, c: MatrixValue<C>,
    v: seq<nat>)
    requires Lawful(G) && LeftAdditive(G, mul) && Subgroup(G, passes)
    requires Shapes(a, b, c) && |v| == a.rows
    requires forall i, k | 0 <= i < a.rows && 0 <= k < c.cols :: CorrectAt(G, mul, passes, a, b, c, i, k)
    ensures Accepts(G, mul, passes, a, b, c, v)
  {
    forall k | 0 <= k < c.cols ensures passes(Discrepancy(G, mul, a, b, c, v, k)) {
      var errors := Errors(G, mul, a, b, c, k);
      DiscrepancyIsSum(G, mul, a, b, c, v, k);
      forall i | 0 <= i < a.rows ensures passes(errors[i]) {
        assert CorrectAt(G, mul, passes, a, b, c, i, k);
      }
      var terms := Terms(Keep(G), v, errors);
      assert forall i | 0 <= i < a.rows :: terms[i] == G.zero || terms[i] == errors[i];
      SumPasses(G, passes, terms);
    }
  }

  /** The test accepts every challenge exactly when every cell of c is right. */
  lemma FrievaldsIsExact<C(!new)>(
    G: Group<C>, mul: (C, C) -> C, passes: C -> bool, a: MatrixValue<C>, b: MatrixValue<C>, c: MatrixValue<C>)
    requires Lawful(G) && LeftAdditive(G, mul) && Subgroup(G, passes)
    requires Shapes(a, b, c)
    ensures Accepting(G, mul, passes, a, b, c) == Challenges({0, 1}, a.rows)
            <==> forall i, k | 0 <= i < a.rows && 0 <= k < c.cols :: CorrectAt(G, mul, passes, a, b, c, i, k)
  {
    if Accepting(G, mul, passes, a, b, c) == Challenges({0, 1}, a.rows) {
      forall i, k | 0 <= i < a.rows && 0 <= k < c.cols ensures CorrectAt(G, mul, passes, a, b, c, i, k) {
        WrongIsCaught(G, mul, passes, a, b, c, i, k);
      }
    }
    if forall i, k | 0 <= i < a.rows && 0 <= k < c.cols :: CorrectAt(G, mul, passes, a, b, c, i, k) {
      forall v | v in Challenges({0, 1}, a.rows) ensures v in Accepting(G, mul, passes, a, b, c) {
        ChallengesAre({0, 1}, a.rows, v);
        RightIsAccepted(G, mul, passes, a, b, c, v);
      }
    }
  }

  lemma {:induction false} SumPasses<C(!new)>(G: Group<C>, passes: C -> bool, terms: seq<C>)
    requires Lawful(G) && Subgroup(G, passes) && forall i | 0 <= i < |terms| :: passes(terms[i])
    ensures passes(Sum(G, terms))
  {
    if terms != [] {
      var last, rest := terms[|terms| - 1], Sum(G, terms[..|terms| - 1]);
      SumPasses(G, passes, terms[..|terms| - 1]);
      SubgroupAt(G, passes, G.zero, rest);
      SubgroupAt(G, passes, last, G.Sub(G.zero, rest));
      NegOfDifference(G, rest);
    }
  }

  lemma NegOfDifference<C(!new)>(G: Group<C>, x: C)
    requires Lawful(G)
    ensures G.neg(G.Sub(G.zero, x)) == x
  {
    DoubleNeg(G, x);
    Laws(G, G.neg(G.Sub(G.zero, x)), G.zero, x);
  }
}
