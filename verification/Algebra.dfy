/**
 The algebra the evaluator's operations obey. Ciphertexts form an abelian group under addition;
 products and scalings are additive maps on it; and the ciphertexts the zero test lets through
 form a subgroup. Laws are applied one instance at a time, by naming the elements in a Cue.
 */
module Algebra {

  datatype Group<!C> = Group(zero: C, add: (C, C) -> C, neg: C -> C) {
    function Sub(x: C, y: C): C {
      add(x, neg(y))
    }
  }

  ghost predicate Cue<C>(x: C, y: C, z: C) {
    true
  }

  ghost predicate Lawful<C(!new)>(G: Group<C>) {
    forall x, y, z {:trigger Cue(x, y, z)} :: Cue(x, y, z) ==>
      && G.add(x, y) == G.add(y, x)
      && G.add(G.add(x, y), z) == G.add(x, G.add(y, z))
      && G.add(x, G.zero) == x
      && G.add(x, G.neg(x)) == G.zero
  }

  lemma Laws<C(!new)>(G: Group<C>, x: C, y: C, z: C)
    requires Lawful(G)
    ensures G.add(x, y) == G.add(y, x)
    ensures G.add(G.add(x, y), z) == G.add(x, G.add(y, z))
    ensures G.add(x, G.zero) == x && G.add(G.zero, x) == x
    ensures G.add(x, G.neg(x)) == G.zero
  {
    assert Cue(x, y, z);
    assert Cue(x, G.zero, z);
  }

  /** (a + b) + (c + d) == (a + c) + (b + d) */
  lemma Regroup<C(!new)>(G: Group<C>, a: C, b: C, c: C, d: C)
    requires Lawful(G)
    ensures G.add(G.add(a, b), G.add(c, d)) == G.add(G.add(a, c), G.add(b, d))
  {
    Laws(G, a, b, G.add(c, d));
    Laws(G, b, c, d);
    Laws(G, c, b, d);
    Laws(G, a, c, G.add(b, d));
  }

  lemma Cancel<C(!new)>(G: Group<C>, a: C, x: C, y: C)
    requires Lawful(G) && G.add(a, x) == G.add(a, y)
    ensures x == y
  {
    Laws(G, G.neg(a), a, x);
    Laws(G, G.neg(a), a, y);
    Laws(G, a, G.neg(a), x);
    Laws(G, x, G.zero, x);
    Laws(G, y, G.zero, y);
  }

  lemma NegAdds<C(!new)>(G: Group<C>, x: C, y: C)
    requires Lawful(G)
    ensures G.neg(G.add(x, y)) == G.add(G.neg(x), G.neg(y))
  {
    Regroup(G, x, y, G.neg(x), G.neg(y));
    Laws(G, x, y, x);
    Laws(G, y, y, x);
    Laws(G, G.zero, G.zero, x);
    Laws(G, G.add(x, y), y, x);
    Cancel(G, G.add(x, y), G.neg(G.add(x, y)), G.add(G.neg(x), G.neg(y)));
  }

  lemma SubRegroup<C(!new)>(G: Group<C>, a: C, b: C, c: C, d: C)
    requires Lawful(G)
    ensures G.Sub(G.add(a, b), G.add(c, d)) == G.add(G.Sub(a, c), G.Sub(b, d))
  {
    NegAdds(G, c, d);
    Regroup(G, a, b, G.neg(c), G.neg(d));
  }

  // ----- additive maps

  ghost predicate Additive<C(!new), D>(G: Group<C>, H: Group<D>, f: C -> D) {
    && f(G.zero) == H.zero
    && forall x, y {:trigger Cue(x, y, y)} :: Cue(x, y, y) ==> f(G.add(x, y)) == H.add(f(x), f(y))
  }

  lemma AdditiveAt<C(!new), D>(G: Group<C>, H: Group<D>, f: C -> D, x: C, y: C)
    requires Additive(G, H, f)
    ensures f(G.add(x, y)) == H.add(f(x), f(y))
  {
    assert Cue(x, y, y);
  }

  lemma AdditiveNeg<C(!new), D(!new)>(G: Group<C>, H: Group<D>, f: C -> D, x: C)
    requires Lawful(G) && Lawful(H) && Additive(G, H, f)
    ensures f(G.neg(x)) == H.neg(f(x))
  {
    AdditiveAt(G, H, f, x, G.neg(x));
    Laws(G, x, x, x);
    Laws(H, f(x), f(x), f(x));
    Cancel(H, f(x), f(G.neg(x)), H.neg(f(x)));
  }

  // ----- sums, in the order the loops build them

  function Sum<C>(G: Group<C>, terms: seq<C>): C {
    if terms == [] then G.zero
    else G.add(terms[|terms| - 1], Sum(G, terms[..|terms| - 1]))
  }

  lemma {:induction false} SumAdds<C(!new)>(G: Group<C>, a: seq<C>, b: seq<C>, c: seq<C>)
    requires Lawful(G) && |a| == |b| == |c|
    requires forall i | 0 <= i < |a| :: c[i] == G.add(a[i], b[i])
    ensures Sum(G, c) == G.add(Sum(G, a), Sum(G, b))
  {
    if a == [] {
      Laws(G, G.zero, G.zero, G.zero);
    } else {
      var k := |a| - 1;
      SumAdds(G, a[..k], b[..k], c[..k]);
      Regroup(G, a[k], b[k], Sum(G, a[..k]), Sum(G, b[..k]));
    }
  }

  lemma {:induction false} SumSubs<C(!new)>(G: Group<C>, a: seq<C>, b: seq<C>, c: seq<C>)
    requires Lawful(G) && |a| == |b| == |c|
    requires forall i | 0 <= i < |a| :: c[i] == G.Sub(a[i], b[i])
    ensures Sum(G, c) == G.Sub(Sum(G, a), Sum(G, b))
  {
    if a == [] {
      Laws(G, G.zero, G.zero, G.zero);
    } else {
      var k := |a| - 1;
      SumSubs(G, a[..k], b[..k], c[..k]);
      SubRegroup(G, a[k], Sum(G, a[..k]), b[k], Sum(G, b[..k]));
    }
  }

  lemma {:induction false} SumOfZeros<C(!new)>(G: Group<C>, terms: seq<C>)
    requires Lawful(G) && forall i | 0 <= i < |terms| :: terms[i] == G.zero
    ensures Sum(G, terms) == G.zero
  {
    if terms != [] {
      SumOfZeros(G, terms[..|terms| - 1]);
      Laws(G, G.zero, G.zero, G.zero);
    }
  }

  lemma {:induction false} SumOfOne<C(!new)>(G: Group<C>, terms: seq<C>, j: nat)
    requires Lawful(G) && j < |terms|
    requires forall i | 0 <= i < |terms| && i != j :: terms[i] == G.zero
    ensures Sum(G, terms) == terms[j]
  {
    var k := |terms| - 1;
    Laws(G, terms[j], terms[j], terms[j]);
    if j == k {
      SumOfZeros(G, terms[..k]);
    } else {
      SumOfOne(G, terms[..k], j);
    }
  }

  lemma {:induction false} SumMapped<C(!new), D(!new)>(G: Group<C>, H: Group<D>, f: C -> D, a: seq<C>, b: seq<D>)
    requires Additive(G, H, f) && |a| == |b|
    requires forall i | 0 <= i < |a| :: b[i] == f(a[i])
    ensures f(Sum(G, a)) == Sum(H, b)
  {
    if a != [] {
      var k := |a| - 1;
      SumMapped(G, H, f, a[..k], b[..k]);
      AdditiveAt(G, H, f, a[k], Sum(G, a[..k]));
    }
  }

  // ----- double sums

  function Row<C>(t: (nat, nat) -> C, i: nat, cols: nat): (r: seq<C>)
    ensures |r| == cols && forall j | 0 <= j < cols :: r[j] == t(i, j)
  {
    seq(cols, j requires 0 <= j < cols => t(i, j))
  }

  function RowSums<C>(G: Group<C>, t: (nat, nat) -> C, rows: nat, cols: nat): (r: seq<C>)
    ensures |r| == rows && forall i | 0 <= i < rows :: r[i] == Sum(G, Row(t, i, cols))
  {
    seq(rows, i requires 0 <= i < rows => Sum(G, Row(t, i, cols)))
  }

  function Flip<C>(t: (nat, nat) -> C): (nat, nat) -> C {
    (i: nat, j: nat) => t(j, i)
  }

  lemma RowGrows<C>(G: Group<C>, t: (nat, nat) -> C, j: nat, k: nat)
    ensures Sum(G, Row(t, j, k + 1)) == G.add(t(j, k), Sum(G, Row(t, j, k)))
  {
    assert Row(t, j, k + 1)[..k] == Row(t, j, k);
  }

  lemma ColumnsGrow<C(!new)>(G: Group<C>, t: (nat, nat) -> C, k: nat, cols: nat)
    requires Lawful(G)
    ensures Sum(G, RowSums(G, Flip(t), cols, k + 1))
            == G.add(Sum(G, Row(t, k, cols)), Sum(G, RowSums(G, Flip(t), cols, k)))
  {
    var last, before, all := Row(t, k, cols), RowSums(G, Flip(t), cols, k), RowSums(G, Flip(t), cols, k + 1);
    forall j | 0 <= j < cols ensures all[j] == G.add(last[j], before[j]) {
      RowGrows(G, Flip(t), j, k);
    }
    SumAdds(G, last, before, all);
  }

  /** A double sum may be taken by rows or by columns. */
  lemma {:induction false} SumExchange<C(!new)>(G: Group<C>, t: (nat, nat) -> C, rows: nat, cols: nat)
    requires Lawful(G)
    ensures Sum(G, RowSums(G, t, rows, cols)) == Sum(G, RowSums(G, Flip(t), cols, rows))
  {
    if rows == 0 {
      forall j | 0 <= j < cols ensures RowSums(G, Flip(t), cols, 0)[j] == G.zero {
        assert Row(Flip(t), j, 0) == [];
      }
      SumOfZeros(G, RowSums(G, Flip(t), cols, 0));
    } else {
      SumExchange(G, t, rows - 1, cols);
      assert RowSums(G, t, rows, cols)[..rows - 1] == RowSums(G, t, rows - 1, cols);
      ColumnsGrow(G, t, rows - 1, cols);
    }
  }

  // ----- the zero test

  /** What passes the zero test is closed under subtraction. */
  ghost predicate Subgroup<C(!new)>(G: Group<C>, passes: C -> bool) {
    && passes(G.zero)
    && forall x, y {:trigger Cue(x, y, y)} :: Cue(x, y, y) && passes(x) && passes(y) ==> passes(G.Sub(x, y))
  }

  lemma SubgroupAt<C(!new)>(G: Group<C>, passes: C -> bool, x: C, y: C)
    requires Subgroup(G, passes) && passes(x) && passes(y)
    ensures passes(G.Sub(x, y))
  {
    assert Cue(x, y, y);
  }
}
