/**
 The whole retrieval: a client asks for one entry of the database with two one-hot queries, one
 per dimension, and reads exactly that entry out of the manager's final answer.
 */
module Retrieval {
  import opened Arith
  import opened NegacyclicRing
  import opened Algebra
  import opened Matrices
  import Embedding
  import QueryExpander

  type Ct = Embedding.Ciphertext

  /**
   R is the plaintext ring, P the embedding's parameters; a ciphertext is held as the residues of `size`
   polynomials, and decryption looks at those only.
   */
  datatype Scheme<!C(!new)> = Scheme(
    R: Ring, P: Embedding.Parameters, size: nat, residues: C -> Ct, dec: Ct -> Poly, G: Group<C>, act: (Poly, C) -> C)
  {
    function Plain(x: C): Poly {
      dec(residues(x))
    }
  }

  ghost predicate IsCt<C(!new)>(S: Scheme<C>, x: C) {
    Embedding.WellFormed(S.P, S.residues(x)) && |S.residues(x)| == S.size
  }

  ghost predicate Encrypts<C(!new)>(S: Scheme<C>, x: C, p: Poly) {
    IsCt(S, x) && S.Plain(x) == p && IsPoly(S.R, p)
  }

  ghost predicate SumLaw<C(!new)>(S: Scheme<C>, x: C, y: C) {
    Encrypts(S, x, S.Plain(x)) && Encrypts(S, y, S.Plain(y))
    ==> Encrypts(S, S.G.add(x, y), Add(S.R, S.Plain(x), S.Plain(y)))
  }

  ghost predicate ProductLaw<C(!new)>(S: Scheme<C>, a: Poly, x: C) {
    IsPoly(S.R, a) && Encrypts(S, x, S.Plain(x)) ==> Encrypts(S, S.act(a, x), Product(S.R, a, S.Plain(x)))
  }

  /** Sums and plaintext products of ciphertexts decrypt to sums and products. */
  ghost predicate Homomorphic<C(!new)>(S: Scheme<C>) {
    && Embedding.Usable(S.P) && S.P.n == S.R.n && Pow2(S.P.bits) <= S.R.q
    && Encrypts(S, S.G.zero, Constant(S.R, 0))
    && (forall x, y :: SumLaw(S, x, y))
    && (forall a, x :: ProductLaw(S, a, x))
  }

  // ----- one-hot vectors select

  ghost predicate Cts<C(!new)>(S: Scheme<C>, xs: seq<C>) {
    forall k | 0 <= k < |xs| :: IsCt(S, xs[k]) && IsPoly(S.R, S.Plain(xs[k]))
  }

  ghost predicate Polys<C(!new)>(S: Scheme<C>, ps: seq<Poly>) {
    forall k | 0 <= k < |ps| :: IsPoly(S.R, ps[k])
  }

  function Bit<C(!new)>(S: Scheme<C>, one: bool): (p: Poly)
    ensures IsPoly(S.R, p)
  {
    Constant(S.R, if one then 1 % S.R.q else 0)
  }

  ghost predicate OneHot<C(!new)>(S: Scheme<C>, xs: seq<C>, item: nat) {
    item < |xs| && forall k | 0 <= k < |xs| :: Encrypts(S, xs[k], Bit(S, k == item))
  }

  /** One more plaintext product, added to a sum. */
  lemma AddProduct<C(!new)>(S: Scheme<C>, a: Poly, x: C, p: Poly, sum: C, q: Poly)
    requires Homomorphic(S) && IsPoly(S.R, a) && Encrypts(S, x, p) && Encrypts(S, sum, q)
    ensures Encrypts(S, S.G.add(S.act(a, x), sum), Add(S.R, Product(S.R, a, p), q))
  {
    assert ProductLaw(S, a, x);
    assert SumLaw(S, S.act(a, x), sum);
  }

  /** A product with an encrypted bit adds its plaintext, or nothing. */
  lemma AddSelected<C(!new)>(S: Scheme<C>, a: Poly, x: C, one: bool, sum: C, q: Poly)
    requires Homomorphic(S) && IsPoly(S.R, a) && Encrypts(S, x, Bit(S, one)) && Encrypts(S, sum, q)
    ensures one && q == Constant(S.R, 0) ==> Encrypts(S, S.G.add(S.act(a, x), sum), a)
    ensures !one ==> Encrypts(S, S.G.add(S.act(a, x), sum), q)
  {
    AddProduct(S, a, x, Bit(S, one), sum, q);
    ProductByBit(S.R, a, one);
    AddZero(S.R, a);
    AddZero(S.R, q);
  }

  lemma EmptyDot<C(!new)>(S: Scheme<C>, left: seq<Poly>, right: seq<C>)
    requires |left| == |right|
    ensures Dot(S.G, S.act, left[..0], right[..0]) == S.G.zero
  {
    assert Terms(S.act, left[..0], right[..0]) == [];
  }

  /** A dot product of plaintexts and ciphertexts is a ciphertext. */
  lemma {:induction false} DotIsCt<C(!new)>(S: Scheme<C>, left: seq<Poly>, right: seq<C>, k: nat)
    requires Homomorphic(S) && Polys(S, left) && Cts(S, right) && k <= |left| == |right|
    ensures var dot := Dot(S.G, S.act, left[..k], right[..k]); Encrypts(S, dot, S.Plain(dot))
  {
    if k > 0 {
      DotIsCt(S, left, right, k - 1);
      DotGrows(S.G, S.act, left, right, k - 1);
      var dot := Dot(S.G, S.act, left[..k - 1], right[..k - 1]);
      AddProduct(S, left[k - 1], right[k - 1], S.Plain(right[k - 1]), dot, S.Plain(dot));
    } else {
      EmptyDot(S, left, right);
    }
  }

  function Selected<C(!new)>(S: Scheme<C>, left: seq<Poly>, item: nat, k: nat): Poly
    requires item < |left|
  {
    if item < k then left[item] else Constant(S.R, 0)
  }

  lemma SelectOneMore<C(!new)>(S: Scheme<C>, left: seq<Poly>, right: seq<C>, item: nat, k: nat)
    requires Homomorphic(S) && Polys(S, left) && OneHot(S, right, item) && k < |left| == |right|
    requires Encrypts(S, Dot(S.G, S.act, left[..k], right[..k]), Selected(S, left, item, k))
    ensures Encrypts(S, Dot(S.G, S.act, left[..k + 1], right[..k + 1]), Selected(S, left, item, k + 1))
  {
    DotGrows(S.G, S.act, left, right, k);
    AddSelected(S, left[k], right[k], k == item, Dot(S.G, S.act, left[..k], right[..k]), Selected(S, left, item, k));
  }

  lemma {:induction false} DotSelectsUpTo<C(!new)>(S: Scheme<C>, left: seq<Poly>, right: seq<C>, item: nat, k: nat)
    requires Homomorphic(S) && Polys(S, left) && OneHot(S, right, item) && k <= |left| == |right|
    ensures Encrypts(S, Dot(S.G, S.act, left[..k], right[..k]), Selected(S, left, item, k))
  {
    if k > 0 {
      DotSelectsUpTo(S, left, right, item, k - 1);
      SelectOneMore(S, left, right, item, k - 1);
    } else {
      EmptyDot(S, left, right);
    }
  }

  /** Multiplying a row of plaintexts with a one-hot vector decrypts to the selected one. */
  lemma DotSelects<C(!new)>(S: Scheme<C>, left: seq<Poly>, right: seq<C>, item: nat)
    requires Homomorphic(S) && Polys(S, left) && OneHot(S, right, item) && |left| == |right|
    ensures Encrypts(S, Dot(S.G, S.act, left, right), left[item])
  {
    DotSelectsUpTo(S, left, right, item, |left|);
    assert left[..|left|] == left && right[..|left|] == right;
  }

  /** A query for an item, of one ciphertext or several, prepared by its client and expanded by whoever uses it. */
  ghost predicate Asks<C(!new)>(
    S: Scheme<C>, E: QueryExpander.Evaluator<C>, query: seq<C>, expanded: seq<C>, m: nat, item: nat, inverse: nat)
  {
    && QueryExpander.Faithful(S.R, E) && (forall x :: E.dec(x) == S.Plain(x))
    && m % S.R.n >= 2 && QueryExpander.SelectsItem(S.R, E, query, m, item, inverse)
    && QueryExpander.IsQueryExpansion(S.R, E, query, m, expanded) && Cts(S, expanded)
  }

  lemma AskedIsOneHot<C(!new)>(
    S: Scheme<C>, E: QueryExpander.Evaluator<C>, query: seq<C>, expanded: seq<C>, m: nat, item: nat, inverse: nat)
    requires Asks(S, E, query, expanded, m, item, inverse)
    ensures |expanded| == m && OneHot(S, expanded, item)
  {
    forall k | 0 <= k < m ensures Encrypts(S, expanded[k], Bit(S, k == item)) {
      QueryExpander.OneHotBlocks(S.R, E, query, m, item, inverse, expanded, k);
    }
  }

  // ----- the second dimension

  /** All plaintexts of a ciphertext's embedding. */
  function Planes(P: Embedding.Parameters, ct: Ct): (planes: seq<Poly>)
    requires Embedding.Usable(P) && Embedding.WellFormed(P, ct)
    ensures |planes| == Embedding.Ratio(P) * |ct|
  {
    seq(Embedding.Ratio(P) * |ct|, slot requires 0 <= slot < Embedding.Ratio(P) * |ct| => Embedding.Plane(P, ct, slot))
  }

  /** Decomposition produces just these. */
  lemma DecomposedIsPlanes(P: Embedding.Parameters, ct: Ct, result: seq<Poly>)
    requires Embedding.Usable(P) && Embedding.WellFormed(P, ct)
    ensures Embedding.FilledUpTo(P, ct, result, |result|) <==> result == Planes(P, ct)
  {
    if Embedding.FilledUpTo(P, ct, result, |result|) {
      assert result == Planes(P, ct);
    }
  }

  function Swapped<C(!new)>(S: Scheme<C>): (C, Poly) -> C {
    (x: C, p: Poly) => S.act(p, x)
  }

  /** Row i of a client's partial answer embeds the product of database row i with its first query. */
  ghost predicate PartialAnswer<C(!new)>(S: Scheme<C>, db: MatrixValue<Poly>, query: seq<C>, partial: MatrixValue<Poly>)
    requires Embedding.Usable(S.P) && db.Valid() && |query| == db.cols
  {
    && partial.Valid() && partial.rows == db.rows && partial.cols == Embedding.Ratio(S.P) * S.size
    && forall i | 0 <= i < db.rows ::
         IsCt(S, Dot(S.G, S.act, db.RowAt(i), query))
         && partial.RowAt(i) == Planes(S.P, S.residues(Dot(S.G, S.act, db.RowAt(i), query)))
  }

  lemma PlanesArePolys<C(!new)>(S: Scheme<C>, ct: C)
    requires Homomorphic(S) && IsCt(S, ct)
    ensures Polys(S, Planes(S.P, S.residues(ct)))
  {
  }

  lemma AnswerIsDot<C(!new)>(
    S: Scheme<C>, second: seq<C>, partial: MatrixValue<Poly>, answer: MatrixValue<C>, j: nat)
    requires partial.Valid() && partial.rows == |second| && j < partial.cols
    requires IsProduct(S.G, Swapped(S), Mat(1, |second|, second), partial, answer)
    ensures answer.At(0, j) == Dot(S.G, S.act, partial.Column(j), second)
  {
    var q, column := Mat(1, |second|, second), partial.Column(j);
    assert q.RowAt(0) == second;
    assert answer.At(0, j) == Cell(S.G, Swapped(S), q, partial, 0, j);
    assert Terms(Swapped(S), second, column) == Terms(S.act, column, second);
  }

  /** The second query selects, plaintext by plaintext, the embedding in its row. */
  lemma SecondDimensionSelects<C(!new)>(
    S: Scheme<C>, db: MatrixValue<Poly>, first: seq<C>, second: seq<C>, row: nat, partial: MatrixValue<Poly>,
    answer: MatrixValue<C>, j: nat)
    requires Homomorphic(S) && db.Valid() && |first| == db.cols && |second| == db.rows
    requires PartialAnswer(S, db, first, partial) && OneHot(S, second, row)
    requires IsProduct(S.G, Swapped(S), Mat(1, db.rows, second), partial, answer) && j < partial.cols
    ensures S.Plain(answer.At(0, j)) == Planes(S.P, S.residues(Dot(S.G, S.act, db.RowAt(row), first)))[j]
  {
    var column := partial.Column(j);
    AnswerIsDot(S, second, partial, answer, j);
    forall i | 0 <= i < db.rows
      ensures IsPoly(S.R, column[i])
      ensures column[i] == Planes(S.P, S.residues(Dot(S.G, S.act, db.RowAt(i), first)))[j]
    {
      PlanesArePolys(S, Dot(S.G, S.act, db.RowAt(i), first));
      assert column[i] == partial.RowAt(i)[j];
    }
    DotSelects(S, column, second, row);
  }

  /** calculate_final_answer: each client's second query times its partial answer. */
  method CalculateFinalAnswer<C(!new)>(
    S: Scheme<C>, clients: seq<nat>, second: map<nat, seq<C>>, partial: map<nat, MatrixValue<Poly>>)
    returns (answers: map<nat, MatrixValue<C>>)
    requires forall c | c in clients ::
      && c in second && c in partial && partial[c].Valid()
      && partial[c].rows == |second[c]| && |second[c]| > 0 && partial[c].cols > 0
    ensures answers.Keys == set c | c in clients
    ensures forall c | c in clients ::
      IsProduct(S.G, Swapped(S), Mat(1, |second[c]|, second[c]), partial[c], answers[c])
  {
    answers := map[];
    for i := 0 to |clients|
      invariant answers.Keys == set c | c in clients[..i]
      invariant forall c | c in clients[..i] ::
        IsProduct(S.G, Swapped(S), Mat(1, |second[c]|, second[c]), partial[c], answers[c])
    {
      var c := clients[i];
      var query := Mat(1, |second[c]|, second[c]);
      var result := new Matrix(1, partial[c].cols, S.G.zero);
      PosIsBijective(partial[c].rows, partial[c].cols, 0, 0);
      var res := MatMult(S.G, Swapped(S), query, partial[c], result);
      answers := answers[c := result.Value()];
      assert clients[..i + 1] == clients[..i] + [c];
    }
    assert clients[..|clients|] == clients;
  }

  /** What a client does with the final answer: decrypt each ciphertext, then compose. */
  ghost predicate Decoded<C(!new)>(S: Scheme<C>, answer: MatrixValue<C>, pts: seq<Poly>, back: Ct)
    requires Embedding.Usable(S.P) && answer.Valid()
  {
    && answer.rows == 1 && |pts| == answer.cols
    && (forall j | 0 <= j < |pts| :: Embedding.IsTrimmed(S.Plain(answer.At(0, j)), pts[j]))
    && Embedding.Ratio(S.P) > 0 && Embedding.IsComposition(S.P, pts, back)
  }

  /** From a right partial answer, the client gets the entry at its row and column. */
  lemma FinalAnswerIsEntry<C(!new)>(
    S: Scheme<C>, db: MatrixValue<Poly>, first: seq<C>, second: seq<C>, row: nat, col: nat,
    partial: MatrixValue<Poly>, answer: MatrixValue<C>, pts: seq<Poly>, back: Ct)
    requires Homomorphic(S) && db.Valid() && |first| == db.cols && |second| == db.rows
    requires Polys(S, db.data) && OneHot(S, first, col) && OneHot(S, second, row)
    requires PartialAnswer(S, db, first, partial)
    requires IsProduct(S.G, Swapped(S), Mat(1, db.rows, second), partial, answer)
    requires Decoded(S, answer, pts, back)
    ensures S.dec(back) == db.At(row, col)
  {
    var ct := Dot(S.G, S.act, db.RowAt(row), first);
    RowsArePolys(S, db, row);
    DotSelects(S, db.RowAt(row), first, col);
    var planes := Planes(S.P, S.residues(ct));
    DecomposedIsPlanes(S.P, S.residues(ct), planes);
    forall slot | 0 <= slot < |pts| ensures Embedding.IsTrimmed(planes[slot], pts[slot]) {
      SecondDimensionSelects(S, db, first, second, row, partial, answer, slot);
    }
    Embedding.RoundTrip(S.P, S.residues(ct), planes, pts, back);
  }

  lemma RowsArePolys<C(!new)>(S: Scheme<C>, db: MatrixValue<Poly>, row: nat)
    requires db.Valid() && Polys(S, db.data) && row < db.rows
    ensures Polys(S, db.RowAt(row))
  {
    forall j | 0 <= j < db.cols ensures IsPoly(S.R, db.RowAt(row)[j]) {
      PosIsBijective(db.rows, db.cols, row, j);
      assert db.RowAt(row)[j] == db.data[Pos(db.rows, row, j)];
    }
  }
}
