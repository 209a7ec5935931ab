/**
 The manager's check of a worker: what is prepared per epoch and per round, what is computed from
 the reply, and why an honest reply always passes and a wrong one almost never.
 */
module RowCheck {
  import opened Arith
  import opened Algebra
  import opened Counting
  import opened Matrices
  import opened Freivalds
  import opened Residues

  datatype Evaluator<!P, !C> = Evaluator(G: Group<C>, act: (P, C) -> C, scale: (nat, C) -> C, passes: C -> bool)

  /** A database entry and a scalar both act additively on ciphertexts, and in either order. */
  ghost predicate Linear<P(!new), C(!new)>(E: Evaluator<P, C>) {
    && Lawful(E.G)
    && (forall p :: AdditiveIn(E.G, E.act, p))
    && (forall s :: AdditiveIn(E.G, E.scale, s))
    && (forall p, s :: Commutes(E.act, p, E.scale, s))
    && Subgroup(E.G, E.passes)
  }

  // ----- preparing

  /** Entry i weighs entry i of the group's expanded queries. */
  function WeighedQueries<P, C>(
    E: Evaluator<P, C>, queries: seq<seq<C>>, length: nat, start: nat, vec: seq<nat>): (r: seq<C>)
    requires start + |vec| <= |queries| && forall q | 0 <= q < |queries| :: |queries[q]| == length
    ensures |r| == length
    ensures forall i | 0 <= i < length :: r[i] == Dot(E.G, E.scale, vec, Entries(queries, length, start, |vec|, i))
  {
    seq(length, i requires 0 <= i < length => Dot(E.G, E.scale, vec, Entries(queries, length, start, |vec|, i)))
  }

  /** Entry i of each of the given queries. */
  function Entries<C>(queries: seq<seq<C>>, length: nat, start: nat, size: nat, i: nat): (r: seq<C>)
    requires start + size <= |queries| && i < length && forall q | 0 <= q < |queries| :: |queries[q]| == length
    ensures |r| == size && forall j | 0 <= j < size :: r[j] == queries[start + j][i]
  {
    seq(size, j requires 0 <= j < size => queries[start + j][i])
  }

  /** One group's query matrix, one query a column. */
  method GroupMatrix<C>(queries: seq<seq<C>>, length: nat, start: nat, size: nat, fill: C) returns (mat: MatrixValue<C>)
    requires start + size <= |queries| && forall q | 0 <= q < |queries| :: |queries[q]| == length
    ensures mat.Valid() && mat.rows == length && mat.cols == size
    ensures forall i, j | 0 <= i < length && 0 <= j < size :: mat.At(i, j) == queries[start + j][i]
  {
    var m := new Matrix(length, size, fill);
    for column := start to start + size
      invariant m.Valid() && m.rows == length && m.cols == size
      invariant forall i, j | 0 <= i < length && 0 <= j < column - start :: m.Value().At(i, j) == queries[start + j][i]
    {
      var v := queries[column];
      for i := 0 to length
        invariant m.Valid() && m.rows == length && m.cols == size
        invariant forall a, j | 0 <= a < length && 0 <= j <= column - start && (j < column - start || a < i) ::
          m.Value().At(a, j) == queries[start + j][a]
      {
        m.Set(i, column - start, v[i]);
      }
    }
    mat := m.Value();
  }

  /** freivald_preprocess: for each group, the query matrix times the random vector. */
  method FreivaldPreprocess<P, C>(E: Evaluator<P, C>, queries: seq<seq<C>>, length: nat, groups: nat, vec: seq<nat>)
    returns (weighed: seq<MatrixValue<C>>)
    requires groups * |vec| <= |queries| && forall q | 0 <= q < |queries| :: |queries[q]| == length
    ensures |weighed| == groups
    ensures forall g | 0 <= g < groups ::
      && g * |vec| + |vec| <= |queries|
      && weighed[g] == Mat(length, 1, WeighedQueries(E, queries, length, g * |vec|, vec))
  {
    weighed := [];
    var group := 0;
    while group < groups
      invariant group <= groups && |weighed| == group
      invariant forall g | 0 <= g < group ::
        && g * |vec| + |vec| <= |queries|
        && weighed[g] == Mat(length, 1, WeighedQueries(E, queries, length, g * |vec|, vec))
    {
      var start := group * |vec|;
      GroupFits(group, groups, |vec|);
      var mat := GroupMatrix(queries, length, start, |vec|, E.G.zero);
      var product := WeighRows(E.G, E.scale, mat, vec);
      forall i | 0 <= i < length ensures product.data[i] == WeighedQueries(E, queries, length, start, vec)[i] {
        assert mat.RowAt(i) == Entries(queries, length, start, |vec|, i);
      }
      assert product.data == WeighedQueries(E, queries, length, start, vec);
      weighed := weighed + [product];
      group := group + 1;
    }
  }

  lemma GroupFits(group: nat, groups: nat, size: nat)
    requires group < groups
    ensures group * size + size <= groups * size
  {
    assert groups * size == group * size + size + (groups - group - 1) * size;
  }

  /** What new_ledger stores for a row: the row times the weighed queries. */
  function Expected<P, C>(E: Evaluator<P, C>, dbRow: seq<P>, queries: seq<seq<C>>, start: nat, vec: seq<nat>): C
    requires start + |vec| <= |queries| && forall q | 0 <= q < |queries| :: |queries[q]| == |dbRow|
  {
    Dot(E.G, E.act, dbRow, WeighedQueries(E, queries, |dbRow|, start, vec))
  }

  ghost predicate LedgerHolds<P, C>(
    E: Evaluator<P, C>, db: MatrixValue<P>, queries: seq<seq<C>>, g: nat, vec: seq<nat>,
    expected: MatrixValue<C>)
    requires db.Valid() && forall q | 0 <= q < |queries| :: |queries[q]| == db.cols
  {
    && g * |vec| + |vec| <= |queries| && |expected.data| == db.rows
    && forall row | 0 <= row < db.rows ::
         expected.data[row] == Expected(E, db.RowAt(row), queries, g * |vec|, vec)
  }

  /** new_ledger: the database times each group's weighed queries. */
  method PrepareLedger<P, C>(E: Evaluator<P, C>, db: MatrixValue<P>, queries: seq<seq<C>>, groups: nat, vec: seq<nat>)
    returns (expected: seq<MatrixValue<C>>)
    requires db.Valid() && |db.data| > 0
    requires groups * |vec| <= |queries| && forall q | 0 <= q < |queries| :: |queries[q]| == db.cols
    ensures |expected| == groups
    ensures forall g | 0 <= g < groups :: LedgerHolds(E, db, queries, g, vec, expected[g])
  {
    var weighed := FreivaldPreprocess(E, queries, db.cols, groups, vec);
    DatabaseHasCells(db);
    expected := [];
    for i := 0 to groups
      invariant |expected| == i
      invariant forall g | 0 <= g < i :: LedgerHolds(E, db, queries, g, vec, expected[g])
    {
      var result := new Matrix(db.rows, 1, E.G.zero);
      var res := MatMult(E.G, E.act, db, weighed[i], result);
      LedgerCells(E, db, queries, i, vec, weighed[i], result.Value());
      expected := expected + [result.Value()];
    }
  }

  lemma LedgerCells<P, C>(
    E: Evaluator<P, C>, db: MatrixValue<P>, queries: seq<seq<C>>, g: nat, vec: seq<nat>,
    weighed: MatrixValue<C>, result: MatrixValue<C>)
    requires db.Valid() && forall q | 0 <= q < |queries| :: |queries[q]| == db.cols
    requires g * |vec| + |vec| <= |queries|
    requires weighed == Mat(db.cols, 1, WeighedQueries(E, queries, db.cols, g * |vec|, vec))
    requires IsProduct(E.G, E.act, db, weighed, result)
    ensures LedgerHolds(E, db, queries, g, vec, result)
  {
    forall row | 0 <= row < db.rows
      ensures result.data[row] == Expected(E, db.RowAt(row), queries, g * |vec|, vec)
    {
      assert result.At(row, 0) == Cell(E.G, E.act, db, weighed, row, 0);
      assert weighed.Column(0) == weighed.data;
    }
  }

  lemma DatabaseHasCells<P>(db: MatrixValue<P>)
    requires db.Valid() && |db.data| > 0
    ensures db.rows > 0 && db.cols > 0
  {
  }

  // ----- checking

  ghost predicate RowAccepted<P, C>(E: Evaluator<P, C>, reply: seq<C>, expected: C, vec: seq<nat>)
    requires |reply| == |vec|
  {
    E.passes(E.G.Sub(Dot(E.G, E.scale, vec, reply), expected))
  }

  method VerifyRow<P, C>(E: Evaluator<P, C>, reply: MatrixValue<C>, expected: MatrixValue<C>, rowId: nat, vec: seq<nat>)
    returns (ok: bool)
    requires reply.Valid() && reply.rows == |vec| && reply.cols == 1 && rowId < |expected.data|
    ensures ok <==> RowAccepted(E, reply.data, expected.data[rowId], vec)
  {
    var product := WeighColumns(E.G, E.scale, reply, vec);
    assert reply.Column(0) == reply.data;
    var difference := E.G.Sub(product.data[0], expected.data[rowId]);
    ok := E.passes(difference);
  }

  /** Row i of the reply: the parts from i*len on. */
  function ReplyRow<C>(parts: seq<C>, len: nat, i: nat): (r: seq<C>)
    requires i * len + len <= |parts|
    ensures |r| == len && forall j | 0 <= j < len :: r[j] == parts[i * len + j]
  {
    parts[i * len..i * len + len]
  }

  /** Every row of the reply, read by position, is accepted. */
  ghost predicate RowsAccepted<P, C>(
    E: Evaluator<P, C>, parts: seq<C>, rows: seq<nat>, expected: MatrixValue<C>, vec: seq<nat>) {
    forall i | 0 <= i < |rows| :: RowAcceptedAt(E, parts, rows, expected, vec, i)
  }

  ghost predicate RowAcceptedAt<P, C>(
    E: Evaluator<P, C>, parts: seq<C>, rows: seq<nat>, expected: MatrixValue<C>, vec: seq<nat>, i: nat)
    requires i < |rows|
  {
    && i * |vec| + |vec| <= |parts| && rows[i] < |expected.data|
    && RowAccepted(E, ReplyRow(parts, |vec|, i), expected.data[rows[i]], vec)
  }

  /** Reading past the end of the reply, or of what was prepared for the group: undefined in the source. */
  datatype CheckError = PastTheReply | PastThePrepared

  /** Row i is the first that is not accepted, and not all of it is there. */
  ghost predicate BreaksOffAt<P, C>(
    E: Evaluator<P, C>, parts: seq<C>, rows: seq<nat>, expected: MatrixValue<C>, vec: seq<nat>, i: nat)
  {
    && i < |rows| && i * |vec| + |vec| > |parts|
    && forall a | 0 <= a < i :: RowAcceptedAt(E, parts, rows, expected, vec, a)
  }

  /** Row i is the first that is not accepted, it is there, and nothing was prepared for it. */
  ghost predicate UnpreparedAt<P, C>(
    E: Evaluator<P, C>, parts: seq<C>, rows: seq<nat>, expected: MatrixValue<C>, vec: seq<nat>, i: nat)
  {
    && i < |rows| && i * |vec| + |vec| <= |parts| && rows[i] >= |expected.data|
    && forall a | 0 <= a < i :: RowAcceptedAt(E, parts, rows, expected, vec, a)
  }

  /** What checking a reply comes to. */
  ghost function Verdict<P, C>(
    E: Evaluator<P, C>, parts: seq<C>, rows: seq<nat>, expected: MatrixValue<C>, vec: seq<nat>)
    : (res: Result<bool, CheckError>)
    ensures res == Failure(PastThePrepared) <==> exists i: nat :: UnpreparedAt(E, parts, rows, expected, vec, i)
    ensures res == Success(true) <==> RowsAccepted(E, parts, rows, expected, vec)
  {
    if i: nat :| BreaksOffAt(E, parts, rows, expected, vec, i) then
      OneEnd(E, parts, rows, expected, vec, i);
      Failure(PastTheReply)
    else if i: nat :| UnpreparedAt(E, parts, rows, expected, vec, i) then
      OneEnd(E, parts, rows, expected, vec, i);
      Failure(PastThePrepared)
    else Success(RowsAccepted(E, parts, rows, expected, vec))
  }

  /** A check that ends at a missing row, of the reply or of what was prepared, ends there only. */
  lemma OneEnd<P, C>(
    E: Evaluator<P, C>, parts: seq<C>, rows: seq<nat>, expected: MatrixValue<C>, vec: seq<nat>, i: nat)
    requires BreaksOffAt(E, parts, rows, expected, vec, i) || UnpreparedAt(E, parts, rows, expected, vec, i)
    ensures !RowsAccepted(E, parts, rows, expected, vec)
    ensures forall a: nat | BreaksOffAt(E, parts, rows, expected, vec, a) ::
      a == i && !UnpreparedAt(E, parts, rows, expected, vec, i)
    ensures forall a: nat | UnpreparedAt(E, parts, rows, expected, vec, a) ::
      a == i && !BreaksOffAt(E, parts, rows, expected, vec, i)
  {
    assert !RowAcceptedAt(E, parts, rows, expected, vec, i);
    forall a: nat | BreaksOffAt(E, parts, rows, expected, vec, a) || UnpreparedAt(E, parts, rows, expected, vec, a)
      ensures a == i
    {
      assert !RowAcceptedAt(E, parts, rows, expected, vec, a);
    }
  }

  lemma EndsAt<P, C>(
    E: Evaluator<P, C>, parts: seq<C>, rows: seq<nat>, expected: MatrixValue<C>, vec: seq<nat>, i: nat)
    requires i < |rows| && !RowAcceptedAt(E, parts, rows, expected, vec, i)
    requires forall a | 0 <= a < i :: RowAcceptedAt(E, parts, rows, expected, vec, a)
    ensures Verdict(E, parts, rows, expected, vec) ==
      if i * |vec| + |vec| > |parts| then Failure(PastTheReply)
      else if rows[i] >= |expected.data| then Failure(PastThePrepared)
      else Success(false)
  {
    if i * |vec| + |vec| > |parts| {
      assert BreaksOffAt(E, parts, rows, expected, vec, i);
    } else if rows[i] >= |expected.data| {
      assert UnpreparedAt(E, parts, rows, expected, vec, i);
      OneEnd(E, parts, rows, expected, vec, i);
    } else {
      forall a: nat
        ensures !BreaksOffAt(E, parts, rows, expected, vec, a) && !UnpreparedAt(E, parts, rows, expected, vec, a)
      {
        if a < i { assert RowAcceptedAt(E, parts, rows, expected, vec, a); }
      }
    }
  }

  lemma AcceptsAll<P, C>(
    E: Evaluator<P, C>, parts: seq<C>, rows: seq<nat>, expected: MatrixValue<C>, vec: seq<nat>)
    requires RowsAccepted(E, parts, rows, expected, vec)
    ensures Verdict(E, parts, rows, expected, vec) == Success(true)
  {
    forall a: nat
      ensures !BreaksOffAt(E, parts, rows, expected, vec, a) && !UnpreparedAt(E, parts, rows, expected, vec, a)
    {
      if a < |rows| { assert RowAcceptedAt(E, parts, rows, expected, vec, a); }
    }
  }

  /** What the loop meets in row i: None if it is accepted. */
  method CheckRow<P, C>(
    E: Evaluator<P, C>, parts: seq<C>, rows: seq<nat>, expected: MatrixValue<C>, vec: seq<nat>, i: nat)
    returns (ends: Option<Result<bool, CheckError>>)
    requires i < |rows| && forall a | 0 <= a < i :: RowAcceptedAt(E, parts, rows, expected, vec, a)
    ensures ends.None? <==> RowAcceptedAt(E, parts, rows, expected, vec, i)
    ensures ends.Some? ==> ends.value == Verdict(E, parts, rows, expected, vec)
  {
    var mpdata: seq<C> := [];
    for j := 0 to |vec|
      invariant |mpdata| == j && (j > 0 ==> i * |vec| + j <= |parts|)
      invariant forall b | 0 <= b < j :: i * |vec| + b < |parts| && mpdata[b] == parts[i * |vec| + b]
    {
      if j + i * |vec| >= |parts| {
        assert i * |vec| + |vec| > |parts|;
        EndsAt(E, parts, rows, expected, vec, i);
        return Some(Failure(PastTheReply));
      }
      mpdata := mpdata + [parts[j + i * |vec|]];
    }
    assert |vec| == 0 ==> i * |vec| == 0;
    assert mpdata == ReplyRow(parts, |vec|, i);
    if rows[i] >= |expected.data| {
      EndsAt(E, parts, rows, expected, vec, i);
      return Some(Failure(PastThePrepared));
    }
    var ok := VerifyRow(E, Mat(|vec|, 1, mpdata), expected, rows[i], vec);
    assert ok <==> RowAcceptedAt(E, parts, rows, expected, vec, i);
    if !ok {
      EndsAt(E, parts, rows, expected, vec, i);
      return Some(Success(false));
    }
    ends := None;
  }

  /** async_verify_worker: every row must pass. A rejected row ends the check before anything missing is reached. */
  method VerifyWorker<P, C>(E: Evaluator<P, C>, parts: seq<C>, rows: seq<nat>, expected: MatrixValue<C>, vec: seq<nat>)
    returns (res: Result<bool, CheckError>)
    ensures res == Success(true) <==> RowsAccepted(E, parts, rows, expected, vec)
    ensures res == Failure(PastTheReply) <==> exists i: nat :: BreaksOffAt(E, parts, rows, expected, vec, i)
    ensures res == Failure(PastThePrepared) <==> exists i: nat :: UnpreparedAt(E, parts, rows, expected, vec, i)
    ensures res == Verdict(E, parts, rows, expected, vec)
  {
    for i := 0 to |rows|
      invariant forall a | 0 <= a < i :: RowAcceptedAt(E, parts, rows, expected, vec, a)
    {
      var ends := CheckRow(E, parts, rows, expected, vec, i);
      if ends.Some? {
        return ends.value;
      }
    }
    AcceptsAll(E, parts, rows, expected, vec);
    return Success(true);
  }

  // ----- what the check is worth

  /** The products an honest worker returns for a row: one for each query of its group. */
  function HonestRow<P, C>(E: Evaluator<P, C>, dbRow: seq<P>, queries: seq<seq<C>>, start: nat, size: nat): (r: seq<C>)
    requires start + size <= |queries| && forall q | 0 <= q < |queries| :: |queries[q]| == |dbRow|
    ensures |r| == size && forall j | 0 <= j < size :: r[j] == Dot(E.G, E.act, dbRow, queries[start + j])
  {
    seq(size, j requires 0 <= j < size => Dot(E.G, E.act, dbRow, queries[start + j]))
  }

  /** What was prepared is what weighing the honest products gives: row * (Q * r) == (row * Q) * r. */
  lemma ExpectedIsHonest<P(!new), C(!new)>(
    E: Evaluator<P, C>, dbRow: seq<P>, queries: seq<seq<C>>, start: nat, vec: seq<nat>)
    requires Linear(E)
    requires start + |vec| <= |queries| && forall q | 0 <= q < |queries| :: |queries[q]| == |dbRow|
    ensures Expected(E, dbRow, queries, start, vec)
            == Dot(E.G, E.scale, vec, HonestRow(E, dbRow, queries, start, |vec|))
  {
    var weighed, honest := WeighedQueries(E, queries, |dbRow|, start, vec), HonestRow(E, dbRow, queries, start, |vec|);
    var x := (k: nat, j: nat) => if k < |dbRow| && j < |vec| then queries[start + j][k] else E.G.zero;
    forall k | 0 <= k < |dbRow| ensures weighed[k] == Dot(E.G, E.scale, vec, Row(x, k, |vec|)) {
      assert Row(x, k, |vec|) == Entries(queries, |dbRow|, start, |vec|, k);
    }
    forall j | 0 <= j < |vec| ensures honest[j] == Dot(E.G, E.act, dbRow, Row(Flip(x), j, |dbRow|)) {
      assert Row(Flip(x), j, |dbRow|) == queries[start + j];
    }
    ExchangeWeights(E.G, E.scale, E.act, vec, dbRow, x, weighed, honest);
  }

  /** Whatever the database, the queries and the random vector, an honest row passes. */
  lemma HonestRowIsAccepted<P(!new), C(!new)>(
    E: Evaluator<P, C>, dbRow: seq<P>, queries: seq<seq<C>>, start: nat, vec: seq<nat>)
    requires Linear(E)
    requires start + |vec| <= |queries| && forall q | 0 <= q < |queries| :: |queries[q]| == |dbRow|
    ensures RowAccepted(E, HonestRow(E, dbRow, queries, start, |vec|), Expected(E, dbRow, queries, start, vec), vec)
  {
    ExpectedIsHonest(E, dbRow, queries, start, vec);
    var x := Expected(E, dbRow, queries, start, vec);
    Laws(E.G, x, x, x);
  }

  ghost function AcceptingRow<P, C>(
    E: Evaluator<P, C>, S: set<nat>, dbRow: seq<P>, queries: seq<seq<C>>, start: nat, reply: seq<C>): set<seq<nat>>
    requires start + |reply| <= |queries| && forall q | 0 <= q < |queries| :: |queries[q]| == |dbRow|
  {
    set v | v in Challenges(S, |reply|) && |v| == |reply|
        && RowAccepted(E, reply, Expected(E, dbRow, queries, start, v), v)
  }

  lemma AcceptingRowSurvives<P(!new), C(!new)>(
    E: Evaluator<P, C>, S: set<nat>, dbRow: seq<P>, queries: seq<seq<C>>, start: nat, reply: seq<C>, d: seq<C>)
    requires Linear(E)
    requires start + |reply| <= |queries| && forall q | 0 <= q < |queries| :: |queries[q]| == |dbRow|
    requires |d| == |reply|
    requires forall i | 0 <= i < |d| :: d[i] == E.G.Sub(reply[i], HonestRow(E, dbRow, queries, start, |reply|)[i])
    ensures AcceptingRow(E, S, dbRow, queries, start, reply) <= Surviving(E.G, E.scale, E.passes, S, d)
  {
    var honest := HonestRow(E, dbRow, queries, start, |reply|);
    forall v | v in AcceptingRow(E, S, dbRow, queries, start, reply)
      ensures v in Surviving(E.G, E.scale, E.passes, S, d)
    {
      ExpectedIsHonest(E, dbRow, queries, start, v);
      DifferenceWeighed(E, v, reply, honest, d);
    }
  }

  /** A row with any wrong entry passes for at most one in |S| of the challenges. */
  lemma WrongRowIsCaught<P(!new), C(!new)>(
    E: Evaluator<P, C>, S: set<nat>, dbRow: seq<P>, queries: seq<seq<C>>, start: nat, reply: seq<C>, j: nat)
    requires Linear(E) && Separates(E.G, E.scale, E.passes, S)
    requires start + |reply| <= |queries| && forall q | 0 <= q < |queries| :: |queries[q]| == |dbRow|
    requires j < |reply| && !E.passes(E.G.Sub(reply[j], HonestRow(E, dbRow, queries, start, |reply|)[j]))
    ensures |AcceptingRow(E, S, dbRow, queries, start, reply)| <= Power(|S|, |reply| - 1)
    ensures |Challenges(S, |reply|)| == Power(|S|, |reply|)
  {
    var honest := HonestRow(E, dbRow, queries, start, |reply|);
    var d := seq(|reply|, i requires 0 <= i < |reply| => E.G.Sub(reply[i], honest[i]));
    AcceptingRowSurvives(E, S, dbRow, queries, start, reply, d);
    FewSurvive(E.G, E.scale, E.passes, S, d, j);
    SubsetSize(AcceptingRow(E, S, dbRow, queries, start, reply), Surviving(E.G, E.scale, E.passes, S, d));
    ChallengeCount(S, |reply|);
  }

  /** All of these challenges accept the reply. */
  ghost predicate AllAccept<P, C>(
    E: Evaluator<P, C>, S: set<nat>, dbRow: seq<P>, queries: seq<seq<C>>, start: nat, reply: seq<C>, X: set<seq<nat>>)
    requires start + |reply| <= |queries| && forall q | 0 <= q < |queries| :: |queries[q]| == |dbRow|
  {
    forall v | v in X ::
      v in Challenges(S, |reply|) && |v| == |reply| && RowAccepted(E, reply, Expected(E, dbRow, queries, start, v), v)
  }

  lemma FewAccept<P(!new), C(!new)>(
    E: Evaluator<P, C>, S: set<nat>, dbRow: seq<P>, queries: seq<seq<C>>, start: nat, reply: seq<C>, j: nat,
    X: set<seq<nat>>, k: nat)
    requires Linear(E) && Separates(E.G, E.scale, E.passes, S)
    requires start + |reply| <= |queries| && forall q | 0 <= q < |queries| :: |queries[q]| == |dbRow|
    requires j < |reply| && !E.passes(E.G.Sub(reply[j], HonestRow(E, dbRow, queries, start, |reply|)[j]))
    requires AllAccept(E, S, dbRow, queries, start, reply, X)
    requires k == |reply|
    ensures AreRare(X, S, k)
  {
    WrongRowIsCaught(E, S, dbRow, queries, start, reply, j);
    SubsetSize(X, AcceptingRow(E, S, dbRow, queries, start, reply));
    ChallengeCount(S, k);
  }

  lemma DifferenceWeighed<P(!new), C(!new)>(E: Evaluator<P, C>, v: seq<nat>, a: seq<C>, b: seq<C>, d: seq<C>)
    requires Linear(E) && |v| == |a| == |b| == |d|
    requires forall i | 0 <= i < |d| :: d[i] == E.G.Sub(a[i], b[i])
    ensures Dot(E.G, E.scale, v, d) == E.G.Sub(Dot(E.G, E.scale, v, a), Dot(E.G, E.scale, v, b))
  {
    var ta, tb, td := Terms(E.scale, v, a), Terms(E.scale, v, b), Terms(E.scale, v, d);
    forall i | 0 <= i < |d| ensures td[i] == E.G.Sub(ta[i], tb[i]) {
      AdditiveInAt(E.G, E.scale, v[i], a[i], E.G.neg(b[i]));
      AdditiveNeg(E.G, E.G, (c: C) => E.scale(v[i], c), b[i]);
    }
    SumSubs(E.G, ta, tb, td);
  }

  // ----- one word of the ciphertexts

  /** A map to the integers that reads one word of a ciphertext: additive, and scaled with it. */
  ghost predicate ReadsWord<P, C(!new)>(E: Evaluator<P, C>, word: C -> int) {
    && Additive(E.G, Integers(), word)
    && forall s: nat, c :: word(E.scale(s, c)) == s * word(c)
  }

  /** The zero test of one word alone. */
  function WordAlone<P, C>(E: Evaluator<P, C>, word: C -> int, p: nat): Evaluator<P, C>
    requires p > 0
  {
    E.(passes := (c: C) => word(c) % p == 0)
  }

  lemma WordOfDifference<P, C(!new)>(E: Evaluator<P, C>, word: C -> int, x: C, y: C)
    requires Lawful(E.G) && ReadsWord(E, word)
    ensures word(E.G.Sub(x, y)) == word(x) - word(y)
  {
    MultiplesFormSubgroup(1);
    AdditiveAt(E.G, Integers(), word, x, E.G.neg(y));
    AdditiveNeg(E.G, Integers(), word, y);
  }

  lemma WordAloneIsLinear<P(!new), C(!new)>(E: Evaluator<P, C>, word: C -> int, p: nat)
    requires Linear(E) && ReadsWord(E, word) && p > 0
    ensures Linear(WordAlone(E, word, p))
  {
    var E' := WordAlone(E, word, p);
    forall x, y | E'.passes(x) && E'.passes(y) ensures E'.passes(E.G.Sub(x, y)) {
      WordOfDifference(E, word, x, y);
      DividesAdds(p, word(y), -1, word(x));
    }
  }

  lemma WordAloneSeparates<P(!new), C(!new)>(E: Evaluator<P, C>, word: C -> int, p: nat, S: set<nat>)
    requires Linear(E) && ReadsWord(E, word) && Prime(p) && DistinctModulo(S, p)
    ensures Separates(E.G, E.scale, WordAlone(E, word, p).passes, S)
  {
    var passes := WordAlone(E, word, p).passes;
    forall s, r, d | s in S && r in S && s != r && passes(E.G.Sub(E.scale(s, d), E.scale(r, d))) ensures passes(d) {
      WordOfDifference(E, word, E.scale(s, d), E.scale(r, d));
      ScalarsSeparate(p, s, r, word(d));
    }
  }

  /**
   In whole ciphertexts, whatever else they hold: when the zero test looks for multiples of a prime
   p in some word, and the scalars are distinct modulo p, a reply row that is wrong in that word of
   any entry passes for at most |S|^(k-1) of the |S|^k challenge vectors.
   */
  lemma WrongWordIsCaught<P(!new), C(!new)>(
    E: Evaluator<P, C>, word: C -> int, p: nat, S: set<nat>, dbRow: seq<P>, queries: seq<seq<C>>, start: nat,
    reply: seq<C>, j: nat)
    requires Linear(E) && ReadsWord(E, word) && Prime(p) && DistinctModulo(S, p)
    requires forall c :: E.passes(c) ==> Divides(p, word(c))
    requires start + |reply| <= |queries| && forall q | 0 <= q < |queries| :: |queries[q]| == |dbRow|
    requires j < |reply|
    requires !Divides(p, word(reply[j]) - word(HonestRow(E, dbRow, queries, start, |reply|)[j]))
    ensures |AcceptingRow(E, S, dbRow, queries, start, reply)| <= Power(|S|, |reply| - 1)
    ensures |Challenges(S, |reply|)| == Power(|S|, |reply|)
  {
    var E' := WordAlone(E, word, p);
    WordAloneIsLinear(E, word, p);
    WordAloneSeparates(E, word, p, S);
    SameHonestRow(E, E', dbRow, queries, start, |reply|);
    WordOfDifference(E, word, reply[j], HonestRow(E, dbRow, queries, start, |reply|)[j]);
    WrongRowIsCaught(E', S, dbRow, queries, start, reply, j);
    WordAloneAcceptsMore(E, E', S, dbRow, queries, start, reply);
  }

  lemma FewAcceptWord<P(!new), C(!new)>(
    E: Evaluator<P, C>, word: C -> int, p: nat, S: set<nat>, dbRow: seq<P>, queries: seq<seq<C>>, start: nat,
    reply: seq<C>, j: nat, X: set<seq<nat>>, k: nat)
    requires Linear(E) && ReadsWord(E, word) && Prime(p) && DistinctModulo(S, p)
    requires forall c :: E.passes(c) ==> Divides(p, word(c))
    requires start + |reply| <= |queries| && forall q | 0 <= q < |queries| :: |queries[q]| == |dbRow|
    requires j < |reply|
    requires !Divides(p, word(reply[j]) - word(HonestRow(E, dbRow, queries, start, |reply|)[j]))
    requires AllAccept(E, S, dbRow, queries, start, reply, X) && k == |reply|
    ensures AreRare(X, S, k)
  {
    WrongWordIsCaught(E, word, p, S, dbRow, queries, start, reply, j);
    SubsetSize(X, AcceptingRow(E, S, dbRow, queries, start, reply));
  }

  /** The zero test has no part in what is prepared or replied. */
  lemma SameHonestRow<P, C>(
    E: Evaluator<P, C>, E': Evaluator<P, C>, dbRow: seq<P>, queries: seq<seq<C>>, start: nat, size: nat)
    requires E.G == E'.G && E.act == E'.act
    requires start + size <= |queries| && forall q | 0 <= q < |queries| :: |queries[q]| == |dbRow|
    ensures HonestRow(E, dbRow, queries, start, size) == HonestRow(E', dbRow, queries, start, size)
  {
  }

  lemma WordAloneAcceptsMore<P(!new), C(!new)>(
    E: Evaluator<P, C>, E': Evaluator<P, C>, S: set<nat>, dbRow: seq<P>, queries: seq<seq<C>>, start: nat,
    reply: seq<C>)
    requires E.G == E'.G && E.act == E'.act && E.scale == E'.scale && forall c :: E.passes(c) ==> E'.passes(c)
    requires start + |reply| <= |queries| && forall q | 0 <= q < |queries| :: |queries[q]| == |dbRow|
    ensures |AcceptingRow(E, S, dbRow, queries, start, reply)| <= |AcceptingRow(E', S, dbRow, queries, start, reply)|
  {
    forall v | v in AcceptingRow(E, S, dbRow, queries, start, reply)
      ensures v in AcceptingRow(E', S, dbRow, queries, start, reply)
    {
      assert WeighedQueries(E, queries, |dbRow|, start, v) == WeighedQueries(E', queries, |dbRow|, start, v);
    }
    SubsetSize(AcceptingRow(E, S, dbRow, queries, start, reply), AcceptingRow(E', S, dbRow, queries, start, reply));
  }

  // ----- ciphertexts as vectors of residues

  /**
   Ciphertexts in NTT form: a vector of residues, word i modulo primes[i]. Database entries multiply
   word by word, scalars multiply every word, and the zero test wants every word to be zero.
   */
  function WordEvaluator(primes: seq<nat>): Evaluator<Words, Words>
    requires AllPrime(primes)
  {
    Evaluator(WordGroup(), (p: Words, x: Words) => MultiplyWords(p, x), (s: nat, x: Words) => ScaleWords(s, x),
              (x: Words) => AllMultiples(primes, x))
  }

  lemma Distributes(a: int, x: int, y: int)
    ensures a * (x + y) == a * x + a * y
  {
  }

  lemma FactorsSwap(a: int, s: nat, x: int)
    ensures a * (s * x) == s * (a * x)
  {
  }

  lemma ScaleOfSum(s: nat, x: Words, y: Words)
    ensures ScaleWords(s, AddWords(x, y)) == AddWords(ScaleWords(s, x), ScaleWords(s, y))
  {
    var a, b := ScaleWords(s, AddWords(x, y)), AddWords(ScaleWords(s, x), ScaleWords(s, y));
    forall i: nat ensures Word(a, i) == Word(b, i) { Distributes(s, Word(x, i), Word(y, i)); }
    SameWords(a, b);
  }

  lemma ProductOfSum(p: Words, x: Words, y: Words)
    ensures MultiplyWords(p, AddWords(x, y)) == AddWords(MultiplyWords(p, x), MultiplyWords(p, y))
  {
    var a, b := MultiplyWords(p, AddWords(x, y)), AddWords(MultiplyWords(p, x), MultiplyWords(p, y));
    forall i: nat ensures Word(a, i) == Word(b, i) { Distributes(Word(p, i), Word(x, i), Word(y, i)); }
    SameWords(a, b);
  }

  lemma ProductOfScaled(p: Words, s: nat, x: Words)
    ensures MultiplyWords(p, ScaleWords(s, x)) == ScaleWords(s, MultiplyWords(p, x))
  {
    var a, b := MultiplyWords(p, ScaleWords(s, x)), ScaleWords(s, MultiplyWords(p, x));
    forall i: nat ensures Word(a, i) == Word(b, i) { FactorsSwap(Word(p, i), s, Word(x, i)); }
    SameWords(a, b);
  }

  lemma ScalingWordsIsAdditive(primes: seq<nat>, s: nat)
    requires AllPrime(primes)
    ensures AdditiveIn(WordGroup(), WordEvaluator(primes).scale, s)
  {
    SameWords(ScaleWords(s, []), []);
    forall x: Words, y: Words ensures ScaleWords(s, AddWords(x, y)) == AddWords(ScaleWords(s, x), ScaleWords(s, y)) {
      ScaleOfSum(s, x, y);
    }
  }

  lemma MultiplyingWordsIsAdditive(primes: seq<nat>, p: Words)
    requires AllPrime(primes)
    ensures AdditiveIn(WordGroup(), WordEvaluator(primes).act, p)
  {
    SameWords(MultiplyWords(p, []), []);
    forall x: Words, y: Words
      ensures MultiplyWords(p, AddWords(x, y)) == AddWords(MultiplyWords(p, x), MultiplyWords(p, y))
    {
      ProductOfSum(p, x, y);
    }
  }

  lemma WordsCommute(primes: seq<nat>, p: Words, s: nat)
    requires AllPrime(primes)
    ensures Commutes(WordEvaluator(primes).act, p, WordEvaluator(primes).scale, s)
  {
    forall x: Words ensures MultiplyWords(p, ScaleWords(s, x)) == ScaleWords(s, MultiplyWords(p, x)) {
      ProductOfScaled(p, s, x);
    }
  }

  lemma ZeroTestIsSubgroup(primes: seq<nat>)
    requires AllPrime(primes)
    ensures Subgroup(WordGroup(), WordEvaluator(primes).passes)
  {
    forall x: Words, y: Words | AllMultiples(primes, x) && AllMultiples(primes, y)
      ensures AllMultiples(primes, AddWords(x, NegWords(y)))
    {
      forall i | 0 <= i < |primes| ensures Word(AddWords(x, NegWords(y)), i) % primes[i] == 0 {
        assert Prime(primes[i]);
        DividesAdds(primes[i], Word(y, i), -1, Word(x, i));
      }
    }
    forall i | 0 <= i < |primes| ensures Word([], i) % primes[i] == 0 { ModMultiple(0, primes[i]); }
  }

  lemma WordsAreLinear(primes: seq<nat>)
    requires AllPrime(primes)
    ensures Linear(WordEvaluator(primes))
  {
    var E := WordEvaluator(primes);
    WordsFormGroup();
    ZeroTestIsSubgroup(primes);
    forall s: nat ensures AdditiveIn(E.G, E.scale, s) { ScalingWordsIsAdditive(primes, s); }
    forall p: Words ensures AdditiveIn(E.G, E.act, p) { MultiplyingWordsIsAdditive(primes, p); }
    forall p: Words, s: nat ensures Commutes(E.act, p, E.scale, s) { WordsCommute(primes, p, s); }
  }

  function ReadWord(i: nat): Words -> int {
    (w: Words) => Word(w, i)
  }

  lemma EveryWordIsRead(primes: seq<nat>, i: nat)
    requires AllPrime(primes) && i < |primes|
    ensures ReadsWord(WordEvaluator(primes), ReadWord(i))
    ensures forall c :: WordEvaluator(primes).passes(c) ==> primes[i] > 0 && Divides(primes[i], ReadWord(i)(c))
  {
    ReadingIsAdditive(i);
    forall s: nat, c: Words ensures ReadWord(i)(ScaleWords(s, c)) == s * ReadWord(i)(c) { ReadingScales(s, c, i); }
    assert Prime(primes[i]);
  }

  lemma ReadingIsAdditive(i: nat)
    ensures Additive(WordGroup(), Integers(), ReadWord(i))
  {
  }

  lemma ReadingScales(s: nat, c: Words, i: nat)
    ensures ReadWord(i)(ScaleWords(s, c)) == s * ReadWord(i)(c)
  {
  }

  /**
   The scalar form as the manager runs it: a reply row that is wrong at some residue i of some entry,
   modulo that residue's prime, with scalars distinct modulo it, passes for at most |S|^(k-1) of the
   |S|^k challenge vectors.
   */
  lemma WrongResidueIsCaught(
    primes: seq<nat>, i: nat, S: set<nat>, dbRow: seq<Words>, queries: seq<seq<Words>>, start: nat,
    reply: seq<Words>, j: nat)
    requires AllPrime(primes) && i < |primes| && primes[i] > 0 && DistinctModulo(S, primes[i])
    requires start + |reply| <= |queries| && forall q | 0 <= q < |queries| :: |queries[q]| == |dbRow|
    requires j < |reply|
    requires !Divides(primes[i],
        Word(reply[j], i) - Word(HonestRow(WordEvaluator(primes), dbRow, queries, start, |reply|)[j], i))
    ensures |AcceptingRow(WordEvaluator(primes), S, dbRow, queries, start, reply)| <= Power(|S|, |reply| - 1)
    ensures |Challenges(S, |reply|)| == Power(|S|, |reply|)
  {
    WordsAreLinear(primes);
    EveryWordIsRead(primes, i);
    assert Prime(primes[i]);
    WrongWordIsCaught(WordEvaluator(primes), ReadWord(i), primes[i], S, dbRow, queries, start, reply, j);
  }
}
