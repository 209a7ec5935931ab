/**
 What a worker does with a task: expand the queries it holds into the columns of a matrix, multiply
 the database rows with it, and send the products back in a fixed order.
 */
module WorkerStrategy {
  import opened Arith
  import opened Algebra
  import opened Matrices
  import opened NegacyclicRing
  import QueryExpander
  import Scheduler
  import WorkerTask

  datatype Error = NoGaloisKeys | Product(error: Matrices.Error)

  /** What expanding a query under its client's keys comes to. */
  type Expander<!C, !K> = (C, K) -> Result<seq<C>, QueryExpander.Error>

  datatype Part<+C> = Part(row: nat, col: nat, ctx: C)

  function Ctxs<C>(parts: seq<Part<C>>): (r: seq<C>)
    ensures |r| == |parts| && forall k | 0 <= k < |r| :: r[k] == parts[k].ctx
  {
    seq(|parts|, k requires 0 <= k < |parts| => parts[k].ctx)
  }

  // ----- maps are walked in ascending order of their keys

  predicate Ascending(s: seq<nat>) {
    forall i, j | 0 <= i < j < |s| :: s[i] < s[j]
  }

  ghost function Least(S: set<nat>): (x: nat)
    requires S != {}
    ensures x in S && forall y | y in S :: x <= y
    decreases |S|
  {
    var y :| y in S;
    if S == {y} then y
    else
      var z := Least(S - {y});
      assert forall x | x in S :: x == y || x in S - {y};
      if y <= z then y else z
  }

  lemma LeastExists(S: set<nat>)
    requires S != {}
    ensures exists x :: x in S && forall y | y in S :: x <= y
  {
    var x := Least(S);
  }

  function FirstKey(S: set<nat>): (x: nat)
    requires S != {}
    ensures x in S && forall y | y in S :: x <= y
  {
    LeastExists(S);
    var x :| x in S && forall y | y in S :: x <= y;
    x
  }

  function SortedKeys(S: set<nat>): (r: seq<nat>)
    ensures |r| == |S| && Ascending(r)
    ensures forall x :: x in r <==> x in S
    decreases |S|
  {
    if S == {} then []
    else
      var x := FirstKey(S);
      var rest := SortedKeys(S - {x});
      LeastFirst(S, x, rest);
      [x] + rest
  }

  lemma LeastFirst(S: set<nat>, x: nat, rest: seq<nat>)
    requires x in S && forall y | y in S :: x <= y
    requires |rest| == |S - {x}| && Ascending(rest) && forall y :: y in rest <==> y in S - {x}
    ensures |[x] + rest| == |S| && Ascending([x] + rest) && forall y :: y in [x] + rest <==> y in S
  {
    assert S == {x} + (S - {x});
    forall k | 0 <= k < |rest| ensures x < rest[k] { assert rest[k] in rest; }
  }

  /** An ascending list is determined by its members. */
  lemma {:induction false} AscendingIsUnique(a: seq<nat>, b: seq<nat>)
    requires Ascending(a) && Ascending(b) && forall x :: x in a <==> x in b
    ensures a == b
    decreases |a|
  {
    assert b != [] ==> b[0] in b;
    if a != [] {
      assert a[0] in b;
      assert b[0] in a;
      var i :| 0 <= i < |b| && b[i] == a[0];
      var j :| 0 <= j < |a| && a[j] == b[0];
      assert a[0] == b[0];
      forall x ensures x in a[1..] <==> x in b[1..] {
        assert x in a <==> x == a[0] || x in a[1..];
        assert x in b <==> x == b[0] || x in b[1..];
        assert forall k | 1 <= k < |a| :: a[k] > a[0];
        assert forall k | 1 <= k < |b| :: b[k] > b[0];
      }
      AscendingIsUnique(a[1..], b[1..]);
    }
  }

  /** A contiguous range of keys is walked from its start. */
  lemma RangeIsSorted(S: set<nat>, start: nat, count: nat)
    requires forall x :: x in S <==> start <= x < start + count
    ensures SortedKeys(S) == Scheduler.RowRange(start, count)
  {
    var r := Scheduler.RowRange(start, count);
    forall x ensures x in r <==> x in SortedKeys(S) {
      if start <= x < start + count { assert r[x - start] == x; }
    }
    AscendingIsUnique(SortedKeys(S), r);
  }

  // ----- the strategy

  /** Column j of the matrix is the expansion of the query with the j-th key. */
  ghost predicate Expanded<C, K>(
    expand: Expander<C, K>, ctxCols: map<nat, C>, gkeys: map<nat, K>, rowSize: nat, keys: seq<nat>,
    m: MatrixValue<C>) {
    && m.Valid() && m.rows == rowSize && m.cols == |keys|
    && forall j | 0 <= j < |keys| ::
         && keys[j] in ctxCols && keys[j] in gkeys
         && expand(ctxCols[keys[j]], gkeys[keys[j]]).Success?
         && m.Column(j) == Expansion(expand, ctxCols[keys[j]], gkeys[keys[j]])
  }

  /** A query's expansion, for one that succeeds. */
  function Expansion<C, K>(expand: Expander<C, K>, c: C, k: K): seq<C> {
    var r := expand(c, k);
    if r.Success? then r.value else []
  }

  /** An expansion that succeeds has as many entries as the database has columns. */
  ghost predicate Sized<C(!new), K(!new)>(expand: Expander<C, K>, n: nat) {
    forall c, k :: expand(c, k).Success? ==> |Expansion(expand, c, k)| == n
  }

  predicate KeysAreThere<C, K>(ctxCols: map<nat, C>, gkeys: map<nat, K>) {
    forall key | key in ctxCols :: key in gkeys
  }

  predicate AllExpand<C, K>(expand: Expander<C, K>, ctxCols: map<nat, C>, gkeys: map<nat, K>) {
    forall key | key in ctxCols && key in gkeys :: expand(ctxCols[key], gkeys[key]).Success?
  }

  predicate IsUndefined<C, K>(expand: Expander<C, K>, c: C, k: K) {
    var r := expand(c, k);
    r.Failure? && r.error.Undefined?
  }

  /** Some query that is handed to the pool before the first missing key has an undefined expansion. */
  ghost predicate RunsWild<C, K>(
    expand: Expander<C, K>, ctxCols: map<nat, C>, gkeys: map<nat, K>, keys: seq<nat>)
    requires forall key | key in keys :: key in ctxCols
  {
    exists j :: 0 <= j < |keys| && RunsWildAt(expand, ctxCols, gkeys, keys, j)
  }

  ghost predicate RunsWildAt<C, K>(
    expand: Expander<C, K>, ctxCols: map<nat, C>, gkeys: map<nat, K>, keys: seq<nat>, j: nat)
    requires j < |keys| && forall key | key in keys :: key in ctxCols
  {
    && (forall i | 0 <= i <= j :: keys[i] in gkeys)
    && IsUndefined(expand, ctxCols[keys[j]], gkeys[keys[j]])
  }

  /**
   What becomes of a call: it returns, throws, never returns, or is undefined. A task that throws is
   caught by the pool, which then has no latch of its own to count down, so the caller's wait has no end.
   */
  datatype Outcome<+T> = Returns(value: T) | Throws(error: Error) | Hangs | Undefined

  /** What becomes of expanding the queries with these keys, in this order. */
  ghost function Fate<C, K>(
    expand: Expander<C, K>, ctxCols: map<nat, C>, gkeys: map<nat, K>, keys: seq<nat>): Outcome<()>
    requires forall key | key in keys :: key in ctxCols
  {
    if RunsWild(expand, ctxCols, gkeys, keys) then Outcome.Undefined
    else if !KeysAreThere(ctxCols, gkeys) then Throws(NoGaloisKeys)
    else if !AllExpand(expand, ctxCols, gkeys) then Hangs
    else Returns(())
  }

  lemma NoneRunsWild<C, K>(
    expand: Expander<C, K>, ctxCols: map<nat, C>, gkeys: map<nat, K>, keys: seq<nat>)
    requires forall key | key in keys :: key in ctxCols
    ensures AllExpand(expand, ctxCols, gkeys) ==> !RunsWild(expand, ctxCols, gkeys, keys)
  {
    forall j | 0 <= j < |keys| && AllExpand(expand, ctxCols, gkeys)
      ensures !RunsWildAt(expand, ctxCols, gkeys, keys, j)
    {
      assert keys[j] in keys;
    }
  }

  ghost function TaskFate<P, C, K>(
    expand: Expander<C, K>, task: WorkerTask.Task<P, C>, gkeys: map<nat, K>): Outcome<()>
  {
    Fate(expand, task.ctxCols, gkeys, SortedKeys(task.ctxCols.Keys))
  }

  /** Queries are single ciphertexts, expanded by expand_query under their client's keys. */
  ghost predicate ExpandsSingly<C(!new), K(!new)>(
    R: Ring, keyed: K -> QueryExpander.Evaluator<C>, rowSize: nat, expand: Expander<C, K>)
  {
    forall c, k ::
      QueryExpander.Faithful(R, keyed(k)) && QueryExpander.IsOutcome(R, keyed(k), [c], rowSize, expand(c, k))
  }

  /** By what expand_query does with one ciphertext, its outcome depends on the row size alone. */
  lemma OutcomeBySize<C(!new), K(!new)>(
    R: Ring, keyed: K -> QueryExpander.Evaluator<C>, rowSize: nat, expand: Expander<C, K>, c: C, k: K)
    requires ExpandsSingly(R, keyed, rowSize, expand)
    ensures expand(c, k).Success? <==> 2 <= rowSize < R.n
    ensures IsUndefined(expand, c, k) <==> rowSize % R.n < 2
    ensures expand(c, k).Success? ==> |Expansion(expand, c, k)| == rowSize
  {
    assert QueryExpander.IsOutcome(R, keyed(k), [c], rowSize, expand(c, k));
    QueryExpander.SingleOutcome(R, keyed(k), c, rowSize, expand(c, k));
  }

  /**
   The row sizes for which a worker's expansion returns: at least two and below the ring's degree, unless
   there is nothing to expand. It is undefined for sizes of zero or one modulo the degree, and never
   returns for the rest.
   */
  lemma ExpansionReturns<C(!new), K(!new)>(
    R: Ring, keyed: K -> QueryExpander.Evaluator<C>, rowSize: nat, expand: Expander<C, K>, ctxCols: map<nat, C>,
    gkeys: map<nat, K>)
    requires ExpandsSingly(R, keyed, rowSize, expand) && KeysAreThere(ctxCols, gkeys)
    ensures Sized(expand, rowSize)
    ensures AllExpand(expand, ctxCols, gkeys) <==> ctxCols == map[] || 2 <= rowSize < R.n
    ensures RunsWild(expand, ctxCols, gkeys, SortedKeys(ctxCols.Keys)) <==> ctxCols != map[] && rowSize % R.n < 2
  {
    forall c, k ensures expand(c, k).Success? ==> |Expansion(expand, c, k)| == rowSize {
      OutcomeBySize(R, keyed, rowSize, expand, c, k);
    }
    forall key | key in ctxCols
      ensures expand(ctxCols[key], gkeys[key]).Success? <==> 2 <= rowSize < R.n
      ensures IsUndefined(expand, ctxCols[key], gkeys[key]) <==> rowSize % R.n < 2
    {
      OutcomeBySize(R, keyed, rowSize, expand, ctxCols[key], gkeys[key]);
    }
    WildBySize(expand, ctxCols, gkeys, SortedKeys(ctxCols.Keys), rowSize % R.n < 2);
    if ctxCols != map[] { var key :| key in ctxCols; }
  }

  lemma WildBySize<C, K>(
    expand: Expander<C, K>, ctxCols: map<nat, C>, gkeys: map<nat, K>, keys: seq<nat>, wild: bool)
    requires KeysAreThere(ctxCols, gkeys) && forall key :: key in keys <==> key in ctxCols
    requires forall key | key in ctxCols :: IsUndefined(expand, ctxCols[key], gkeys[key]) <==> wild
    ensures RunsWild(expand, ctxCols, gkeys, keys) <==> ctxCols != map[] && wild
  {
    if ctxCols != map[] {
      var key :| key in ctxCols;
      assert key in keys;
      assert keys[0] in keys;
      assert wild ==> RunsWildAt(expand, ctxCols, gkeys, keys, 0);
    }
    forall j | 0 <= j < |keys| && RunsWildAt(expand, ctxCols, gkeys, keys, j) ensures ctxCols != map[] && wild {
      assert keys[j] in keys;
    }
  }

  /**
   What becomes of a task's queries, from the row size and the keys there are: what is undefined happens
   with the first query, a missing key throws only when that does not happen, and what hangs hangs last.
   */
  lemma FateBySize<C(!new), K(!new)>(
    R: Ring, keyed: K -> QueryExpander.Evaluator<C>, rowSize: nat, expand: Expander<C, K>, ctxCols: map<nat, C>,
    gkeys: map<nat, K>)
    requires ExpandsSingly(R, keyed, rowSize, expand)
    ensures var keys := SortedKeys(ctxCols.Keys);
      Fate(expand, ctxCols, gkeys, keys) ==
      if ctxCols == map[] then Returns(())
      else if keys[0] in gkeys && rowSize % R.n < 2 then Outcome.Undefined
      else if exists key :: key in ctxCols && key !in gkeys then Throws(NoGaloisKeys)
      else if 2 <= rowSize < R.n then Returns(())
      else Hangs
  {
    var keys := SortedKeys(ctxCols.Keys);
    if ctxCols != map[] {
      assert keys[0] in keys;
      WildFirst(R, keyed, rowSize, expand, ctxCols, gkeys, keys);
    }
    if KeysAreThere(ctxCols, gkeys) {
      ExpansionReturns(R, keyed, rowSize, expand, ctxCols, gkeys);
    } else {
      assert exists key :: key in ctxCols && key !in gkeys;
    }
  }

  lemma WildFirst<C(!new), K(!new)>(
    R: Ring, keyed: K -> QueryExpander.Evaluator<C>, rowSize: nat, expand: Expander<C, K>, ctxCols: map<nat, C>,
    gkeys: map<nat, K>, keys: seq<nat>)
    requires ExpandsSingly(R, keyed, rowSize, expand) && keys != [] && forall key | key in keys :: key in ctxCols
    ensures RunsWild(expand, ctxCols, gkeys, keys) <==> keys[0] in gkeys && rowSize % R.n < 2
  {
    if keys[0] in gkeys {
      assert keys[0] in keys;
      OutcomeBySize(R, keyed, rowSize, expand, ctxCols[keys[0]], gkeys[keys[0]]);
      assert rowSize % R.n < 2 ==> RunsWildAt(expand, ctxCols, gkeys, keys, 0);
    }
    if RunsWild(expand, ctxCols, gkeys, keys) {
      var j :| 0 <= j < |keys| && RunsWildAt(expand, ctxCols, gkeys, keys, j);
      OutcomeBySize(R, keyed, rowSize, expand, ctxCols[keys[j]], gkeys[keys[j]]);
    }
  }

  ghost predicate IndexHolds(keys: seq<nat>, index: map<nat, nat>) {
    forall j | 0 <= j < |keys| :: j in index && index[j] == keys[j]
  }

  /** The product of row i and column j, with the row and query it belongs to. */
  ghost predicate ReplyHolds<C>(rowKeys: seq<nat>, index: map<nat, nat>, m: MatrixValue<C>, parts: seq<Part<C>>) {
    && m.Valid() && m.rows == |rowKeys| && |parts| == m.cols * m.rows
    && forall i, j | 0 <= i < m.rows && 0 <= j < m.cols :: PartHolds(rowKeys, index, m, parts, i, j)
  }

  ghost predicate PartHolds<C>(
    rowKeys: seq<nat>, index: map<nat, nat>, m: MatrixValue<C>, parts: seq<Part<C>>, i: nat, j: nat)
    requires m.Valid() && m.rows == |rowKeys| && i < m.rows && j < m.cols
  {
    var k := Pos(m.cols, j, i);
    k < |parts| && j in index && parts[k] == Part(rowKeys[i], index[j], m.At(i, j))
  }

  /** The reply to a task under a query matrix. */
  ghost predicate IsReply<P, C>(G: Group<C>, act: (P, C) -> C, queryMat: MatrixValue<C>, index: map<nat, nat>,
                                task: WorkerTask.Task<P, C>, computed: MatrixValue<C>, parts: seq<Part<C>>)
  {
    var keys := SortedKeys(task.ptxRows.Keys);
    && queryMat.Valid() && computed.Valid() && computed.rows == |keys| && computed.cols == queryMat.cols
    && task.rowSize == queryMat.rows
    && (forall i, j | 0 <= i < |keys| && 0 <= j < queryMat.cols ::
          keys[i] in task.ptxRows && |task.ptxRows[keys[i]]| == task.rowSize
          && computed.At(i, j) == Dot(G, act, task.ptxRows[keys[i]], queryMat.Column(j)))
    && ReplyHolds(keys, index, computed, parts)
  }

  class RowMultiplicationStrategy<P, C(!new), K(!new)> {
    const G: Group<C>
    const act: (P, C) -> C
    const expand: Expander<C, K>
    const blank: P
    var queryMat: MatrixValue<C>
    var colToQueryIndex: map<nat, nat>
    var gkeys: map<nat, K>

    constructor (G: Group<C>, act: (P, C) -> C, expand: Expander<C, K>, blank: P)
      ensures this.G == G && this.act == act && this.expand == expand && this.blank == blank
      ensures queryMat == Mat(0, 0, []) && colToQueryIndex == map[] && gkeys == map[]
    {
      this.G, this.act, this.expand, this.blank := G, act, expand, blank;
      queryMat, colToQueryIndex, gkeys := Mat(0, 0, []), map[], map[];
    }

    method StoreGaloisKey(key: K, pos: nat)
      modifies this`gkeys
      ensures gkeys == old(gkeys)[pos := key]
    {
      gkeys := gkeys[pos := key];
    }

    /**
     parallel_expansions_into_query_mat, the expansions one after the other. The latch is the function's
     own, and each task counts it down itself, after its expansion.
     */
    method ExpandInto(task: WorkerTask.Task<P, C>, keys: seq<nat>) returns (res: Outcome<()>)
      requires Ascending(keys) && forall key :: key in keys <==> key in task.ctxCols
      requires Sized(expand, task.rowSize)
      modifies this`queryMat
      ensures res == Fate(expand, task.ctxCols, gkeys, keys)
      ensures queryMat.Valid() && queryMat.rows == task.rowSize && queryMat.cols == |keys|
      ensures res.Returns? ==> Expanded(expand, task.ctxCols, gkeys, task.rowSize, keys, queryMat)
    {
      var m := new Matrix(0, 0, G.zero);
      m.Resize(task.rowSize, |keys|, G.zero);
      var latch := |keys|;
      for col := 0 to |keys|
        invariant m.Valid() && m.rows == task.rowSize && m.cols == |keys|
        invariant forall j | 0 <= j < col :: keys[j] in gkeys && keys[j] in task.ctxCols
        invariant latch >= |keys| - col
        invariant latch == |keys| - col ==> forall j | 0 <= j < col ::
          && expand(task.ctxCols[keys[j]], gkeys[keys[j]]).Success?
          && m.Value().Column(j) == Expansion(expand, task.ctxCols[keys[j]], gkeys[keys[j]])
        invariant latch > |keys| - col ==> !AllExpand(expand, task.ctxCols, gkeys)
        invariant forall j | 0 <= j < col :: !IsUndefined(expand, task.ctxCols[keys[j]], gkeys[keys[j]])
      {
        var qPos := keys[col];
        if qPos !in gkeys {
          queryMat := m.Value();
          return Throws(NoGaloisKeys);
        }
        var expanded := expand(task.ctxCols[qPos], gkeys[qPos]);
        if expanded.Failure? && expanded.error.Undefined? {
          assert RunsWildAt(expand, task.ctxCols, gkeys, keys, col);
          queryMat := m.Value();
          return Outcome.Undefined;
        }
        if expanded.Success? {
          assert expanded.value == Expansion(expand, task.ctxCols[qPos], gkeys[qPos]);
          WriteColumn(m, col, expanded.value);
          latch := latch - 1;
        }
      }
      forall key | key in task.ctxCols ensures key in gkeys {
        var j :| 0 <= j < |keys| && keys[j] == key;
      }
      queryMat := m.Value();
      if latch > 0 {
        return Hangs;
      }
      forall key | key in task.ctxCols && key in gkeys ensures expand(task.ctxCols[key], gkeys[key]).Success? {
        var j :| 0 <= j < |keys| && keys[j] == key;
      }
      res := Returns(());
    }

    method WriteColumn(m: Matrix<C>, col: nat, entries: seq<C>)
      requires m.Valid() && col < m.cols && |entries| == m.rows
      modifies m
      ensures m.Valid() && m.rows == old(m.rows) && m.cols == old(m.cols)
      ensures forall j | 0 <= j < m.cols ::
          m.Value().Column(j) == if j == col then entries else old(m.Value()).Column(j)
    {
      for row := 0 to m.rows
        invariant m.Valid() && m.rows == old(m.rows) && m.cols == old(m.cols)
        invariant forall i, j | 0 <= i < m.rows && 0 <= j < m.cols ::
          m.Value().At(i, j) == if j == col && i < row then entries[i] else old(m.Value()).At(i, j)
      {
        m.Set(row, col, entries[row]);
      }
    }

    method IndexColumns(keys: seq<nat>)
      modifies this`colToQueryIndex
      ensures IndexHolds(keys, colToQueryIndex)
    {
      for col := 0 to |keys|
        invariant forall j | 0 <= j < col :: j in colToQueryIndex && colToQueryIndex[j] == keys[j]
      {
        colToQueryIndex := colToQueryIndex[col := keys[col]];
      }
    }

    method ExpandQueries(task: WorkerTask.Task<P, C>) returns (res: Outcome<()>)
      requires Sized(expand, task.rowSize)
      modifies this
      ensures res == TaskFate(expand, task, old(gkeys))
      ensures !res.Returns? ==> gkeys == old(gkeys)
      ensures task.ctxCols == map[] ==>
        queryMat == old(queryMat) && colToQueryIndex == old(colToQueryIndex) && gkeys == old(gkeys)
      ensures task.ctxCols != map[] ==>
        queryMat.Valid() && IndexHolds(SortedKeys(task.ctxCols.Keys), colToQueryIndex)
        && queryMat.rows == task.rowSize && queryMat.cols == |task.ctxCols.Keys|
      ensures res.Returns? && task.ctxCols != map[] ==>
        var keys := SortedKeys(task.ctxCols.Keys);
        && Expanded(expand, task.ctxCols, old(gkeys), task.rowSize, keys, queryMat)
        && gkeys == map[]
    {
      if task.ctxCols == map[] {
        return Returns(());
      }
      var keys := SortedKeys(task.ctxCols.Keys);
      IndexColumns(keys);
      res := ExpandInto(task, keys);
      if res.Returns? {
        gkeys := map[];
      }
    }

    method MultiplyRows(task: WorkerTask.Task<P, C>) returns (res: Result<MatrixValue<C>, Error>)
      requires queryMat.Valid() && forall row | row in task.ptxRows :: |task.ptxRows[row]| == task.rowSize
      ensures res.Success? <==>
                task.rowSize == queryMat.rows && task.rowSize > 0 && task.ptxRows != map[] && queryMat.cols > 0
      ensures res.Success? ==>
        var keys := SortedKeys(task.ptxRows.Keys);
        && res.value.Valid() && res.value.rows == |keys| && res.value.cols == queryMat.cols
        && task.rowSize == queryMat.rows
        && forall i, j | 0 <= i < |keys| && 0 <= j < queryMat.cols ::
             keys[i] in task.ptxRows
             && res.value.At(i, j) == Dot(G, act, task.ptxRows[keys[i]], queryMat.Column(j))
    {
      var keys := SortedKeys(task.ptxRows.Keys);
      var ptxs := GatherRows(task, keys);
      var result := new Matrix(ptxs.rows, queryMat.cols, G.zero);
      var product := MatMult(G, act, ptxs, queryMat, result);
      NonEmpty(ptxs.rows, ptxs.cols);
      NonEmpty(queryMat.rows, queryMat.cols);
      if product.Failure? {
        return Failure(Product(product.error));
      }
      res := Success(result.Value());
      forall i, j | 0 <= i < |keys| && 0 <= j < queryMat.cols
        ensures res.value.At(i, j) == Dot(G, act, task.ptxRows[keys[i]], queryMat.Column(j))
      {
        assert res.value.At(i, j) == Cell(G, act, ptxs, queryMat, i, j);
        assert ptxs.RowAt(i) == task.ptxRows[keys[i]];
      }
    }

    method GatherRows(task: WorkerTask.Task<P, C>, keys: seq<nat>) returns (ptxs: MatrixValue<P>)
      requires forall key :: key in keys <==> key in task.ptxRows
      requires forall row | row in task.ptxRows :: |task.ptxRows[row]| == task.rowSize
      ensures ptxs.Valid() && ptxs.rows == |keys| && ptxs.cols == task.rowSize
      ensures forall i | 0 <= i < |keys| :: keys[i] in task.ptxRows && ptxs.RowAt(i) == task.ptxRows[keys[i]]
    {
      var m := new Matrix(|keys|, task.rowSize, blank);
      for row := 0 to |keys|
        invariant m.Valid() && m.rows == |keys| && m.cols == task.rowSize
        invariant forall i, j | 0 <= i < row && 0 <= j < task.rowSize ::
          keys[i] in task.ptxRows && m.Value().At(i, j) == task.ptxRows[keys[i]][j]
      {
        var ptxRow := task.ptxRows[keys[row]];
        for col := 0 to |ptxRow|
          invariant m.Valid() && m.rows == |keys| && m.cols == task.rowSize
          invariant forall i, j | 0 <= i <= row && 0 <= j < task.rowSize && (i < row || j < col) ::
            keys[i] in task.ptxRows && m.Value().At(i, j) == task.ptxRows[keys[i]][j]
        {
          m.Set(row, col, ptxRow[col]);
        }
      }
      ptxs := m.Value();
    }

    /** The parts in the order they are written to the manager: row by row. */
    method SendResponse(rowKeys: seq<nat>, computed: MatrixValue<C>) returns (parts: seq<Part<C>>)
      requires computed.Valid() && computed.rows == |rowKeys|
      requires forall j | 0 <= j < computed.cols :: j in colToQueryIndex
      ensures ReplyHolds(rowKeys, colToQueryIndex, computed, parts)
    {
      parts := [];
      for i := 0 to computed.rows
        invariant |parts| == Pos(computed.cols, 0, i)
        invariant forall a, b | 0 <= a < i && 0 <= b < computed.cols ::
            PartHolds(rowKeys, colToQueryIndex, computed, parts, a, b)
      {
        for j := 0 to computed.cols
          invariant |parts| == Pos(computed.cols, j, i)
          invariant forall a, b | 0 <= a <= i && 0 <= b < computed.cols && (a < i || b < j) ::
            PartHolds(rowKeys, colToQueryIndex, computed, parts, a, b)
        {
          ghost var shorter := parts;
          parts := parts + [Part(rowKeys[i], colToQueryIndex[j], computed.At(i, j))];
          forall a, b | 0 <= a <= i && 0 <= b < computed.cols && (a < i || b < j)
            ensures PartHolds(rowKeys, colToQueryIndex, computed, parts, a, b)
          {
            PartStays(rowKeys, colToQueryIndex, computed, shorter, parts, a, b);
          }
        }
        NextColumn(computed.cols, i);
      }
    }

    /**
     Nothing is sent for a task without rows, or when a step throws: the exception ends there. A query
     that does not expand keeps the thread for good.
     */
    method ProcessTask(task: WorkerTask.Task<P, C>) returns (res: Outcome<Option<seq<Part<C>>>>)
      requires queryMat.Valid()
      requires forall j | 0 <= j < queryMat.cols :: j in colToQueryIndex
      requires Sized(expand, task.rowSize)
      requires forall row | row in task.ptxRows :: |task.ptxRows[row]| == task.rowSize
      modifies this
      ensures queryMat.Valid() && forall j | 0 <= j < queryMat.cols :: j in colToQueryIndex
      ensures task.ctxCols == map[] ==>
        queryMat == old(queryMat) && colToQueryIndex == old(colToQueryIndex) && gkeys == old(gkeys)
      ensures task.ctxCols != map[] && TaskFate(expand, task, old(gkeys)).Returns? ==>
        var keys := SortedKeys(task.ctxCols.Keys);
        && Expanded(expand, task.ctxCols, old(gkeys), task.rowSize, keys, queryMat)
        && IndexHolds(keys, colToQueryIndex) && gkeys == map[]
      ensures (res.Undefined? <==> TaskFate(expand, task, old(gkeys)).Undefined?) && !res.Throws?
      ensures res.Hangs? <==> TaskFate(expand, task, old(gkeys)).Hangs?
      ensures res.Returns? ==> (res.value.Some? <==>
        && TaskFate(expand, task, old(gkeys)).Returns?
        && task.ptxRows != map[] && task.rowSize == queryMat.rows && task.rowSize > 0 && queryMat.cols > 0)
      ensures res.Returns? && res.value.Some? ==>
        exists computed :: IsReply(G, act, queryMat, colToQueryIndex, task, computed, res.value.value)
    {
      var expanded := ExpandQueries(task);
      if expanded.Undefined? {
        return Outcome.Undefined;
      }
      if expanded.Hangs? {
        return Hangs;
      }
      if expanded.Throws? || task.ptxRows == map[] {
        return Returns(None);
      }
      var reply := Answer(task);
      res := Returns(reply);
    }

    method Answer(task: WorkerTask.Task<P, C>) returns (reply: Option<seq<Part<C>>>)
      requires queryMat.Valid() && forall row | row in task.ptxRows :: |task.ptxRows[row]| == task.rowSize
      requires forall j | 0 <= j < queryMat.cols :: j in colToQueryIndex
      ensures reply.Some? <==>
        task.ptxRows != map[] && task.rowSize == queryMat.rows && task.rowSize > 0 && queryMat.cols > 0
      ensures reply.Some? ==>
        exists computed :: IsReply(G, act, queryMat, colToQueryIndex, task, computed, reply.value)
    {
      var answer := MultiplyRows(task);
      if answer.Failure? {
        return None;
      }
      var parts := SendResponse(SortedKeys(task.ptxRows.Keys), answer.value);
      assert IsReply(G, act, queryMat, colToQueryIndex, task, answer.value, parts);
      reply := Some(parts);
    }
  }

  lemma NonEmpty(a: nat, b: nat)
    ensures a * b > 0 <==> a > 0 && b > 0
  {
  }

  lemma PartStays<C>(
    rowKeys: seq<nat>, index: map<nat, nat>, m: MatrixValue<C>, parts: seq<Part<C>>, longer: seq<Part<C>>,
    i: nat, j: nat)
    requires m.Valid() && m.rows == |rowKeys| && i < m.rows && j < m.cols
    requires PartHolds(rowKeys, index, m, parts, i, j) && parts <= longer
    ensures PartHolds(rowKeys, index, m, longer, i, j)
  {
  }
}
