/**
 A worker's round from end to end: the manager sends it its queries and its rows, it answers, and
 the manager reads the answer by position.
 */
module WorkerRound {
  import opened Arith
  import opened Algebra
  import opened Matrices
  import opened WorkerTask
  import opened WorkerStrategy
  import RowCheck
  import Scheduler

  function Rows(first: nat, count: nat): (rows: set<nat>)
    ensures forall r :: r in rows <==> first <= r < first + count
  {
    var range := Scheduler.RowRange(first, count);
    assert forall r :: r in range <==> first <= r < first + count by {
      forall r | first <= r < first + count ensures r in range { assert range[r - first] == r; }
    }
    set r | r in range
  }

  /** What a worker works with: its keys, its queries and the database its rows come from. */
  ghost predicate Given<P, C(!new), K(!new)>(
    expand: Expander<C, K>, db: MatrixValue<P>, queries: seq<C>, keys: map<nat, K>, start: nat, len: nat,
    first: nat, count: nat) {
    && db.Valid() && db.cols > 0 && Sized(expand, db.cols)
    && first + count <= db.rows && start + len <= |queries|
    && QueriesExpand(expand, queries, keys, start, len)
  }

  ghost predicate QueriesExpand<C(!new), K(!new)>(
    expand: Expander<C, K>, queries: seq<C>, keys: map<nat, K>, start: nat, len: nat)
    requires start + len <= |queries|
  {
    forall q | start <= q < start + len :: q in keys && expand(queries[q], keys[q]).Success?
  }

  lemma AllColumnsExpand<C(!new), K(!new)>(
    expand: Expander<C, K>, queries: seq<C>, keys: map<nat, K>, start: nat, len: nat)
    requires start + len <= |queries| && forall q | start <= q < start + len :: q in keys
    ensures KeysAreThere(ColumnsOf(queries, start, len), keys)
    ensures AllExpand(expand, ColumnsOf(queries, start, len), keys) <==>
        QueriesExpand(expand, queries, keys, start, len)
  {
    var cols := ColumnsOf(queries, start, len);
    if AllExpand(expand, cols, keys) {
      forall q | start <= q < start + len ensures expand(queries[q], keys[q]).Success? { assert q in cols; }
    }
  }

  /** Part j + i*len is the product of row first + i with the expanded query start + j. */
  ghost predicate Aligned<P, C(!new), K(!new)>(
    G: Group<C>, act: (P, C) -> C, expand: Expander<C, K>, db: MatrixValue<P>, queries: seq<C>,
    keys: map<nat, K>, start: nat, len: nat, first: nat, count: nat, parts: seq<Part<C>>)
    requires Given(expand, db, queries, keys, start, len, first, count)
  {
    && |parts| == len * count
    && forall i, j | 0 <= i < count && 0 <= j < len ::
         PartIs(G, act, expand, db, queries, keys, start, len, first, count, parts, i, j)
  }

  ghost predicate PartIs<P, C(!new), K(!new)>(
    G: Group<C>, act: (P, C) -> C, expand: Expander<C, K>, db: MatrixValue<P>, queries: seq<C>,
    keys: map<nat, K>, start: nat, len: nat, first: nat, count: nat, parts: seq<Part<C>>, i: nat, j: nat)
    requires Given(expand, db, queries, keys, start, len, first, count) && i < count && j < len
  {
    var k := Pos(len, j, i);
    && k < |parts|
    && parts[k] == Part(first + i, start + j,
        Dot(G, act, db.RowAt(first + i), Expansion(expand, queries[start + j], keys[start + j])))
  }

  /** The same parts in the same order, under any labels. */
  ghost predicate InOrder<P, C(!new), K(!new)>(
    G: Group<C>, act: (P, C) -> C, expand: Expander<C, K>, db: MatrixValue<P>, queries: seq<C>,
    keys: map<nat, K>, start: nat, len: nat, first: nat, count: nat, parts: seq<Part<C>>)
    requires Given(expand, db, queries, keys, start, len, first, count)
  {
    && |parts| == len * count
    && forall i, j | 0 <= i < count && 0 <= j < len ::
         CtxIs(G, act, expand, db, queries, keys, start, len, first, count, parts, i, j)
  }

  ghost predicate CtxIs<P, C(!new), K(!new)>(
    G: Group<C>, act: (P, C) -> C, expand: Expander<C, K>, db: MatrixValue<P>, queries: seq<C>,
    keys: map<nat, K>, start: nat, len: nat, first: nat, count: nat, parts: seq<Part<C>>, i: nat, j: nat)
    requires Given(expand, db, queries, keys, start, len, first, count) && i < count && j < len
  {
    var k := Pos(len, j, i);
    && k < |parts|
    && parts[k].ctx == Dot(G, act, db.RowAt(first + i), Expansion(expand, queries[start + j], keys[start + j]))
  }

  lemma AlignedIsInOrder<P, C(!new), K(!new)>(
    G: Group<C>, act: (P, C) -> C, expand: Expander<C, K>, db: MatrixValue<P>, queries: seq<C>,
    keys: map<nat, K>, start: nat, len: nat, first: nat, count: nat, parts: seq<Part<C>>)
    requires Given(expand, db, queries, keys, start, len, first, count)
    requires Aligned(G, act, expand, db, queries, keys, start, len, first, count, parts)
    ensures InOrder(G, act, expand, db, queries, keys, start, len, first, count, parts)
  {
    forall i, j | 0 <= i < count && 0 <= j < len
      ensures CtxIs(G, act, expand, db, queries, keys, start, len, first, count, parts, i, j)
    {
      assert PartIs(G, act, expand, db, queries, keys, start, len, first, count, parts, i, j);
    }
  }

  lemma QueryKeys<C>(queries: seq<C>, start: nat, len: nat)
    requires start + len <= |queries|
    ensures SortedKeys(ColumnsOf(queries, start, len).Keys) == Scheduler.RowRange(start, len)
  {
    RangeIsSorted(ColumnsOf(queries, start, len).Keys, start, len);
  }

  lemma RowKeys<P>(db: MatrixValue<P>, first: nat, count: nat)
    requires db.Valid() && first + count <= db.rows
    ensures SortedKeys(RowsOf(db, Rows(first, count)).Keys) == Scheduler.RowRange(first, count)
  {
    RangeIsSorted(RowsOf(db, Rows(first, count)).Keys, first, count);
  }

  /** The query matrix holds the expansions of a contiguous range of queries, and the index says so. */
  ghost predicate Prepared<C(!new), K(!new)>(
    expand: Expander<C, K>, queries: seq<C>, keys: map<nat, K>, rowSize: nat, start: nat, len: nat,
    queryMat: MatrixValue<C>, index: map<nat, nat>)
    requires start + len <= |queries|
  {
    && Expanded(expand, ColumnsOf(queries, start, len), keys, rowSize, Scheduler.RowRange(start, len), queryMat)
    && IndexHolds(Scheduler.RowRange(start, len), index)
  }

  /**
   The index maps of expansion, multiplication and reply fit together: such a query matrix and
   rows gathered from a contiguous range of rows give an aligned reply.
   */
  lemma ReplyIsAligned<P, C(!new), K(!new)>(
    G: Group<C>, act: (P, C) -> C, expand: Expander<C, K>, db: MatrixValue<P>, queries: seq<C>,
    keys: map<nat, K>, start: nat, len: nat, first: nat, count: nat,
    queryMat: MatrixValue<C>, index: map<nat, nat>, task: Task<P, C>, computed: MatrixValue<C>, parts: seq<Part<C>>)
    requires Given(expand, db, queries, keys, start, len, first, count)
    requires Prepared(expand, queries, keys, db.cols, start, len, queryMat, index)
    requires task.rowSize == db.cols && task.ptxRows == RowsOf(db, Rows(first, count))
    requires SortedKeys(task.ptxRows.Keys) == Scheduler.RowRange(first, count)
    requires IsReply(G, act, queryMat, index, task, computed, parts)
    ensures Aligned(G, act, expand, db, queries, keys, start, len, first, count, parts)
  {
    ReplySize(computed, |Scheduler.RowRange(first, count)|, |Scheduler.RowRange(start, len)|, |parts|);
    forall i, j | 0 <= i < count && 0 <= j < len
      ensures PartIs(G, act, expand, db, queries, keys, start, len, first, count, parts, i, j)
    {
      PartIsAligned(G, act, expand, db, queries, keys, start, len, first, count, queryMat, index, task, computed,
          parts, i, j);
    }
  }

  lemma ReplySize<C>(computed: MatrixValue<C>, rows: nat, cols: nat, size: nat)
    requires computed.rows == rows && computed.cols == cols && size == computed.cols * computed.rows
    ensures size == cols * rows
  {
  }

  lemma PartIsAligned<P, C(!new), K(!new)>(
    G: Group<C>, act: (P, C) -> C, expand: Expander<C, K>, db: MatrixValue<P>, queries: seq<C>,
    keys: map<nat, K>, start: nat, len: nat, first: nat, count: nat,
    queryMat: MatrixValue<C>, index: map<nat, nat>, task: Task<P, C>, computed: MatrixValue<C>, parts: seq<Part<C>>,
    i: nat, j: nat)
    requires Given(expand, db, queries, keys, start, len, first, count) && i < count && j < len
    requires Expanded(expand, ColumnsOf(queries, start, len), keys, db.cols, Scheduler.RowRange(start, len), queryMat)
    requires IndexHolds(Scheduler.RowRange(start, len), index)
    requires task.rowSize == db.cols && task.ptxRows == RowsOf(db, Rows(first, count))
    requires SortedKeys(task.ptxRows.Keys) == Scheduler.RowRange(first, count)
    requires IsReply(G, act, queryMat, index, task, computed, parts)
    ensures PartIs(G, act, expand, db, queries, keys, start, len, first, count, parts, i, j)
  {
    ProductIs(
      G, act, expand, db, queries, keys, start, len, first, count, queryMat, index, task, computed, parts, i, j);
    PlacedPart(computed, Scheduler.RowRange(first, count), index, parts, len, i, j);
  }

  lemma PlacedPart<C>(
    computed: MatrixValue<C>, rowKeys: seq<nat>, index: map<nat, nat>, parts: seq<Part<C>>, len: nat, i: nat, j: nat)
    requires ReplyHolds(rowKeys, index, computed, parts) && computed.cols == len && i < |rowKeys| && j < len
    ensures Pos(len, j, i) < |parts| && j in index
    ensures parts[Pos(len, j, i)] == Part(rowKeys[i], index[j], computed.At(i, j))
  {
    assert PartHolds(rowKeys, index, computed, parts, i, j);
  }

  lemma ProductIs<P, C(!new), K(!new)>(
    G: Group<C>, act: (P, C) -> C, expand: Expander<C, K>, db: MatrixValue<P>, queries: seq<C>,
    keys: map<nat, K>, start: nat, len: nat, first: nat, count: nat,
    queryMat: MatrixValue<C>, index: map<nat, nat>, task: Task<P, C>, computed: MatrixValue<C>, parts: seq<Part<C>>,
    i: nat, j: nat)
    requires Given(expand, db, queries, keys, start, len, first, count) && i < count && j < len
    requires Expanded(expand, ColumnsOf(queries, start, len), keys, db.cols, Scheduler.RowRange(start, len), queryMat)
    requires task.rowSize == db.cols && task.ptxRows == RowsOf(db, Rows(first, count))
    requires SortedKeys(task.ptxRows.Keys) == Scheduler.RowRange(first, count)
    requires IsReply(G, act, queryMat, index, task, computed, parts)
    ensures computed.At(i, j) ==
        Dot(G, act, db.RowAt(first + i), Expansion(expand, queries[start + j], keys[start + j]))
  {
    var rowKeys, colKeys := SortedKeys(task.ptxRows.Keys), Scheduler.RowRange(start, len);
    assert rowKeys[i] == first + i && colKeys[j] == start + j;
    assert queryMat.Column(j) == Expansion(expand, queries[start + j], keys[start + j]);
    assert task.ptxRows[rowKeys[i]] == db.RowAt(first + i);
    assert computed.At(i, j) == Dot(G, act, task.ptxRows[rowKeys[i]], queryMat.Column(j));
  }

  /** The stream's messages, read one after the other. */
  method ReadAll<P, C, K>(w: Worker<P, C, K>, ms: seq<Message<P, C, K>>)
    requires w.task.rowSize == w.rowSize && forall row | row in w.task.ptxRows :: |w.task.ptxRows[row]| == w.rowSize
    modifies w
    ensures w.Value() == ReceiveAll(old(w.Value()), w.blank, w.rowSize, ms)
    ensures w.task.rowSize == w.rowSize && forall row | row in w.task.ptxRows :: |w.task.ptxRows[row]| == w.rowSize
  {
    for i := 0 to |ms|
      invariant w.Value() == ReceiveAll(old(w.Value()), w.blank, w.rowSize, ms[..i])
      invariant w.task.rowSize == w.rowSize && forall row | row in w.task.ptxRows :: |w.task.ptxRows[row]| == w.rowSize
    {
      var _ := w.OnReadDone(true, ms[i]);
      assert ms[..i + 1][..i] == ms[..i];
    }
    assert ms[..|ms|] == ms;
  }

  /**
   The keys and the two tasks of a first round, however the parts of the rows are ordered or repeated:
   every query of the range has its client's key.
   */
  method Deliver<P, C, K>(
    w: Worker<P, C, K>, parts: seq<Message<P, C, K>>, round: int, epoch: int,
    ghost db: MatrixValue<P>, clientKeys: seq<K>, queries: seq<C>, start: nat, len: nat, ghost rows: set<nat>)
    requires w.rowSize == db.cols && w.task == NewTask(db.cols) && w.chan == []
    requires db.Valid() && 0 < db.cols <= TWO_TO_31 && rows != {} && forall row | row in rows :: row < db.rows
    requires start + len <= |queries| == |clientKeys| && len > 0
    requires PartsOf(parts, db, rows) && AllSent(parts, db, rows)
    modifies w
    ensures w.chan == [
      Task(0, 0, db.cols, map[], ColumnsOf(queries, start, len)),
      Task(epoch, round, db.cols, RowsOf(db, rows), map[])]
    ensures w.task == NewTask(db.cols) && KeysHold(clientKeys, start, len, old(w.gkeys), w.gkeys)
  {
    ReadAll(w, KeyMessages(clientKeys, start, len));
    KeysAreDelivered<P, C, K>(old(w.Value()), w.blank, w.rowSize, clientKeys, start, len);
    ghost var keyed := w.Value();
    ReadAll(w, QueryMessages(queries, start, len) + [TaskComplete]);
    QueriesAreAssembled<P, C, K>(keyed, w.blank, w.rowSize, queries, start, len);
    assert w.Value().task == NewTask(db.cols);
    var _ := w.OnReadDone(true, Metadata(round, epoch));
    RowsAreAssembled(w.Value(), w.blank, parts, db, rows);
    ReadAll(w, parts + [TaskComplete]);
  }

  /**
   The worker's main thread on the first task: it returns exactly when all queries expand, and then holds
   them, expanded.
   */
  method PrepareQueries<P, C(!new), K(!new)>(
    strategy: RowMultiplicationStrategy<P, C, K>, task: Task<P, C>, ghost queries: seq<C>, ghost start: nat,
    ghost len: nat)
    returns (res: Outcome<()>)
    requires strategy.queryMat.Valid() && forall j | 0 <= j < strategy.queryMat.cols :: j in strategy.colToQueryIndex
    requires Sized(strategy.expand, task.rowSize) && start + len <= |queries| && len > 0
    requires task.ptxRows == map[] && task.ctxCols == ColumnsOf(queries, start, len)
    requires forall q | start <= q < start + len :: q in strategy.gkeys
    modifies strategy
    ensures res == TaskFate(strategy.expand, task, old(strategy.gkeys))
    ensures res.Returns? <==> QueriesExpand(strategy.expand, queries, old(strategy.gkeys), start, len)
    ensures res.Returns? ==>
      Prepared(strategy.expand, queries, old(strategy.gkeys), task.rowSize, start, len, strategy.queryMat,
          strategy.colToQueryIndex)
  {
    QueryKeys(queries, start, len);
    assert start in task.ctxCols;
    AllColumnsExpand(strategy.expand, queries, strategy.gkeys, start, len);
    NoneRunsWild(strategy.expand, task.ctxCols, strategy.gkeys, SortedKeys(task.ctxCols.Keys));
    var answer := strategy.ProcessTask(task);
    res := if answer.Undefined? then Outcome.Undefined else if answer.Hangs? then Hangs else Returns(());
  }

  /**
   The main thread on a task of rows, in the first round and in every later one: the reply is
   aligned, and the expanded queries stay.
   */
  method AnswerRows<P, C(!new), K(!new)>(
    strategy: RowMultiplicationStrategy<P, C, K>, task: Task<P, C>, ghost db: MatrixValue<P>, ghost queries: seq<C>,
    ghost keys: map<nat, K>, ghost start: nat, ghost len: nat, ghost first: nat, ghost count: nat)
    returns (reply: Option<seq<Part<C>>>)
    requires Given(strategy.expand, db, queries, keys, start, len, first, count) && len > 0 && count > 0
    requires Prepared(strategy.expand, queries, keys, db.cols, start, len, strategy.queryMat, strategy.colToQueryIndex)
    requires task.rowSize == db.cols && task.ptxRows == RowsOf(db, Rows(first, count)) && task.ctxCols == map[]
    modifies strategy
    ensures Prepared(strategy.expand, queries, keys, db.cols, start, len, strategy.queryMat, strategy.colToQueryIndex)
    ensures reply.Some?
    ensures Aligned(strategy.G, strategy.act, strategy.expand, db, queries, keys, start, len, first, count, reply.value)
  {
    RowKeys(db, first, count);
    assert first in task.ptxRows;
    var res := strategy.ProcessTask(task);
    reply := res.value;
    ghost var computed :| IsReply(strategy.G, strategy.act, strategy.queryMat, strategy.colToQueryIndex, task,
        computed, reply.value);
    ReplyIsAligned(strategy.G, strategy.act, strategy.expand, db, queries, keys, start, len, first, count,
                   strategy.queryMat, strategy.colToQueryIndex, task, computed, reply.value);
  }

  /** Part k of an aligned reply: its place gives its row and its query. */
  lemma PartAt<P, C(!new), K(!new)>(
    G: Group<C>, act: (P, C) -> C, expand: Expander<C, K>, db: MatrixValue<P>, queries: seq<C>,
    keys: map<nat, K>, start: nat, len: nat, first: nat, count: nat, parts: seq<Part<C>>, k: nat)
    requires Given(expand, db, queries, keys, start, len, first, count) && k < |parts|
    requires Aligned(G, act, expand, db, queries, keys, start, len, first, count, parts)
    ensures len > 0 && k % len < len && k / len < count
    ensures var row, query := first + k / len, start + k % len;
            parts[k] == Part(row, query, Dot(G, act, db.RowAt(row), Expansion(expand, queries[query], keys[query])))
  {
    EveryPosIsACell(len, count, k);
    assert PartIs(G, act, expand, db, queries, keys, start, len, first, count, parts, k / len, k % len);
  }

  /** And of one in order, under any labels. */
  lemma CtxAt<P, C(!new), K(!new)>(
    G: Group<C>, act: (P, C) -> C, expand: Expander<C, K>, db: MatrixValue<P>, queries: seq<C>,
    keys: map<nat, K>, start: nat, len: nat, first: nat, count: nat, parts: seq<Part<C>>, k: nat)
    requires Given(expand, db, queries, keys, start, len, first, count) && k < |parts|
    requires InOrder(G, act, expand, db, queries, keys, start, len, first, count, parts)
    ensures len > 0 && k % len < len && k / len < count
    ensures var row, query := first + k / len, start + k % len;
            parts[k].ctx == Dot(G, act, db.RowAt(row), Expansion(expand, queries[query], keys[query]))
  {
    EveryPosIsACell(len, count, k);
    assert CtxIs(G, act, expand, db, queries, keys, start, len, first, count, parts, k / len, k % len);
  }

  // ----- the manager's side

  /** The manager's own expansions of the same queries with the same keys. */
  ghost predicate ManagerExpands<C(!new), K(!new)>(
    expand: Expander<C, K>, queries: seq<C>, keys: map<nat, K>, expanded: seq<seq<C>>, length: nat) {
    && |expanded| == |queries|
    && forall q | 0 <= q < |queries| :: q in keys && |expanded[q]| == length
        && expand(queries[q], keys[q]) == Success(expanded[q])
  }

  lemma PositionFits(i: nat, count: nat, len: nat, j: nat)
    requires i < count && j < len
    ensures i * len + len <= len * count && Pos(len, j, i) == i * len + j
  {
    MultiplesApart(i, count, len);
  }

  lemma EntryIsHonest<P, C(!new), K(!new)>(
    E: RowCheck.Evaluator<P, C>, expand: Expander<C, K>, db: MatrixValue<P>, queries: seq<C>,
    keys: map<nat, K>, expanded: seq<seq<C>>,
    start: nat, len: nat, first: nat, count: nat, parts: seq<Part<C>>, i: nat, j: nat)
    requires Given(expand, db, queries, keys, start, len, first, count) && i < count && j < len
    requires InOrder(E.G, E.act, expand, db, queries, keys, start, len, first, count, parts)
    requires ManagerExpands(expand, queries, keys, expanded, db.cols)
    ensures Pos(len, j, i) < |parts|
    ensures parts[Pos(len, j, i)].ctx == Dot(E.G, E.act, db.RowAt(first + i), expanded[start + j])
  {
    PositionFits(i, count, len, j);
    assert CtxIs(E.G, E.act, expand, db, queries, keys, start, len, first, count, parts, i, j);
  }

  lemma ReplyRowIsHonest<P, C(!new), K(!new)>(
    E: RowCheck.Evaluator<P, C>, expand: Expander<C, K>, db: MatrixValue<P>, queries: seq<C>,
    keys: map<nat, K>, expanded: seq<seq<C>>, start: nat, len: nat, first: nat, count: nat, parts: seq<Part<C>>, i: nat)
    requires Given(expand, db, queries, keys, start, len, first, count) && i < count && len > 0
    requires InOrder(E.G, E.act, expand, db, queries, keys, start, len, first, count, parts)
    requires ManagerExpands(expand, queries, keys, expanded, db.cols)
    ensures i * len + len <= |parts|
    ensures RowCheck.ReplyRow(Ctxs(parts), len, i) == RowCheck.HonestRow(E, db.RowAt(first + i), expanded, start, len)
  {
    PositionFits(i, count, len, 0);
    var row, honest := RowCheck.ReplyRow(Ctxs(parts), len, i),
        RowCheck.HonestRow(E, db.RowAt(first + i), expanded, start, len);
    forall j | 0 <= j < len ensures row[j] == honest[j] {
      PositionFits(i, count, len, j);
      EntryIsHonest(E, expand, db, queries, keys, expanded, start, len, first, count, parts, i, j);
    }
  }

  /** Every row of a reply in that order, whatever its labels, passes the check against what was prepared. */
  lemma OrderedReplyIsAccepted<P(!new), C(!new), K(!new)>(
    E: RowCheck.Evaluator<P, C>, expand: Expander<C, K>, db: MatrixValue<P>, queries: seq<C>,
    keys: map<nat, K>, expanded: seq<seq<C>>,
    group: nat, vec: seq<nat>, expected: MatrixValue<C>, first: nat, count: nat, parts: seq<Part<C>>)
    requires RowCheck.Linear(E) && |vec| > 0
    requires Given(expand, db, queries, keys, group * |vec|, |vec|, first, count)
    requires InOrder(E.G, E.act, expand, db, queries, keys, group * |vec|, |vec|, first, count, parts)
    requires ManagerExpands(expand, queries, keys, expanded, db.cols)
    requires RowCheck.LedgerHolds(E, db, expanded, group, vec, expected)
    ensures RowCheck.RowsAccepted(E, Ctxs(parts), Scheduler.RowRange(first, count), expected, vec)
  {
    forall i | 0 <= i < count
      ensures RowCheck.RowAcceptedAt(E, Ctxs(parts), Scheduler.RowRange(first, count), expected, vec, i)
    {
      ReplyRowIsHonest(E, expand, db, queries, keys, expanded, group * |vec|, |vec|, first, count, parts, i);
      HonestReplyRowIsAccepted(E, db, expanded, group, vec, expected, first, count, Ctxs(parts), i);
    }
  }

  lemma HonestReplyRowIsAccepted<P(!new), C(!new)>(
    E: RowCheck.Evaluator<P, C>, db: MatrixValue<P>, expanded: seq<seq<C>>, group: nat, vec: seq<nat>,
    expected: MatrixValue<C>,
    first: nat, count: nat, ctxs: seq<C>, i: nat)
    requires RowCheck.Linear(E) && db.Valid() && first + count <= db.rows && i < count
    requires forall q | 0 <= q < |expanded| :: |expanded[q]| == db.cols
    requires RowCheck.LedgerHolds(E, db, expanded, group, vec, expected) && i * |vec| + |vec| <= |ctxs|
    requires RowCheck.ReplyRow(ctxs, |vec|, i) ==
        RowCheck.HonestRow(E, db.RowAt(first + i), expanded, group * |vec|, |vec|)
    ensures RowCheck.RowAcceptedAt(E, ctxs, Scheduler.RowRange(first, count), expected, vec, i)
  {
    RowCheck.HonestRowIsAccepted(E, db.RowAt(first + i), expanded, group * |vec|, vec);
  }
}
