/**
 A worker's stream reader: parts arrive one message at a time and are gathered into a task, which
 goes to the channel when the manager says that it is complete.
 */
module WorkerTask {
  import opened Arith
  import opened Matrices

  datatype Message<+P, +C, +K> =
    | GaloisKey(pos: nat, key: K)
    | PtxPart(row: nat, col: nat, ptx: P)
    | CtxPart(row: nat, col: nat, ctx: C)
    | EmptyPart(row: nat, col: nat)
    | Metadata(round: int, epoch: int)
    | TaskComplete
    | Unknown

  /** `OutsideRow` is a write before the row's vector, which the source does not refuse. */
  datatype Error = ColumnTooBig | OutsideRow | NeitherPtxNorCtx | UnknownMessage

  /** An unsigned 32-bit column of a message, narrowed to int. */
  function Narrow(x: nat): int {
    if x % TWO_TO_32 < TWO_TO_31 then x % TWO_TO_32 else x % TWO_TO_32 - TWO_TO_32
  }

  lemma NarrowIs(x: nat)
    ensures x < TWO_TO_31 ==> Narrow(x) == x
    ensures TWO_TO_31 <= x < TWO_TO_32 ==> Narrow(x) == x - TWO_TO_32
  {
  }

  datatype Task<+P, +C> = Task(epoch: int, round: int, rowSize: nat, ptxRows: map<nat, seq<P>>, ctxCols: map<nat, C>)

  /** `blank` is a default-constructed plaintext. */
  datatype State<P, C, K> = State(task: Task<P, C>, sent: seq<Task<P, C>>, gkeys: map<nat, K>)

  function NewTask<P, C>(rowSize: nat): Task<P, C> {
    Task(0, 0, rowSize, map[], map[])
  }

  /** The row's vector is made before the column is looked at, and stays if the column is too big. */
  function StorePtx<P, C>(task: Task<P, C>, blank: P, row: nat, column: nat, ptx: P): (Task<P, C>, Result<(), Error>) {
    var vector := if row in task.ptxRows then task.ptxRows[row] else seq(task.rowSize, _ => blank);
    var col := Narrow(column);
    var started := task.(ptxRows := task.ptxRows[row := vector]);
    if col >= task.rowSize then (started, Failure(ColumnTooBig))
    else if col < 0 || col >= |vector| then (started, Failure(OutsideRow))
    else (task.(ptxRows := task.ptxRows[row := vector[col := ptx]]), Success(()))
  }

  /** One message, read without error. What it throws is caught, and reading goes on. */
  function Receive<P, C, K>(
    s: State<P, C, K>, blank: P, rowSize: nat, m: Message<P, C, K>): (State<P, C, K>, Result<(), Error>) {
    match m
    case GaloisKey(pos, key) => (s.(gkeys := s.gkeys[pos := key]), Success(()))
    case PtxPart(row, col, ptx) =>
      var (task, res) := StorePtx(s.task, blank, row, col, ptx);
      (s.(task := task), res)
    case CtxPart(_, col, ctx) => (s.(task := s.task.(ctxCols := s.task.ctxCols[col := ctx])), Success(()))
    case EmptyPart(_, _) => (s, Failure(NeitherPtxNorCtx))
    case Metadata(round, epoch) => (s.(task := s.task.(round := round, epoch := epoch)), Success(()))
    case TaskComplete =>
      if s.task.ptxRows != map[] || s.task.ctxCols != map[]
      then (State(NewTask(rowSize), s.sent + [s.task], s.gkeys), Success(()))
      else (s, Success(()))
    case Unknown => (s, Failure(UnknownMessage))
  }

  function ReceiveAll<P, C, K>(s: State<P, C, K>, blank: P, rowSize: nat, ms: seq<Message<P, C, K>>): State<P, C, K> {
    if ms == [] then s
    else Receive(ReceiveAll(s, blank, rowSize, ms[..|ms| - 1]), blank, rowSize, ms[|ms| - 1]).0
  }

  class Worker<P, C, K> {
    const rowSize: nat
    const blank: P
    var task: Task<P, C>
    var chan: seq<Task<P, C>>
    var gkeys: map<nat, K>

    function Value(): State<P, C, K>
      reads this
    {
      State(task, chan, gkeys)
    }

    constructor (rowSize: nat, blank: P)
      ensures Value() == State(NewTask(rowSize), [], map[])
      ensures this.rowSize == rowSize && this.blank == blank
    {
      this.rowSize, this.blank := rowSize, blank;
      task, chan, gkeys := NewTask(rowSize), [], map[];
    }

    method UpdateCurrentTask(m: Message<P, C, K>) returns (res: Result<(), Error>)
      requires m.PtxPart? || m.CtxPart? || m.EmptyPart?
      requires task.rowSize == rowSize && forall row | row in task.ptxRows :: |task.ptxRows[row]| == rowSize
      modifies this`task
      ensures (Value(), res) == Receive(old(Value()), blank, rowSize, m)
      ensures m.CtxPart? ==> res.Success? && task == old(task).(ctxCols := old(task.ctxCols)[m.col := m.ctx])
      ensures m.EmptyPart? ==> res == Failure(NeitherPtxNorCtx) && task == old(task)
    {
      if m.PtxPart? {
        if m.row !in task.ptxRows {
          task := task.(ptxRows := task.ptxRows[m.row := seq(task.rowSize, _ => blank)]);
        }
        assert task.ptxRows == old(task.ptxRows)[m.row := task.ptxRows[m.row]];
        var col := Narrow(m.col);
        if col >= task.rowSize {
          return Failure(ColumnTooBig);
        }
        if col < 0 {
          return Failure(OutsideRow);
        }
        var vector := task.ptxRows[m.row][col := m.ptx];
        task := task.(ptxRows := task.ptxRows[m.row := vector]);
        assert task.ptxRows == old(task.ptxRows)[m.row := vector];
        return Success(());
      }
      if !m.CtxPart? {
        return Failure(NeitherPtxNorCtx);
      }
      task := task.(ctxCols := task.ctxCols[m.col := m.ctx]);
      res := Success(());
    }

    /** Asks for the next message unless this read failed. */
    method OnReadDone(ok: bool, m: Message<P, C, K>) returns (readNext: bool)
      requires task.rowSize == rowSize && forall row | row in task.ptxRows :: |task.ptxRows[row]| == rowSize
      modifies this
      ensures readNext == ok
      ensures !ok || m.EmptyPart? || m.Unknown? ==> Value() == old(Value())
      ensures Value() == if ok then Receive(old(Value()), blank, rowSize, m).0 else old(Value())
      ensures task.rowSize == rowSize && forall row | row in task.ptxRows :: |task.ptxRows[row]| == rowSize
    {
      if !ok {
        return false;
      }
      match m {
        case GaloisKey(pos, key) => gkeys := gkeys[pos := key];
        case PtxPart(_, _, _) => var _ := UpdateCurrentTask(m);
        case CtxPart(_, _, _) => var _ := UpdateCurrentTask(m);
        case EmptyPart(_, _) => var _ := UpdateCurrentTask(m);
        case Metadata(round, epoch) => task := task.(round := round, epoch := epoch);
        case TaskComplete =>
          if task.ptxRows != map[] || task.ctxCols != map[] {
            chan := chan + [task];
            task := NewTask(rowSize);
          }
        case Unknown =>
      }
      readNext := true;
    }
  }

  // ----- what a message does

  ghost predicate RowsFit<P, C>(task: Task<P, C>) {
    forall row | row in task.ptxRows :: |task.ptxRows[row]| == task.rowSize
  }

  /** An entry of a task, blank where its row has not been started. */
  function EntryOf<P, C>(task: Task<P, C>, blank: P, row: nat, col: nat): P
    requires RowsFit(task) && col < task.rowSize
  {
    if row in task.ptxRows then task.ptxRows[row][col] else blank
  }

  /**
   A part of a row starts that row, in any case, and changes at most its own entry: exactly when its
   column, as a signed word, is one of the row's.
   */
  lemma PartIsStored<P, C>(task: Task<P, C>, blank: P, row: nat, column: nat, ptx: P)
    requires RowsFit(task) && column < TWO_TO_32
    ensures var (after, res) := StorePtx(task, blank, row, column, ptx);
      && res.Success? == (column < TWO_TO_31 && column < task.rowSize)
      && (res == Failure(OutsideRow) <==> column >= TWO_TO_31)
      && (res == Failure(ColumnTooBig) <==> task.rowSize <= column < TWO_TO_31)
      && after == task.(ptxRows := after.ptxRows) && RowsFit(after)
      && after.ptxRows.Keys == task.ptxRows.Keys + {row}
      && forall r: nat, c: nat | c < task.rowSize ::
           EntryOf(after, blank, r, c) ==
           if res.Success? && r == row && c == column then ptx else EntryOf(task, blank, r, c)
  {
    NarrowIs(column);
  }

  predicate IsPart<P, C, K>(m: Message<P, C, K>) {
    m.PtxPart? || m.CtxPart?
  }

  ghost predicate Holds<P, C, K>(s: State<P, C, K>) {
    s.task.ptxRows != map[] || s.task.ctxCols != map[]
  }

  /** Without a word of completion nothing is forwarded; the task holds something once a part has come. */
  lemma {:induction false} PartsAreHeld<P, C, K>(
    s: State<P, C, K>, blank: P, rowSize: nat, ms: seq<Message<P, C, K>>)
    requires forall k | 0 <= k < |ms| :: ms[k] != TaskComplete
    ensures var end := ReceiveAll(s, blank, rowSize, ms);
      end.sent == s.sent && (Holds(end) <==> Holds(s) || exists k :: 0 <= k < |ms| && IsPart(ms[k]))
  {
    if ms != [] {
      var n := |ms| - 1;
      var before := ReceiveAll(s, blank, rowSize, ms[..n]);
      PartsAreHeld(s, blank, rowSize, ms[..n]);
      if IsPart(ms[n]) {
        HeldAfterPart(before, blank, rowSize, ms[n]);
      }
    }
  }

  lemma HeldAfterPart<P, C, K>(s: State<P, C, K>, blank: P, rowSize: nat, m: Message<P, C, K>)
    requires IsPart(m)
    ensures Holds(Receive(s, blank, rowSize, m).0)
  {
    var s' := Receive(s, blank, rowSize, m).0;
    match m
    case PtxPart(row, _, _) => assert row in s'.task.ptxRows;
    case CtxPart(_, col, _) => assert col in s'.task.ctxCols;
  }

  /**
   The word of completion forwards what was gathered, and a new task starts, if and only if a part has
   come since the task was started; otherwise nothing changes.
   */
  lemma CompletionForwards<P, C, K>(s: State<P, C, K>, blank: P, rowSize: nat, ms: seq<Message<P, C, K>>)
    requires s.task == NewTask(rowSize) && forall k | 0 <= k < |ms| :: ms[k] != TaskComplete
    ensures var before, end :=
        ReceiveAll(s, blank, rowSize, ms), ReceiveAll(s, blank, rowSize, ms + [TaskComplete]);
      if exists k :: 0 <= k < |ms| && IsPart(ms[k])
      then end == State(NewTask(rowSize), s.sent + [before.task], before.gkeys)
      else end == before && end.sent == s.sent
  {
    PartsAreHeld(s, blank, rowSize, ms);
    TaskIsForwarded(s, blank, rowSize, ms);
  }

  // ----- keys

  predicate IsKeyFor<P, C, K>(m: Message<P, C, K>, pos: nat) {
    m.GaloisKey? && m.pos == pos
  }

  lemma KeysAfter<P, C, K>(s: State<P, C, K>, blank: P, rowSize: nat, m: Message<P, C, K>, pos: nat)
    ensures var keys := Receive(s, blank, rowSize, m).0.gkeys;
      if IsKeyFor(m, pos) then pos in keys && keys[pos] == m.key
      else (pos in keys <==> pos in s.gkeys) && (pos in keys ==> keys[pos] == s.gkeys[pos])
  {
  }

  /** Whatever else is sent, a position's key is the last one sent for it, and stays what it was if none was. */
  lemma {:induction false} KeysAreLastSent<P, C, K>(
    s: State<P, C, K>, blank: P, rowSize: nat, ms: seq<Message<P, C, K>>, pos: nat)
    ensures var keys := ReceiveAll(s, blank, rowSize, ms).gkeys;
      && (forall i | 0 <= i < |ms| && IsKeyFor(ms[i], pos) && forall j | i < j < |ms| :: !IsKeyFor(ms[j], pos) ::
            pos in keys && keys[pos] == ms[i].key)
      && ((forall i | 0 <= i < |ms| :: !IsKeyFor(ms[i], pos)) ==>
            (pos in keys <==> pos in s.gkeys) && (pos in keys ==> keys[pos] == s.gkeys[pos]))
  {
    if ms != [] {
      var n := |ms| - 1;
      KeysAreLastSent(s, blank, rowSize, ms[..n], pos);
      KeysAfter(ReceiveAll(s, blank, rowSize, ms[..n]), blank, rowSize, ms[n], pos);
      assert forall i | 0 <= i < n :: ms[i] == ms[..n][i];
    }
  }

  /** send_galois_keys for one worker: its clients' keys, each with its client's number. */
  function KeyMessages<P, C, K>(clientKeys: seq<K>, start: nat, count: nat): (ms: seq<Message<P, C, K>>)
    requires start + count <= |clientKeys|
    ensures |ms| == count
  {
    seq(count, i requires 0 <= i < count => GaloisKey(start + i, clientKeys[start + i]))
  }

  /** Then every position of the range has its client's key, and no other position's changes. */
  ghost predicate KeysHold<K>(clientKeys: seq<K>, start: nat, count: nat, before: map<nat, K>, keys: map<nat, K>)
    requires start + count <= |clientKeys|
  {
    && (forall q: nat :: q in keys <==> q in before || start <= q < start + count)
    && forall q | q in keys :: keys[q] == if start <= q < start + count then clientKeys[q] else before[q]
  }

  lemma {:induction false} KeysAreDelivered<P, C, K>(
    s: State<P, C, K>, blank: P, rowSize: nat, clientKeys: seq<K>, start: nat, count: nat)
    requires start + count <= |clientKeys|
    ensures var end := ReceiveAll(s, blank, rowSize, KeyMessages<P, C, K>(clientKeys, start, count));
      end == s.(gkeys := end.gkeys) && KeysHold(clientKeys, start, count, s.gkeys, end.gkeys)
  {
    if count > 0 {
      KeysAreDelivered(s, blank, rowSize, clientKeys, start, count - 1);
      assert KeyMessages<P, C, K>(clientKeys, start, count)[..count - 1] ==
        KeyMessages<P, C, K>(clientKeys, start, count - 1);
    }
  }

  // ----- gathering database rows

  /** Parts of the given rows of the database, in any order, some perhaps more than once. */
  ghost predicate PartsOf<P, C, K>(ms: seq<Message<P, C, K>>, db: MatrixValue<P>, rows: set<nat>)
    requires db.Valid()
  {
    forall k | 0 <= k < |ms| ::
      && ms[k].PtxPart? && ms[k].row in rows && ms[k].row < db.rows && ms[k].col < db.cols
      && ms[k].ptx == db.At(ms[k].row, ms[k].col)
  }

  ghost predicate Sent<P, C, K>(ms: seq<Message<P, C, K>>, row: nat, col: nat) {
    exists k :: 0 <= k < |ms| && ms[k].PtxPart? && ms[k].row == row && ms[k].col == col
  }

  /** What has arrived is in its place; the rest of a started row is blank. */
  ghost predicate Gathered<P, C, K>(ms: seq<Message<P, C, K>>, db: MatrixValue<P>, blank: P, rows: map<nat, seq<P>>)
    requires db.Valid()
  {
    && (forall row | row in rows :: row < db.rows && |rows[row]| == db.cols && exists col :: Sent(ms, row, col))
    && (forall row, col | Sent(ms, row, col) :: row in rows)
    && forall row, col | row in rows && row < db.rows && 0 <= col < db.cols && |rows[row]| == db.cols ::
         rows[row][col] == if Sent(ms, row, col) then db.At(row, col) else blank
  }

  lemma SentGrows<P, C, K>(ms: seq<Message<P, C, K>>, m: Message<P, C, K>, row: nat, col: nat)
    requires m.PtxPart?
    ensures Sent(ms + [m], row, col) <==> Sent(ms, row, col) || (row == m.row && col == m.col)
  {
    var all := ms + [m];
    if Sent(ms, row, col) {
      var k :| 0 <= k < |ms| && ms[k].PtxPart? && ms[k].row == row && ms[k].col == col;
      assert all[k] == ms[k];
    }
    if row == m.row && col == m.col { assert all[|ms|] == m; }
  }

  lemma GatherOne<P, C, K>(
    ms: seq<Message<P, C, K>>, m: Message<P, C, K>, db: MatrixValue<P>, blank: P, task: Task<P, C>)
    requires db.Valid() && m.PtxPart? && m.row < db.rows && m.col < db.cols <= TWO_TO_31 && m.ptx == db.At(m.row, m.col)
    requires task.rowSize == db.cols && Gathered(ms, db, blank, task.ptxRows)
    ensures var (task', res) := StorePtx(task, blank, m.row, m.col, m.ptx);
            && res.Success? && task' == task.(ptxRows := task'.ptxRows)
            && Gathered(ms + [m], db, blank, task'.ptxRows)
  {
    NarrowIs(m.col);
    var rows, all := StorePtx(task, blank, m.row, m.col, m.ptx).0.ptxRows, ms + [m];
    SentGrows(ms, m, m.row, m.col);
    forall row | row in rows ensures row < db.rows && |rows[row]| == db.cols && exists col :: Sent(all, row, col) {
      if row != m.row {
        var col :| Sent(ms, row, col);
        SentGrows(ms, m, row, col);
      } else {
        assert Sent(all, row, m.col);
      }
    }
    forall row, col | Sent(all, row, col) ensures row in rows { SentGrows(ms, m, row, col); }
    forall row, col | row in rows && row < db.rows && 0 <= col < db.cols && |rows[row]| == db.cols
      ensures rows[row][col] == if Sent(all, row, col) then db.At(row, col) else blank
    {
      SentGrows(ms, m, row, col);
      if m.row !in task.ptxRows { assert !Sent(ms, m.row, col); }
    }
  }

  lemma PartOnlyStores<P, C, K>(s: State<P, C, K>, blank: P, rowSize: nat, m: Message<P, C, K>)
    requires m.PtxPart?
    ensures Receive(s, blank, rowSize, m).0 == s.(task := StorePtx(s.task, blank, m.row, m.col, m.ptx).0)
  {
  }

  lemma {:induction false} GatherAll<P, C, K>(
    s: State<P, C, K>, blank: P, ms: seq<Message<P, C, K>>, db: MatrixValue<P>, rows: set<nat>)
    requires db.Valid() && db.cols <= TWO_TO_31
    requires PartsOf(ms, db, rows) && s.task.rowSize == db.cols && s.task.ptxRows == map[]
    ensures var end := ReceiveAll(s, blank, db.cols, ms);
            && end == s.(task := s.task.(ptxRows := end.task.ptxRows))
            && Gathered(ms, db, blank, end.task.ptxRows)
  {
    if ms != [] {
      var n := |ms| - 1;
      var before := ReceiveAll(s, blank, db.cols, ms[..n]);
      GatherAll(s, blank, ms[..n], db, rows);
      assert ms == ms[..n] + [ms[n]];
      GatherOne(ms[..n], ms[n], db, blank, before.task);
      PartOnlyStores(before, blank, db.cols, ms[n]);
    } else {
      assert forall row, col :: !Sent(ms, row, col);
    }
  }

  /** Every part of every row is there. */
  ghost predicate AllSent<P, C, K>(ms: seq<Message<P, C, K>>, db: MatrixValue<P>, rows: set<nat>) {
    forall row, col | row in rows && 0 <= col < db.cols :: Sent(ms, row, col)
  }

  function RowsOf<P>(db: MatrixValue<P>, rows: set<nat>): map<nat, seq<P>>
    requires db.Valid() && forall row | row in rows :: row < db.rows
  {
    map row | row in rows :: db.RowAt(row)
  }

  lemma GatheredIsComplete<P, C, K>(
    ms: seq<Message<P, C, K>>, db: MatrixValue<P>, blank: P, rows: set<nat>, got: map<nat, seq<P>>)
    requires db.Valid() && db.cols > 0 && forall row | row in rows :: row < db.rows
    requires PartsOf(ms, db, rows) && AllSent(ms, db, rows) && Gathered(ms, db, blank, got)
    ensures got == RowsOf(db, rows)
  {
    forall row | row in rows ensures row in got && got[row] == db.RowAt(row) {
      assert Sent(ms, row, 0);
      forall col | 0 <= col < db.cols ensures got[row][col] == db.RowAt(row)[col] {
        assert Sent(ms, row, col);
      }
    }
    forall row | row in got ensures row in rows {
      var col :| Sent(ms, row, col);
    }
  }

  /**
   Whatever the order the parts arrive in, a worker between tasks that is sent all parts of some
   rows and then told that the task is complete forwards exactly those rows, once.
   */
  lemma RowsAreAssembled<P, C, K>(
    s: State<P, C, K>, blank: P, ms: seq<Message<P, C, K>>, db: MatrixValue<P>, rows: set<nat>)
    requires db.Valid() && 0 < db.cols <= TWO_TO_31 && rows != {} && forall row | row in rows :: row < db.rows
    requires PartsOf(ms, db, rows) && AllSent(ms, db, rows)
    requires s.task.rowSize == db.cols && s.task.ptxRows == map[]
    ensures ReceiveAll(s, blank, db.cols, ms + [TaskComplete])
            == State(NewTask(db.cols), s.sent + [s.task.(ptxRows := RowsOf(db, rows))], s.gkeys)
  {
    RowsAreGathered(s, blank, ms, db, rows);
    TaskIsForwarded(s, blank, db.cols, ms);
    var row :| row in rows;
    assert row in RowsOf(db, rows);
  }

  lemma RowsAreGathered<P, C, K>(
    s: State<P, C, K>, blank: P, ms: seq<Message<P, C, K>>, db: MatrixValue<P>, rows: set<nat>)
    requires db.Valid() && 0 < db.cols <= TWO_TO_31 && forall row | row in rows :: row < db.rows
    requires PartsOf(ms, db, rows) && AllSent(ms, db, rows)
    requires s.task.rowSize == db.cols && s.task.ptxRows == map[]
    ensures ReceiveAll(s, blank, db.cols, ms) == s.(task := s.task.(ptxRows := RowsOf(db, rows)))
  {
    GatherAll(s, blank, ms, db, rows);
    GatheredIsComplete(ms, db, blank, rows, ReceiveAll(s, blank, db.cols, ms).task.ptxRows);
  }

  lemma TaskIsForwarded<P, C, K>(s: State<P, C, K>, blank: P, rowSize: nat, ms: seq<Message<P, C, K>>)
    ensures ReceiveAll(s, blank, rowSize, ms + [TaskComplete])
            == Receive(ReceiveAll(s, blank, rowSize, ms), blank, rowSize, TaskComplete).0
  {
    assert (ms + [TaskComplete])[..|ms|] == ms;
  }

  // ----- gathering queries

  /** send_queries for one worker: its clients' queries, in order. */
  function QueryMessages<P, C, K>(queries: seq<C>, start: nat, count: nat): (ms: seq<Message<P, C, K>>)
    requires start + count <= |queries|
    ensures |ms| == count
  {
    seq(count, i requires 0 <= i < count => CtxPart(0, start + i, queries[start + i]))
  }

  function ColumnsOf<C>(queries: seq<C>, start: nat, count: nat): map<nat, C>
    requires start + count <= |queries|
  {
    map i | start <= i < start + count :: queries[i]
  }

  lemma {:induction false} QueriesGather<P, C, K>(
    s: State<P, C, K>, blank: P, rowSize: nat, queries: seq<C>, start: nat, count: nat)
    requires start + count <= |queries| && s.task.ctxCols == map[]
    ensures ReceiveAll(s, blank, rowSize, QueryMessages<P, C, K>(queries, start, count))
            == s.(task := s.task.(ctxCols := ColumnsOf(queries, start, count)))
  {
    if count > 0 {
      QueriesGather(s, blank, rowSize, queries, start, count - 1);
      assert QueryMessages<P, C, K>(queries, start, count)[..count - 1] ==
        QueryMessages<P, C, K>(queries, start, count - 1);
      assert ColumnsOf(queries, start, count)
          == ColumnsOf(queries, start, count - 1)[start + count - 1 := queries[start + count - 1]];
    } else {
      assert ColumnsOf(queries, start, 0) == map[];
    }
  }

  lemma QueriesAreAssembled<P, C, K>(s: State<P, C, K>, blank: P, rowSize: nat, queries: seq<C>, start: nat, count: nat)
    requires start + count <= |queries| && count > 0 && s.task.ctxCols == map[]
    ensures ReceiveAll(s, blank, rowSize, QueryMessages<P, C, K>(queries, start, count) + [TaskComplete])
            == State(NewTask(rowSize), s.sent + [s.task.(ctxCols := ColumnsOf(queries, start, count))], s.gkeys)
  {
    var ms := QueryMessages<P, C, K>(queries, start, count);
    QueriesGather(s, blank, rowSize, queries, start, count);
    assert (ms + [TaskComplete])[..|ms|] == ms;
    assert start in ColumnsOf(queries, start, count);
  }
}
