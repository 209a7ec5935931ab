/**
 The matrix product as the pool computes it: a task for every cell, in a channel shared with
 whatever else is submitted. Every schedule gives the sequential product.
 */
module ParallelProduct {
  import opened Arith
  import opened Algebra
  import opened Matrices
  import opened ThreadPool

  /**
   The job's tasks stand in the pool's table at the given places, in any mixture with others';
   no other task counts the job's latch down.
   */
  ghost predicate Submitted<V>(tasks: seq<Task<V>>, job: seq<Task<V>>, places: seq<nat>, latch: nat) {
    && |places| == |job|
    && (forall k | 0 <= k < |job| :: places[k] < |tasks| && tasks[places[k]] == job[k] && job[k].latch == Some(latch))
    && (forall t | 0 <= t < |tasks| && tasks[t].latch == Some(latch) :: t in places)
    && (forall j, k | 0 <= j < |job| && 0 <= k < |job| && job[j].cell == job[k].cell :: j == k)
  }

  /** No task, of the job or not, stores anything else in the job's cells. Others may share cells at will. */
  ghost predicate Owned<V>(tasks: seq<Task<V>>, job: seq<Task<V>>) {
    forall k | 0 <= k < |job| :: Agreed(tasks, job[k].cell, job[k].value)
  }

  function Members(s: seq<nat>): set<nat> {
    set x | x in s
  }

  lemma {:induction false} DistinctSize(s: seq<nat>)
    requires forall j, k | 0 <= j < |s| && 0 <= k < |s| && s[j] == s[k] :: j == k
    ensures |Members(s)| == |s|
  {
    if s == [] {
      assert Members(s) == {};
    } else {
      var n := |s| - 1;
      var rest := s[..n];
      DistinctSize(rest);
      assert s == rest + [s[n]];
      assert Members(s) == Members(rest) + {s[n]};
      assert s[n] !in Members(rest);
    }
  }

  /** The latch is made for exactly the job's tasks. */
  lemma JobSize<V>(tasks: seq<Task<V>>, job: seq<Task<V>>, places: seq<nat>, latch: nat)
    requires Submitted(tasks, job, places, latch)
    ensures |TasksOn(tasks, |tasks|, latch)| == |job|
  {
    forall j, k | 0 <= j < |places| && 0 <= k < |places| && places[j] == places[k] ensures j == k {
      assert job[j].cell == job[k].cell;
    }
    DistinctSize(places);
    var S := Members(places);
    forall t | t in S ensures t in TasksOn(tasks, |tasks|, latch) {
      var k :| 0 <= k < |places| && places[k] == t;
      assert tasks[places[k]] == job[k];
    }
    assert S == TasksOn(tasks, |tasks|, latch);
  }

  /** Once the job's latch has opened, in any run, every cell of the job holds its value. */
  lemma JobIsDone<V>(
      tasks: seq<Task<V>>, n: nat, init: seq<nat>, memory: seq<V>, steps: seq<Step>, end: Pool<V>,
      job: seq<Task<V>>, places: seq<nat>, latch: nat)
    requires Owned(tasks, job) && TasksFit(tasks, |init|, |memory|)
    requires Submitted(tasks, job, places, latch) && latch < |init| && init[latch] == |job|
    requires Reaches(tasks, Start(n, init, memory), steps, end) && latch < |end.latches| && end.latches[latch] == 0
    ensures |end.memory| == |memory|
    ensures forall k | 0 <= k < |job| :: job[k].cell < |memory| && end.memory[job[k].cell] == job[k].value
  {
    StartInv(tasks, n, init, memory);
    RunsKeepInv(tasks, init, |memory|, Start(n, init, memory), steps, end);
    JobSize(tasks, job, places, latch);
    forall k | 0 <= k < |job|
      ensures job[k].cell < |memory| && end.memory[job[k].cell] == job[k].value
    {
      var cell, value := job[k].cell, job[k].value;
      assert tasks[places[k]] == job[k];
      assert CellHolds(tasks, memory, Start(n, init, memory), cell, value);
      RunsKeepCell(tasks, memory, Start(n, init, memory), steps, end, cell, value);
      OpenLatchMeansWritten(tasks, init, memory, end, latch, places[k]);
    }
  }

  // ----- the product's tasks

  /** The task that computes cell (i, j); results are laid out column by column from base on. */
  function ProductTask<U, V, C>(
    G: Group<C>, mul: (U, V) -> C, left: MatrixValue<U>, right: MatrixValue<V>, latch: nat, base: nat, i: nat,
    j: nat): Task<C>
    requires left.Valid() && right.Valid() && left.cols == right.rows && i < left.rows && j < right.cols
  {
    Task(Some(latch), base + Pos(left.rows, i, j), Cell(G, mul, left, right, i, j))
  }

  /** Tasks in row-major order, up to row i and column j of it. */
  ghost predicate HasTask<U, V, C>(
    G: Group<C>, mul: (U, V) -> C, left: MatrixValue<U>, right: MatrixValue<V>, latch: nat, base: nat,
    job: seq<Task<C>>, i: nat, j: nat)
    requires left.Valid() && right.Valid() && left.cols == right.rows && i < left.rows && j < right.cols
  {
    var k := Pos(right.cols, j, i);
    k < |job| && job[k] == ProductTask(G, mul, left, right, latch, base, i, j)
  }

  ghost predicate IsProductJob<U, V, C>(
    G: Group<C>, mul: (U, V) -> C, left: MatrixValue<U>, right: MatrixValue<V>, latch: nat, base: nat,
    job: seq<Task<C>>)
    requires left.Valid() && right.Valid() && left.cols == right.rows
  {
    && |job| == right.cols * left.rows
    && forall i, j | 0 <= i < left.rows && 0 <= j < right.cols :: HasTask(G, mul, left, right, latch, base, job, i, j)
  }

  /** The tasks of one row, appended. */
  method SubmitRow<U, V, C>(
    G: Group<C>, mul: (U, V) -> C, left: MatrixValue<U>, right: MatrixValue<V>, latch: nat, base: nat, i: nat,
    before: seq<Task<C>>)
    returns (job: seq<Task<C>>)
    requires left.Valid() && right.Valid() && left.cols == right.rows && i < left.rows
    requires |before| == Pos(right.cols, 0, i)
    ensures |job| == Pos(right.cols, right.cols, i) && before <= job
    ensures forall j | 0 <= j < right.cols :: HasTask(G, mul, left, right, latch, base, job, i, j)
  {
    job := before;
    for j := 0 to right.cols
      invariant |job| == Pos(right.cols, j, i) && before <= job
      invariant forall b | 0 <= b < j :: HasTask(G, mul, left, right, latch, base, job, i, b)
    {
      ghost var shorter := job;
      job := job + [ProductTask(G, mul, left, right, latch, base, i, j)];
      forall b | 0 <= b <= j ensures HasTask(G, mul, left, right, latch, base, job, i, b) {
        if b < j { HasTaskStays(G, mul, left, right, latch, base, shorter, job, i, b); }
      }
    }
  }

  lemma HasTaskStays<U, V, C>(
    G: Group<C>, mul: (U, V) -> C, left: MatrixValue<U>, right: MatrixValue<V>, latch: nat, base: nat,
    job: seq<Task<C>>, longer: seq<Task<C>>, i: nat, j: nat)
    requires left.Valid() && right.Valid() && left.cols == right.rows && i < left.rows && j < right.cols
    requires HasTask(G, mul, left, right, latch, base, job, i, j) && job <= longer
    ensures HasTask(G, mul, left, right, latch, base, longer, i, j)
  {
  }

  /** mat_mult's loops: the checks, then a task for every cell, row by row. */
  method SubmitProduct<U, V, C>(
    G: Group<C>, mul: (U, V) -> C, left: MatrixValue<U>, right: MatrixValue<V>, latch: nat, base: nat)
    returns (res: Result<seq<Task<C>>, Matrices.Error>)
    requires left.Valid() && right.Valid()
    ensures res == Failure(DimensionMismatch) <==> left.cols != right.rows
    ensures res.Success? <==> left.cols == right.rows && |left.data| > 0 && |right.data| > 0
    ensures res.Success? ==> IsProductJob(G, mul, left, right, latch, base, res.value)
  {
    if left.cols != right.rows { return Failure(DimensionMismatch); }
    if |left.data| == 0 || |right.data| == 0 { return Failure(EmptyMatrix); }
    var job: seq<Task<C>> := [];
    for i := 0 to left.rows
      invariant |job| == Pos(right.cols, 0, i)
      invariant forall a, b | 0 <= a < i && 0 <= b < right.cols :: HasTask(G, mul, left, right, latch, base, job, a, b)
    {
      ghost var shorter := job;
      job := SubmitRow(G, mul, left, right, latch, base, i, job);
      NextColumn(right.cols, i);
      forall a, b | 0 <= a <= i && 0 <= b < right.cols ensures HasTask(G, mul, left, right, latch, base, job, a, b) {
        if a < i { HasTaskStays(G, mul, left, right, latch, base, shorter, job, a, b); }
      }
    }
    res := Success(job);
  }

  /**
   However the pool's threads interleave, and whatever else they run: once mat_mult's latch has
   opened, the result's memory is the product matrix.
   */
  lemma AnyScheduleIsSequential<U, V, C>(
      G: Group<C>, mul: (U, V) -> C, left: MatrixValue<U>, right: MatrixValue<V>,
      tasks: seq<Task<C>>, n: nat, init: seq<nat>, memory: seq<C>, steps: seq<Step>, end: Pool<C>,
      job: seq<Task<C>>, places: seq<nat>, latch: nat, base: nat)
    requires left.Valid() && right.Valid() && left.cols == right.rows
    requires IsProductJob(G, mul, left, right, latch, base, job)
    requires Owned(tasks, job) && TasksFit(tasks, |init|, |memory|)
    requires Submitted(tasks, job, places, latch) && latch < |init| && init[latch] == |job|
    requires base + left.rows * right.cols <= |memory|
    requires Reaches(tasks, Start(n, init, memory), steps, end) && latch < |end.latches| && end.latches[latch] == 0
    ensures |end.memory| == |memory|
    ensures IsProduct(G, mul, left, right, Mat(left.rows, right.cols, end.memory[base..base + left.rows * right.cols]))
  {
    JobIsDone(tasks, n, init, memory, steps, end, job, places, latch);
    var m := Mat(left.rows, right.cols, end.memory[base..base + left.rows * right.cols]);
    forall i, j | 0 <= i < m.rows && 0 <= j < m.cols ensures m.At(i, j) == Cell(G, mul, left, right, i, j) {
      PosIsBijective(left.rows, right.cols, i, j);
      var k := Pos(right.cols, j, i);
      assert HasTask(G, mul, left, right, latch, base, job, i, j);
      assert end.memory[job[k].cell] == job[k].value;
    }
  }

  /** The parallel result and the sequential one are the same matrix. */
  lemma ProductIsUnique<U, V, C>(
    G: Group<C>, mul: (U, V) -> C, left: MatrixValue<U>, right: MatrixValue<V>, a: MatrixValue<C>,
    b: MatrixValue<C>)
    requires left.Valid() && right.Valid() && left.cols == right.rows
    requires IsProduct(G, mul, left, right, a) && IsProduct(G, mul, left, right, b)
    ensures a == b
  {
    SameCells(a, b);
  }

  lemma TaskCell<U, V, C>(
    G: Group<C>, mul: (U, V) -> C, left: MatrixValue<U>, right: MatrixValue<V>, latch: nat, base: nat,
    job: seq<Task<C>>, k: nat)
    returns (i: nat, j: nat)
    requires left.Valid() && right.Valid() && left.cols == right.rows
    requires IsProductJob(G, mul, left, right, latch, base, job) && k < |job|
    ensures i < left.rows && j < right.cols && k == Pos(right.cols, j, i)
    ensures job[k] == ProductTask(G, mul, left, right, latch, base, i, j)
  {
    EveryPosIsACell(right.cols, left.rows, k);
    i, j := k / right.cols, k % right.cols;
    assert HasTask(G, mul, left, right, latch, base, job, i, j);
  }

  /** Distinct tasks of the product write distinct memory, so the job can be submitted as it is. */
  lemma ProductCellsAreDistinct<U, V, C>(
    G: Group<C>, mul: (U, V) -> C, left: MatrixValue<U>, right: MatrixValue<V>, latch: nat, base: nat,
    job: seq<Task<C>>, j: nat, k: nat)
    requires left.Valid() && right.Valid() && left.cols == right.rows
    requires IsProductJob(G, mul, left, right, latch, base, job)
    requires j < |job| && k < |job| && job[j].cell == job[k].cell
    ensures j == k
  {
    var a, b := TaskCell(G, mul, left, right, latch, base, job, j);
    var c, d := TaskCell(G, mul, left, right, latch, base, job, k);
    PosIsBijective(left.rows, right.cols, a, b);
    PosIsBijective(left.rows, right.cols, c, d);
  }
}
