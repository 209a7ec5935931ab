/**
 The pool: threads that read tasks from one channel, run them and count latches down. The steps
 are its critical sections and task bodies; a run is any sequence of enabled steps.
 */
module ThreadPool {
  import opened Arith
  import opened Concurrency
  import opened Counting

  /** A task writes a value, fixed when it is made, into a memory cell; some count no latch down. */
  datatype Task<+V> = Task(latch: Option<nat>, cell: nat, value: V)

  datatype ThreadState = Reading | Running(task: nat) | Ran(task: nat) | Exited

  /**
   Tasks are known by their place in the order of submission. `ran` and `completed` record the
   order in which task bodies ran and latches were counted down for them.
   */
  datatype Pool<+V> = Pool(
    chan: ChannelState<nat>,
    threads: seq<ThreadState>,
    latches: seq<int>,
    memory: seq<V>,
    submitted: nat,
    ran: seq<nat>,
    completed: seq<nat>)

  datatype Step = Submit | Close | Read(thread: nat) | Run(thread: nat) | CountDown(thread: nat)

  /** Every task's latch and memory cell exist. */
  ghost predicate TasksFit<V>(tasks: seq<Task<V>>, latches: nat, cells: nat) {
    forall k | 0 <= k < |tasks| :: LatchExists(tasks[k], latches) && tasks[k].cell < cells
  }

  predicate LatchExists<V>(task: Task<V>, latches: nat) {
    task.latch.Some? ==> task.latch.value < latches
  }

  function CountedDown<V>(latches: seq<int>, task: Task<V>): (r: seq<int>)
    requires LatchExists(task, |latches|)
    ensures |r| == |latches|
  {
    if task.latch.Some? then latches[task.latch.value := latches[task.latch.value] - 1] else latches
  }

  predicate Enabled<V>(tasks: seq<Task<V>>, s: Pool<V>, step: Step) {
    match step
    case Submit => s.submitted < |tasks| && !s.chan.closed
    case Close => true
    case Read(t) => t < |s.threads| && s.threads[t] == Reading && s.chan.Readable()
    case Run(t) => (
      && t < |s.threads| && s.threads[t].Running? && s.threads[t].task < |tasks|
      && tasks[s.threads[t].task].cell < |s.memory|)
    case CountDown(t) => (
      && t < |s.threads| && s.threads[t].Ran? && s.threads[t].task < |tasks|
      && LatchExists(tasks[s.threads[t].task], |s.latches|))
  }

  function Apply<V>(tasks: seq<Task<V>>, s: Pool<V>, step: Step): (s': Pool<V>)
    requires Enabled(tasks, s, step)
  {
    match step
    case Submit => s.(chan := s.chan.(q := s.chan.q + [s.submitted]), submitted := s.submitted + 1)
    case Close => s.(chan := s.chan.(closed := true))
    case Read(t) =>
      var (chan, answer) := Pop(s.chan);
      s.(chan := chan, threads := s.threads[t := if answer.Some? then Running(answer.value) else Exited])
    case Run(t) =>
      var k := s.threads[t].task;
      s.(memory := s.memory[tasks[k].cell := tasks[k].value], ran := s.ran + [k], threads := s.threads[t := Ran(k)])
    case CountDown(t) =>
      var k := s.threads[t].task;
      s.(latches := CountedDown(s.latches, tasks[k]),
         completed := s.completed + [k], threads := s.threads[t := Reading])
  }

  /** n threads at the start, nothing submitted. */
  function Start<V>(n: nat, latches: seq<nat>, memory: seq<V>): Pool<V> {
    Pool(ChannelState([], false), seq(n, _ => Reading), seq(|latches|, l requires 0 <= l < |latches| => latches[l]),
        memory, 0, [], [])
  }

  /** The state after some steps, each enabled in its turn. */
  ghost predicate Reaches<V>(tasks: seq<Task<V>>, s: Pool<V>, steps: seq<Step>, end: Pool<V>)
    decreases |steps|
  {
    if steps == [] then s == end
    else Enabled(tasks, s, steps[0]) && Reaches(tasks, Apply(tasks, s, steps[0]), steps[1..], end)
  }

  // ----- where the tasks are

  function Held(t: ThreadState, ran: bool, k: nat): nat {
    if t == if ran then Ran(k) else Running(k) then 1 else 0
  }

  /** How many threads have task k in hand: still running it, or having run it. */
  function InHand(threads: seq<ThreadState>, ran: bool, k: nat): nat {
    if threads == [] then 0
    else InHand(threads[..|threads| - 1], ran, k) + Held(threads[|threads| - 1], ran, k)
  }

  lemma {:induction false} InHandChanges(threads: seq<ThreadState>, t: nat, x: ThreadState, ran: bool, k: nat)
    requires t < |threads|
    ensures InHand(threads[t := x], ran, k) + Held(threads[t], ran, k) == InHand(threads, ran, k) + Held(x, ran, k)
  {
    var n := |threads| - 1;
    if t < n {
      InHandChanges(threads[..n], t, x, ran, k);
      assert threads[t := x][..n] == threads[..n][t := x];
    } else {
      assert threads[t := x][..n] == threads[..n];
    }
  }

  lemma {:induction false} InHandOfNone(threads: seq<ThreadState>, ran: bool, k: nat)
    requires forall t | 0 <= t < |threads| :: threads[t] == Reading || threads[t] == Exited
    ensures InHand(threads, ran, k) == 0
  {
    if threads != [] { InHandOfNone(threads[..|threads| - 1], ran, k); }
  }

  // ----- latches

  /** How many of the listed tasks count this latch down. */
  function CountOn<V>(tasks: seq<Task<V>>, list: seq<nat>, latch: nat): nat {
    if list == [] then 0
    else
      var k := list[|list| - 1];
      CountOn(tasks, list[..|list| - 1], latch) + if k < |tasks| && tasks[k].latch == Some(latch) then 1 else 0
  }

  /** The tasks on a latch among the first n. */
  function TasksOn<V>(tasks: seq<Task<V>>, n: nat, latch: nat): set<nat> {
    set k: nat | k < n && k < |tasks| && tasks[k].latch == Some(latch)
  }

  /** In a list without repetitions, the count is the number of tasks on the latch. */
  lemma {:induction false} CountIsSize<V>(tasks: seq<Task<V>>, list: seq<nat>, latch: nat)
    requires forall k :: multiset(list)[k] <= 1
    ensures CountOn(tasks, list, latch) == |set k | k in list && k < |tasks| && tasks[k].latch == Some(latch)|
  {
    var S := set k | k in list && k < |tasks| && tasks[k].latch == Some(latch);
    if list != [] {
      var n := |list| - 1;
      var rest, k := list[..n], list[n];
      assert list == rest + [k];
      assert multiset(list) == multiset(rest) + multiset{k};
      forall j ensures multiset(rest)[j] <= 1 { assert multiset(list)[j] <= 1; }
      CountIsSize(tasks, rest, latch);
      var T := set j | j in rest && j < |tasks| && tasks[j].latch == Some(latch);
      assert multiset(list)[k] == multiset(rest)[k] + 1;
      if k < |tasks| && tasks[k].latch == Some(latch) {
        assert S == T + {k};
      } else {
        assert S == T;
      }
    } else {
      assert S == {};
    }
  }

  // ----- the invariant

  /** A submitted task is in the channel, in one thread's hands, or done: in one place, once. */
  ghost predicate PlacedOnce<V>(s: Pool<V>, k: nat) {
    && multiset(s.chan.q)[k] + InHand(s.threads, false, k) + multiset(s.ran)[k] == (if k < s.submitted then 1 else 0)
    && multiset(s.ran)[k] == InHand(s.threads, true, k) + multiset(s.completed)[k]
  }

  ghost predicate Placed<V>(s: Pool<V>) {
    forall k: nat :: PlacedOnce(s, k)
  }

  ghost predicate LatchesHold<V>(tasks: seq<Task<V>>, init: seq<nat>, s: Pool<V>) {
    && |s.latches| == |init|
    && forall l | 0 <= l < |init| :: s.latches[l] == init[l] - CountOn(tasks, s.completed, l)
  }

  /** Where the tasks are, what the latches show and which threads have left. */
  ghost predicate Inv<V>(tasks: seq<Task<V>>, init: seq<nat>, cells: nat, s: Pool<V>) {
    && s.submitted <= |tasks|
    && Placed(s)
    && LatchesHold(tasks, init, s)
    && |s.memory| == cells
    && ExitsHold(s)
  }

  /** A thread only leaves a closed, drained channel. */
  ghost predicate ExitsHold<V>(s: Pool<V>) {
    forall t | 0 <= t < |s.threads| && s.threads[t] == Exited :: s.chan.closed && s.chan.q == []
  }

  lemma StartInv<V>(tasks: seq<Task<V>>, n: nat, init: seq<nat>, memory: seq<V>)
    ensures Inv(tasks, init, |memory|, Start(n, init, memory))
  {
    forall k: nat ensures PlacedOnce(Start(n, init, memory), k) {
      InHandOfNone(Start(n, init, memory).threads, false, k);
      InHandOfNone(Start(n, init, memory).threads, true, k);
    }
  }

  lemma AppendedOnce(list: seq<nat>, k: nat, j: nat)
    ensures multiset(list + [k])[j] == multiset(list)[j] + if j == k then 1 else 0
  {
  }

  lemma PlacedIsKept<V>(tasks: seq<Task<V>>, s: Pool<V>, step: Step, k: nat)
    requires PlacedOnce(s, k) && Enabled(tasks, s, step)
    ensures PlacedOnce(Apply(tasks, s, step), k)
  {
    var s' := Apply(tasks, s, step);
    if step.Read? || step.Run? || step.CountDown? {
      InHandChanges(s.threads, step.thread, s'.threads[step.thread], false, k);
      InHandChanges(s.threads, step.thread, s'.threads[step.thread], true, k);
    }
    match step
    case Submit => AppendedOnce(s.chan.q, s.submitted, k);
    case Close =>
    case Read(t) =>
      if s.chan.q != [] {
        assert s.chan.q == [s.chan.q[0]] + s'.chan.q;
      }
    case Run(t) => AppendedOnce(s.ran, s.threads[t].task, k);
    case CountDown(t) => AppendedOnce(s.completed, s.threads[t].task, k);
  }

  lemma LatchesAreKept<V>(tasks: seq<Task<V>>, init: seq<nat>, s: Pool<V>, step: Step)
    requires LatchesHold(tasks, init, s) && Enabled(tasks, s, step)
    ensures LatchesHold(tasks, init, Apply(tasks, s, step))
  {
    if step.CountDown? {
      assert Apply(tasks, s, step).completed[..|s.completed|] == s.completed;
    }
  }

  lemma ExitsAreKept<V>(tasks: seq<Task<V>>, s: Pool<V>, step: Step)
    requires ExitsHold(s) && Enabled(tasks, s, step)
    ensures ExitsHold(Apply(tasks, s, step))
  {
    var s' := Apply(tasks, s, step);
    forall t | 0 <= t < |s'.threads| && s'.threads[t] == Exited ensures s'.chan.closed && s'.chan.q == [] {
      if s.threads[t] == Exited { assert s.chan.closed; }
    }
  }

  lemma StepKeepsInv<V>(tasks: seq<Task<V>>, init: seq<nat>, cells: nat, s: Pool<V>, step: Step)
    requires Inv(tasks, init, cells, s) && Enabled(tasks, s, step)
    ensures Inv(tasks, init, cells, Apply(tasks, s, step))
  {
    forall k: nat ensures PlacedOnce(Apply(tasks, s, step), k) { PlacedIsKept(tasks, s, step, k); }
    LatchesAreKept(tasks, init, s, step);
    ExitsAreKept(tasks, s, step);
  }

  /** Every state of every run satisfies the invariant, whatever memory the tasks share. */
  lemma {:induction false} RunsKeepInv<V>(
    tasks: seq<Task<V>>, init: seq<nat>, cells: nat, s: Pool<V>, steps: seq<Step>, end: Pool<V>)
    requires Inv(tasks, init, cells, s) && Reaches(tasks, s, steps, end)
    ensures Inv(tasks, init, cells, end)
    decreases |steps|
  {
    if steps != [] {
      StepKeepsInv(tasks, init, cells, s, steps[0]);
      RunsKeepInv(tasks, init, cells, Apply(tasks, s, steps[0]), steps[1..], end);
    }
  }

  // ----- one memory cell

  /** Whatever tasks write this cell write the same value, as two senders of one database row do. */
  ghost predicate Agreed<V>(tasks: seq<Task<V>>, c: nat, v: V) {
    forall k | 0 <= k < |tasks| && tasks[k].cell == c :: tasks[k].value == v
  }

  ghost predicate WrittenBy<V>(tasks: seq<Task<V>>, ran: seq<nat>, c: nat) {
    exists k :: k in ran && k < |tasks| && tasks[k].cell == c
  }

  /** The cell holds the value once one of its tasks has run, and what it held at the start before. */
  ghost predicate CellHolds<V>(tasks: seq<Task<V>>, start: seq<V>, s: Pool<V>, c: nat, v: V) {
    && |s.memory| == |start| && c < |start|
    && s.memory[c] == if WrittenBy(tasks, s.ran, c) then v else start[c]
  }

  lemma RanGrows<V>(tasks: seq<Task<V>>, ran: seq<nat>, k: nat, c: nat)
    ensures WrittenBy(tasks, ran + [k], c) <==> WrittenBy(tasks, ran, c) || (k < |tasks| && tasks[k].cell == c)
  {
    if WrittenBy(tasks, ran, c) {
      var j :| j in ran && j < |tasks| && tasks[j].cell == c;
      assert j in ran + [k];
    }
    assert k in ran + [k];
  }

  lemma CellIsKept<V>(tasks: seq<Task<V>>, start: seq<V>, s: Pool<V>, step: Step, c: nat, v: V)
    requires Agreed(tasks, c, v) && CellHolds(tasks, start, s, c, v) && Enabled(tasks, s, step)
    ensures CellHolds(tasks, start, Apply(tasks, s, step), c, v)
  {
    if step.Run? { RanGrows(tasks, s.ran, s.threads[step.thread].task, c); }
  }

  /** In every run, whatever the tasks do to other cells. */
  lemma {:induction false} RunsKeepCell<V>(
    tasks: seq<Task<V>>, start: seq<V>, s: Pool<V>, steps: seq<Step>, end: Pool<V>, c: nat, v: V)
    requires Agreed(tasks, c, v) && CellHolds(tasks, start, s, c, v) && Reaches(tasks, s, steps, end)
    ensures CellHolds(tasks, start, end, c, v)
    decreases |steps|
  {
    if steps != [] {
      CellIsKept(tasks, start, s, steps[0], c, v);
      RunsKeepCell(tasks, start, Apply(tasks, s, steps[0]), steps[1..], end, c, v);
    }
  }

  // ----- exactly once, and latches

  /** No task runs or is counted twice; only submitted tasks run, only those that ran are counted. */
  lemma ExactlyOnce<V>(tasks: seq<Task<V>>, init: seq<nat>, cells: nat, s: Pool<V>, k: nat)
    requires Inv(tasks, init, cells, s)
    ensures multiset(s.completed)[k] <= multiset(s.ran)[k] <= (if k < s.submitted then 1 else 0)
  {
    assert PlacedOnce(s, k);
  }

  function CompletedOn<V>(tasks: seq<Task<V>>, s: Pool<V>, latch: nat): set<nat> {
    set k | k in s.completed && k < |tasks| && tasks[k].latch == Some(latch)
  }

  lemma LatchCounts<V>(tasks: seq<Task<V>>, init: seq<nat>, cells: nat, s: Pool<V>, l: nat)
    requires Inv(tasks, init, cells, s) && l < |init|
    ensures s.latches[l] == init[l] - |CompletedOn(tasks, s, l)|
    ensures CompletedOn(tasks, s, l) <= TasksOn(tasks, s.submitted, l)
  {
    forall k ensures multiset(s.completed)[k] <= 1 { if k >= 0 { ExactlyOnce(tasks, init, cells, s, k); } }
    CountIsSize(tasks, s.completed, l);
    forall k | k in s.completed ensures k < s.submitted {
      ExactlyOnce(tasks, init, cells, s, k);
      assert multiset(s.completed)[k] > 0;
    }
  }

  /** The latch is not below zero, and not at zero either when a thread is about to count it down. */
  ghost predicate LatchIsFine<V>(tasks: seq<Task<V>>, s: Pool<V>, l: nat) {
    && l < |s.latches| && s.latches[l] >= 0
    && forall t: nat | Enabled(tasks, s, Step.CountDown(t)) && tasks[s.threads[t].task].latch == Some(l) ::
         s.latches[l] > 0
  }

  /** A latch with room for its tasks never goes below zero, and is above zero when counted down. */
  lemma LatchIsSafe<V>(tasks: seq<Task<V>>, init: seq<nat>, cells: nat, s: Pool<V>, l: nat)
    requires Inv(tasks, init, cells, s) && l < |init| && |TasksOn(tasks, |tasks|, l)| <= init[l]
    ensures LatchIsFine(tasks, s, l)
  {
    LatchCounts(tasks, init, cells, s, l);
    var done, all := CompletedOn(tasks, s, l), TasksOn(tasks, |tasks|, l);
    SubsetSize(done, all);
    forall t: nat | Enabled(tasks, s, Step.CountDown(t)) && tasks[s.threads[t].task].latch == Some(l)
      ensures s.latches[l] > 0
    {
      var k := s.threads[t].task;
      HeldByThread(s.threads, t, true, k);
      ExactlyOnce(tasks, init, cells, s, k);
      assert PlacedOnce(s, k);
      assert multiset(s.completed)[k] == 0;
      assert k !in done && k in all;
      SubsetSize(done + {k}, all);
    }
  }

  lemma {:induction false} HeldByThread(threads: seq<ThreadState>, t: nat, ran: bool, k: nat)
    requires t < |threads| && Held(threads[t], ran, k) == 1
    ensures InHand(threads, ran, k) >= 1
  {
    var n := |threads| - 1;
    if t < n { HeldByThread(threads[..n], t, ran, k); }
  }

  /** When a latch that was made for exactly its tasks opens, each of them has run, and been counted, once. */
  lemma LatchOpens<V>(tasks: seq<Task<V>>, init: seq<nat>, cells: nat, s: Pool<V>, l: nat, k: nat)
    requires Inv(tasks, init, cells, s)
    requires l < |init| && init[l] == |TasksOn(tasks, |tasks|, l)| && s.latches[l] == 0
    requires k < |tasks| && tasks[k].latch == Some(l)
    ensures k in s.completed && k in s.ran && multiset(s.ran)[k] == 1
  {
    LatchCounts(tasks, init, cells, s, l);
    SubsetSize(CompletedOn(tasks, s, l), TasksOn(tasks, |tasks|, l));
    assert k in TasksOn(tasks, |tasks|, l);
    ExactlyOnce(tasks, init, cells, s, k);
    assert multiset(s.completed)[k] > 0;
    assert k in multiset(s.ran);
  }

  /** And then its cell holds its value, unless others write that cell differently. */
  lemma OpenLatchMeansWritten<V>(
    tasks: seq<Task<V>>, init: seq<nat>, start: seq<V>, s: Pool<V>, l: nat, k: nat)
    requires Inv(tasks, init, |start|, s)
    requires l < |init| && init[l] == |TasksOn(tasks, |tasks|, l)| && s.latches[l] == 0
    requires k < |tasks| && tasks[k].latch == Some(l)
    requires CellHolds(tasks, start, s, tasks[k].cell, tasks[k].value)
    ensures s.memory[tasks[k].cell] == tasks[k].value
  {
    LatchOpens(tasks, init, |start|, s, l, k);
    assert WrittenBy(tasks, s.ran, tasks[k].cell);
  }

  // ----- termination

  predicate IsThreadStep(step: Step) {
    step.Read? || step.Run? || step.CountDown?
  }

  /** No thread can move. */
  ghost predicate Stuck<V>(tasks: seq<Task<V>>, s: Pool<V>) {
    forall t: nat :: !Enabled(tasks, s, Step.Read(t)) && !Enabled(tasks, s, Step.Run(t))
        && !Enabled(tasks, s, Step.CountDown(t))
  }

  ghost predicate Drained<V>(s: Pool<V>) {
    forall k: nat | k < s.submitted :: k in s.completed
  }

  function Weight(t: ThreadState): nat {
    match t
    case Running(_) => 3
    case Ran(_) => 2
    case Reading => 1
    case Exited => 0
  }

  function ThreadWeight(threads: seq<ThreadState>): nat {
    if threads == [] then 0 else ThreadWeight(threads[..|threads| - 1]) + Weight(threads[|threads| - 1])
  }

  lemma {:induction false} ThreadWeightChanges(threads: seq<ThreadState>, t: nat, x: ThreadState)
    requires t < |threads|
    ensures ThreadWeight(threads[t := x]) + Weight(threads[t]) == ThreadWeight(threads) + Weight(x)
  {
    var n := |threads| - 1;
    if t < n {
      ThreadWeightChanges(threads[..n], t, x);
      assert threads[t := x][..n] == threads[..n][t := x];
    } else {
      assert threads[t := x][..n] == threads[..n];
    }
  }

  function Measure<V>(s: Pool<V>): nat {
    4 * |s.chan.q| + ThreadWeight(s.threads)
  }

  /** Between submissions, the threads can only take so many steps. */
  lemma {:induction false} ThreadStepsEnd<V>(tasks: seq<Task<V>>, s: Pool<V>, steps: seq<Step>, end: Pool<V>)
    requires Reaches(tasks, s, steps, end) && forall i | 0 <= i < |steps| :: IsThreadStep(steps[i])
    ensures |steps| + Measure(end) <= Measure(s)
    decreases |steps|
  {
    if steps != [] {
      var s', step := Apply(tasks, s, steps[0]), steps[0];
      assert IsThreadStep(step);
      ThreadWeightChanges(s.threads, step.thread, s'.threads[step.thread]);
      ThreadStepsEnd(tasks, s', steps[1..], end);
    }
  }

  /** Threads that can no longer move have nothing in hand. */
  lemma StuckHoldsNothing<V>(tasks: seq<Task<V>>, init: seq<nat>, cells: nat, s: Pool<V>)
    requires Inv(tasks, init, cells, s) && TasksFit(tasks, |init|, cells) && Stuck(tasks, s)
    ensures forall t | 0 <= t < |s.threads| :: s.threads[t] == Exited || (s.threads[t] == Reading && !s.chan.Readable())
  {
    forall t | 0 <= t < |s.threads|
      ensures s.threads[t] == Exited || (s.threads[t] == Reading && !s.chan.Readable())
    {
      assert !Enabled(tasks, s, Step.Read(t)) && !Enabled(tasks, s, Step.Run(t))
          && !Enabled(tasks, s, Step.CountDown(t));
      HeldIsSubmitted(s, t);
    }
  }

  lemma HeldIsSubmitted<V>(s: Pool<V>, t: nat)
    requires Placed(s) && t < |s.threads|
    ensures s.threads[t].Running? || s.threads[t].Ran? ==> s.threads[t].task < s.submitted
  {
    if s.threads[t].Running? || s.threads[t].Ran? {
      HeldByThread(s.threads, t, s.threads[t].Ran?, s.threads[t].task);
      assert PlacedOnce(s, s.threads[t].task);
    }
  }

  /** With at least one thread, threads that can no longer move have completed every submitted task. */
  lemma StuckIsDrained<V>(tasks: seq<Task<V>>, init: seq<nat>, cells: nat, s: Pool<V>)
    requires Inv(tasks, init, cells, s) && TasksFit(tasks, |init|, cells)
    requires Stuck(tasks, s) && |s.threads| > 0
    ensures Drained(s)
    ensures s.chan.closed ==> forall t | 0 <= t < |s.threads| :: s.threads[t] == Exited
  {
    StuckHoldsNothing(tasks, init, cells, s);
    assert s.threads[0] == Exited || s.threads[0] == Reading;
    assert s.chan.q == [];
    forall k: nat | k < s.submitted ensures k in s.completed {
      assert PlacedOnce(s, k);
      InHandOfNone(s.threads, false, k);
      InHandOfNone(s.threads, true, k);
      assert k in multiset(s.completed);
    }
  }

  /** When every thread has left, which the destructor waits for, nothing submitted is undone. */
  lemma JoinedIsDrained<V>(tasks: seq<Task<V>>, init: seq<nat>, cells: nat, s: Pool<V>)
    requires Inv(tasks, init, cells, s) && TasksFit(tasks, |init|, cells)
    requires |s.threads| > 0 && forall t | 0 <= t < |s.threads| :: s.threads[t] == Exited
    ensures Drained(s)
  {
    StuckIsDrained(tasks, init, cells, s);
  }

  /**
   The channel is closed from the destructor's step on, and by nothing else; a closed pool is given
   nothing more.
   */
  lemma {:induction false} ClosedForGood<V>(tasks: seq<Task<V>>, s: Pool<V>, steps: seq<Step>, end: Pool<V>)
    requires Reaches(tasks, s, steps, end)
    ensures end.chan.closed <==> s.chan.closed || Step.Close in steps
    ensures s.chan.closed ==> end.submitted == s.submitted
    decreases |steps|
  {
    if steps != [] {
      ClosedForGood(tasks, Apply(tasks, s, steps[0]), steps[1..], end);
      assert steps == [steps[0]] + steps[1..];
    }
  }

  /** How many threads there are does not change; without any, nothing is ever completed. */
  lemma {:induction false} ThreadsStay<V>(tasks: seq<Task<V>>, s: Pool<V>, steps: seq<Step>, end: Pool<V>)
    requires Reaches(tasks, s, steps, end)
    ensures |end.threads| == |s.threads| && (|s.threads| == 0 ==> end.completed == s.completed)
    decreases |steps|
  {
    if steps != [] { ThreadsStay(tasks, Apply(tasks, s, steps[0]), steps[1..], end); }
  }

  /**
   A run that cannot go on without new tasks has completed all it was given, exactly when the
   pool has a thread or was given nothing: a pool sized by a processor count of zero never works.
   */
  lemma DrainCondition<V>(
    tasks: seq<Task<V>>, n: nat, init: seq<nat>, memory: seq<V>, steps: seq<Step>, end: Pool<V>)
    requires TasksFit(tasks, |init|, |memory|)
    requires Reaches(tasks, Start(n, init, memory), steps, end) && Stuck(tasks, end)
    ensures Drained(end) <==> n > 0 || end.submitted == 0
  {
    StartInv(tasks, n, init, memory);
    RunsKeepInv(tasks, init, |memory|, Start(n, init, memory), steps, end);
    ThreadsStay(tasks, Start(n, init, memory), steps, end);
    if n > 0 {
      StuckIsDrained(tasks, init, |memory|, end);
    } else if end.submitted > 0 {
      assert 0 !in end.completed;
    }
  }

  /**
   In a run that cannot go on, every thread has left, so that the destructor's joins return, if and
   only if the pool was closed or never had a thread; and one with a thread has completed everything.
   */
  lemma JoinCondition<V>(
    tasks: seq<Task<V>>, n: nat, init: seq<nat>, memory: seq<V>, steps: seq<Step>, end: Pool<V>)
    requires TasksFit(tasks, |init|, |memory|)
    requires Reaches(tasks, Start(n, init, memory), steps, end) && Stuck(tasks, end)
    ensures |end.threads| == n
    ensures (forall t | 0 <= t < n :: end.threads[t] == Exited) <==> Step.Close in steps || n == 0
    ensures n > 0 ==> Drained(end)
  {
    var s := Start(n, init, memory);
    StartInv(tasks, n, init, memory);
    RunsKeepInv(tasks, init, |memory|, s, steps, end);
    ThreadsStay(tasks, s, steps, end);
    ClosedForGood(tasks, s, steps, end);
    if n > 0 {
      StuckIsDrained(tasks, init, |memory|, end);
      assert end.threads[0] == Exited ==> end.chan.closed;
    }
  }

  // ----- when a latch is safe

  lemma {:induction false} RunsJoin<V>(
    tasks: seq<Task<V>>, s: Pool<V>, a: seq<Step>, t: Pool<V>, b: seq<Step>, u: Pool<V>)
    requires Reaches(tasks, s, a, t) && Reaches(tasks, t, b, u)
    ensures Reaches(tasks, s, a + b, u)
    decreases |a|
  {
    if a == [] {
      assert a + b == b;
    } else {
      RunsJoin(tasks, Apply(tasks, s, a[0]), a[1..], t, b, u);
      assert (a + b)[1..] == a[1..] + b;
    }
  }

  /** All tasks can be submitted before any thread moves. */
  lemma {:induction false} AllSubmitted<V>(tasks: seq<Task<V>>, s: Pool<V>) returns (steps: seq<Step>, end: Pool<V>)
    requires s.submitted <= |tasks| && !s.chan.closed
    ensures Reaches(tasks, s, steps, end) && end.submitted == |tasks|
    decreases |tasks| - s.submitted
  {
    if s.submitted == |tasks| {
      steps, end := [], s;
    } else {
      var rest, e := AllSubmitted(tasks, Apply(tasks, s, Step.Submit));
      steps, end := [Step.Submit] + rest, e;
      assert steps[1..] == rest;
    }
  }

  lemma StepLightens<V>(tasks: seq<Task<V>>, s: Pool<V>, step: Step)
    requires Enabled(tasks, s, step) && IsThreadStep(step)
    ensures Measure(Apply(tasks, s, step)) < Measure(s)
  {
    ThreadWeightChanges(s.threads, step.thread, Apply(tasks, s, step).threads[step.thread]);
  }

  /** The threads can always be run until none can move. */
  lemma {:induction false} RunUntilStuck<V>(tasks: seq<Task<V>>, s: Pool<V>) returns (steps: seq<Step>, end: Pool<V>)
    ensures Reaches(tasks, s, steps, end) && Stuck(tasks, end) && end.submitted == s.submitted
    decreases Measure(s)
  {
    if Stuck(tasks, s) {
      steps, end := [], s;
    } else {
      var t: nat :|
        Enabled(tasks, s, Step.Read(t)) || Enabled(tasks, s, Step.Run(t)) || Enabled(tasks, s, Step.CountDown(t));
      var step := if Enabled(tasks, s, Step.Read(t)) then Step.Read(t)
                  else if Enabled(tasks, s, Step.Run(t)) then Step.Run(t) else Step.CountDown(t);
      StepLightens(tasks, s, step);
      var rest, e := RunUntilStuck(tasks, Apply(tasks, s, step));
      steps, end := [step] + rest, e;
      assert steps[1..] == rest;
    }
  }

  ghost predicate NeverOverrun<V(!new)>(tasks: seq<Task<V>>, n: nat, init: seq<nat>, memory: seq<V>, l: nat) {
    forall steps, end | Reaches(tasks, Start(n, init, memory), steps, end) :: LatchIsFine(tasks, end, l)
  }

  /**
   No run counts a latch down below zero if and only if it was made for at least as many tasks as
   use it, or there is no thread to run them.
   */
  lemma LatchCondition<V(!new)>(tasks: seq<Task<V>>, n: nat, init: seq<nat>, memory: seq<V>, l: nat)
    requires TasksFit(tasks, |init|, |memory|) && l < |init|
    ensures NeverOverrun(tasks, n, init, memory, l) <==> n == 0 || |TasksOn(tasks, |tasks|, l)| <= init[l]
  {
    var s := Start(n, init, memory);
    StartInv(tasks, n, init, memory);
    if n == 0 || |TasksOn(tasks, |tasks|, l)| <= init[l] {
      forall steps, end | Reaches(tasks, s, steps, end) ensures LatchIsFine(tasks, end, l) {
        RunsKeepInv(tasks, init, |memory|, s, steps, end);
        ThreadsStay(tasks, s, steps, end);
        if n == 0 {
          LatchCounts(tasks, init, |memory|, end, l);
          assert CompletedOn(tasks, end, l) == {};
        } else {
          LatchIsSafe(tasks, init, |memory|, end, l);
        }
      }
    } else {
      var end := OverrunLatch(tasks, n, init, memory, l);
    }
  }

  lemma OverrunLatch<V>(tasks: seq<Task<V>>, n: nat, init: seq<nat>, memory: seq<V>, l: nat) returns (end: Pool<V>)
    requires TasksFit(tasks, |init|, |memory|) && l < |init|
    requires n > 0 && |TasksOn(tasks, |tasks|, l)| > init[l]
    ensures exists steps :: Reaches(tasks, Start(n, init, memory), steps, end)
    ensures !LatchIsFine(tasks, end, l)
  {
    var s := Start(n, init, memory);
    var a, t := AllSubmitted(tasks, s);
    var b, u := RunUntilStuck(tasks, t);
    RunsJoin(tasks, s, a, t, b, u);
    end := u;
    StartInv(tasks, n, init, memory);
    RunsKeepInv(tasks, init, |memory|, s, a + b, end);
    ThreadsStay(tasks, s, a + b, end);
    StuckIsDrained(tasks, init, |memory|, end);
    LatchCounts(tasks, init, |memory|, end, l);
    assert CompletedOn(tasks, end, l) == TasksOn(tasks, |tasks|, l);
  }

  // ----- the pool as an object

  class ThreadPool<V> {
    const chan: Channel<nat>
    const latches: seq<SafeLatch>
    var threads: seq<ThreadState>
    var memory: seq<V>
    var submitted: nat
    var ran: seq<nat>
    var completed: seq<nat>

    ghost predicate Valid() {
      forall i, j | 0 <= i < j < |latches| :: latches[i] != latches[j]
    }

    function State(): Pool<V>
      reads this, chan, latches
    {
      Pool(chan.State(), threads,
          seq(|latches|, l requires 0 <= l < |latches| reads this, latches => latches[l].safety),
           memory, submitted, ran, completed)
    }

    constructor (n: nat, latches: seq<SafeLatch>, memory: seq<V>)
      requires forall i, j | 0 <= i < j < |latches| :: latches[i] != latches[j]
      ensures Valid() && fresh(chan) && this.latches == latches
      ensures State().chan == ChannelState([], false) && State().threads == seq(n, _ => Reading)
      ensures State().memory == memory && State().submitted == 0 && State().ran == [] == State().completed
    {
      this.latches, this.memory := latches, memory;
      threads := seq(n, _ => Reading);
      submitted, ran, completed := 0, [], [];
      chan := new Channel<nat>();
    }

    method Submit(ghost tasks: seq<Task<V>>) returns (res: Result<(), Concurrency.Error>)
      requires submitted < |tasks|
      modifies this`submitted, chan
      ensures old(chan.closed) ==> res.Failure? && State() == old(State())
      ensures !old(chan.closed) ==> res.Success? && State() == Apply(tasks, old(State()), Step.Submit)
    {
      res := chan.Write(submitted);
      if res.Success? {
        submitted := submitted + 1;
      }
    }

    /** What a thread does between two other threads' steps: read, or leave. */
    method ReadTask(t: nat, ghost tasks: seq<Task<V>>)
      requires Enabled(tasks, State(), Step.Read(t))
      modifies this`threads, chan
      ensures State() == Apply(tasks, old(State()), Step.Read(t))
    {
      var answer := chan.Read();
      threads := threads[t := if answer.Some? then Running(answer.value) else Exited];
    }

    method RunTask(t: nat, tasks: seq<Task<V>>)
      requires Enabled(tasks, State(), Step.Run(t))
      modifies this`threads, this`memory, this`ran
      ensures State() == Apply(tasks, old(State()), Step.Run(t))
    {
      var k := threads[t].task;
      memory := memory[tasks[k].cell := tasks[k].value];
      ran := ran + [k];
      threads := threads[t := Ran(k)];
    }

    /** A latch, if there is one, reports an error exactly when its count had reached zero. */
    method FinishTask(t: nat, tasks: seq<Task<V>>) returns (res: Result<(), Concurrency.Error>)
      requires Valid() && Enabled(tasks, State(), Step.CountDown(t))
      modifies this`threads, this`completed, latches
      ensures State() == Apply(tasks, old(State()), Step.CountDown(t))
      ensures var latch := tasks[old(threads)[t].task].latch;
        res.Success? <==> latch.None? || old(State()).latches[latch.value] > 0
    {
      var k := threads[t].task;
      res := Success(());
      if tasks[k].latch.Some? {
        res := latches[tasks[k].latch.value].CountDown();
      }
      completed := completed + [k];
      threads := threads[t := Reading];
    }

    method Close(ghost tasks: seq<Task<V>>)
      modifies chan
      ensures State() == Apply(tasks, old(State()), Step.Close)
      ensures chan.closed && chan.q == old(chan.q)
    {
      chan.Close();
    }
  }
}
