/**
 The loop that reads a worker's reply: each part gets a place at the end of a growing vector, and a task
 in the pool that finds its place in the vector while the loop goes on. When the vector is full it moves
 to a new buffer and the old one is freed.
 */
module ReplyReader {

  /** What a part's task has done: nothing, found the vector's buffer, or written to its place there. */
  datatype Task = Queued | Loaded(buffer: nat) | Written

  /** The vector's size, capacity and the number of its buffer; `freed` if a task used a buffer that was freed. */
  datatype State = State(size: nat, capacity: nat, buffer: nat, tasks: seq<Task>, freed: bool)

  datatype Step = Append | Load(task: nat) | Use(task: nat)

  /** A full vector gets room for at least one more. */
  ghost predicate Grows(grow: nat -> nat) {
    forall c :: grow(c) > c
  }

  /** How the usual libraries do it. */
  function Doubled(c: nat): nat {
    if c == 0 then 1 else 2 * c
  }

  predicate Enabled(s: State, step: Step) {
    !s.freed &&
    match step
    case Append => true
    case Load(k) => k < |s.tasks| && s.tasks[k].Queued?
    case Use(k) => k < |s.tasks| && s.tasks[k].Loaded?
  }

  function Apply(grow: nat -> nat, s: State, step: Step): State
    requires Enabled(s, step)
  {
    match step
    case Append =>
      var t := if s.size == s.capacity then s.(capacity := grow(s.capacity), buffer := s.buffer + 1) else s;
      t.(size := s.size + 1, tasks := s.tasks + [Queued])
    case Load(k) => s.(tasks := s.tasks[k := Loaded(s.buffer)])
    case Use(k) =>
      if s.tasks[k].buffer == s.buffer then s.(tasks := s.tasks[k := Written]) else s.(freed := true)
  }

  ghost predicate Reaches(grow: nat -> nat, s: State, steps: seq<Step>, end: State)
    decreases |steps|
  {
    if steps == [] then s == end
    else Enabled(s, steps[0]) && Reaches(grow, Apply(grow, s, steps[0]), steps[1..], end)
  }

  function Appends(steps: seq<Step>): nat {
    if steps == [] then 0 else (if steps[0].Append? then 1 else 0) + Appends(steps[1..])
  }

  function Begin(capacity: nat): State {
    State(0, capacity, 0, [], false)
  }

  /** Reading so many parts into a vector with this much reserved, no task ever uses a freed buffer. */
  ghost predicate NeverFreed(grow: nat -> nat, capacity: nat, parts: nat) {
    forall steps, end | Reaches(grow, Begin(capacity), steps, end) && Appends(steps) == parts :: !end.freed
  }

  /** How many parts fit into the first buffer there is. */
  function FirstBuffer(grow: nat -> nat, capacity: nat): nat {
    if capacity > 0 then capacity else grow(0)
  }

  // ----- no task is late if the first buffer is the last

  ghost predicate Inv(grow: nat -> nat, capacity: nat, s: State) {
    && !s.freed && |s.tasks| == s.size <= FirstBuffer(grow, capacity)
    && s.capacity == (if s.size == 0 then capacity else FirstBuffer(grow, capacity))
    && forall k | 0 <= k < |s.tasks| && s.tasks[k].Loaded? :: s.tasks[k].buffer == s.buffer
  }

  lemma {:induction false} RunsKeepInv(grow: nat -> nat, capacity: nat, s: State, steps: seq<Step>, end: State)
    requires Grows(grow) && Inv(grow, capacity, s) && Reaches(grow, s, steps, end)
    requires s.size + Appends(steps) <= FirstBuffer(grow, capacity)
    ensures Inv(grow, capacity, end)
    decreases |steps|
  {
    if steps != [] { RunsKeepInv(grow, capacity, Apply(grow, s, steps[0]), steps[1..], end); }
  }

  // ----- and else one can be

  function Repeated(n: nat): (steps: seq<Step>)
    ensures |steps| == n && forall k | 0 <= k < n :: steps[k] == Append
  {
    seq(n, _ => Append)
  }

  lemma {:induction false} Joins(
    grow: nat -> nat, s: State, first: seq<Step>, t: State, second: seq<Step>, end: State)
    requires Reaches(grow, s, first, t) && Reaches(grow, t, second, end)
    ensures Reaches(grow, s, first + second, end) && Appends(first + second) == Appends(first) + Appends(second)
    decreases |first|
  {
    if first == [] {
      assert first + second == second;
    } else {
      Joins(grow, Apply(grow, s, first[0]), first[1..], t, second, end);
      assert (first + second)[1..] == first[1..] + second;
    }
  }

  /** Appending goes on for as long as wanted, leaves tasks alone and never comes back to an old buffer. */
  lemma {:induction false} AppendAll(grow: nat -> nat, s: State, n: nat) returns (end: State)
    requires Grows(grow) && !s.freed && s.size <= s.capacity
    ensures Reaches(grow, s, Repeated(n), end) && Appends(Repeated(n)) == n
    ensures !end.freed && end.size == s.size + n <= end.capacity && s.tasks <= end.tasks && |end.tasks| == |s.tasks| + n
    ensures if s.size + n <= s.capacity then end.buffer == s.buffer && end.capacity == s.capacity
            else end.buffer > s.buffer
    decreases n
  {
    if n == 0 {
      end := s;
    } else {
      assert Repeated(n)[1..] == Repeated(n - 1);
      end := AppendAll(grow, Apply(grow, s, Append), n - 1);
    }
  }

  /** The first task finds the first buffer; the rest of the parts come in; then the task uses it. */
  lemma LateTask(grow: nat -> nat, capacity: nat, parts: nat)
    requires Grows(grow) && parts > FirstBuffer(grow, capacity)
    ensures !NeverFreed(grow, capacity, parts)
  {
    var one := Apply(grow, Begin(capacity), Append);
    assert Reaches(grow, one, [], one);
    assert Reaches(grow, Begin(capacity), [Append], one) by { assert [Append][1..] == []; }
    var loaded := Apply(grow, one, Load(0));
    assert Reaches(grow, one, [Load(0)], loaded) by { assert [Load(0)][1..] == []; }
    Joins(grow, Begin(capacity), [Append], one, [Load(0)], loaded);
    var full := AppendAll(grow, loaded, parts - 1);
    Joins(grow, Begin(capacity), [Append] + [Load(0)], loaded, Repeated(parts - 1), full);
    assert full.tasks[0] == Loaded(loaded.buffer);
    var end := Apply(grow, full, Use(0));
    assert Reaches(grow, full, [Use(0)], end) by { assert [Use(0)][1..] == []; }
    Joins(grow, Begin(capacity), [Append] + [Load(0)] + Repeated(parts - 1), full, [Use(0)], end);
    assert Appends([Append]) == 1 by { assert [Append][1..] == []; }
    assert Appends([Load(0)]) == 0 by { assert [Load(0)][1..] == []; }
    assert Appends([Use(0)]) == 0 by { assert [Use(0)][1..] == []; }
  }

  /** No task ever uses a freed buffer if and only if all parts fit into the vector's first. */
  lemma FreedCondition(grow: nat -> nat, capacity: nat, parts: nat)
    requires Grows(grow)
    ensures NeverFreed(grow, capacity, parts) <==> parts <= FirstBuffer(grow, capacity)
  {
    if parts <= FirstBuffer(grow, capacity) {
      forall steps, end | Reaches(grow, Begin(capacity), steps, end) && Appends(steps) == parts ensures !end.freed {
        RunsKeepInv(grow, capacity, Begin(capacity), steps, end);
      }
    } else {
      LateTask(grow, capacity, parts);
    }
  }

  /** As the loop stands, with nothing reserved: for a reply of at most one part. */
  lemma NothingReserved(parts: nat)
    ensures NeverFreed(Doubled, 0, parts) <==> parts <= 1
  {
    FreedCondition(Doubled, 0, parts);
  }

  class Reader<P> {
    const grow: nat -> nat
    var parts: seq<P>
    var capacity: nat
    var buffer: nat
    var tasks: seq<Task>
    var freed: bool

    ghost function Value(): State
      reads this
    {
      State(|parts|, capacity, buffer, tasks, freed)
    }

    constructor (grow: nat -> nat, capacity: nat)
      ensures this.grow == grow && parts == [] && Value() == Begin(capacity)
    {
      this.grow, parts, this.capacity, buffer, tasks, freed := grow, [], capacity, 0, [], false;
    }

    /** One turn of the loop: emplace_back, then the part's task is submitted. */
    method ReadPart(part: P)
      requires Enabled(Value(), Append)
      modifies this
      ensures Value() == Apply(grow, old(Value()), Append) && parts == old(parts) + [part]
    {
      if |parts| == capacity {
        capacity := grow(capacity);
        buffer := buffer + 1;
      }
      parts := parts + [part];
      tasks := tasks + [Queued];
    }

    method LoadBuffer(k: nat)
      requires Enabled(Value(), Step.Load(k))
      modifies this`tasks
      ensures Value() == Apply(grow, old(Value()), Step.Load(k))
    {
      tasks := tasks[k := Loaded(buffer)];
    }

    method UseBuffer(k: nat)
      requires Enabled(Value(), Step.Use(k))
      modifies this`tasks, this`freed
      ensures Value() == Apply(grow, old(Value()), Step.Use(k))
    {
      if tasks[k].buffer == buffer {
        tasks := tasks[k := Written];
      } else {
        freed := true;
      }
    }

    /** The whole loop, with no task in between. */
    method ReadAll(stream: seq<P>)
      requires !freed
      modifies this
      ensures parts == old(parts) + stream && !freed
      ensures Reaches(grow, old(Value()), Repeated(|stream|), Value())
    {
      ghost var start := Value();
      assert Reaches(grow, start, Repeated(0), start);
      for i := 0 to |stream|
        invariant parts == old(parts) + stream[..i] && !freed
        invariant Reaches(grow, start, Repeated(i), Value())
      {
        ghost var before := Value();
        ReadPart(stream[i]);
        assert Reaches(grow, before, [Append], Value()) by { assert [Append][1..] == []; }
        Joins(grow, start, Repeated(i), before, [Append], Value());
        assert Repeated(i) + [Append] == Repeated(i + 1);
      }
    }
  }
}
