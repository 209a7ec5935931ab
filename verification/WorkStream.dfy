/**
 The manager's write queue towards one worker. gRPC allows one outstanding write; callers add
 tasks and then ask for the next write, and so does the completion of each write.
 */
module WorkStream {

  /**
   `wire` holds the writes handed to gRPC and not yet completed. `owing` counts the callers, and
   the completion handlers between their two critical sections, that still have to call
   write_next.
   */
  datatype State<+T> = State(
    toWrite: seq<T>, midWrite: bool, wire: seq<T>, written: seq<T>, added: seq<T>, owing: nat)

  datatype Step<+T> = Begin | Add(task: T) | WriteNext | WriteDone

  predicate Enabled<T>(s: State<T>, step: Step<T>) {
    match step
    case Begin => true
    case Add(_) => s.owing > 0
    case WriteNext => s.owing > 0
    case WriteDone => s.wire != []
  }

  /** The critical section of write_next. */
  function StartNext<T>(s: State<T>): State<T> {
    if !s.midWrite && s.toWrite != [] then s.(midWrite := true, wire := s.wire + [s.toWrite[0]]) else s
  }

  /** The first critical section of OnWriteDone; gRPC reports the oldest write. */
  function FinishWrite<T>(s: State<T>): State<T>
    requires s.wire != []
  {
    s.(midWrite := false, wire := s.wire[1..], written := s.written + [s.wire[0]],
       toWrite := if s.toWrite != [] then s.toWrite[1..] else [])
  }

  function Apply<T>(s: State<T>, step: Step<T>): State<T>
    requires Enabled(s, step)
  {
    match step
    case Begin => s.(owing := s.owing + 1)
    case Add(t) => s.(toWrite := s.toWrite + [t], added := s.added + [t])
    case WriteNext => StartNext(s).(owing := s.owing - 1)
    case WriteDone => FinishWrite(s).(owing := s.owing + 1)
  }

  ghost predicate Reaches<T>(s: State<T>, steps: seq<Step<T>>, end: State<T>)
    decreases |steps|
  {
    if steps == [] then s == end
    else Enabled(s, steps[0]) && Reaches(Apply(s, steps[0]), steps[1..], end)
  }

  function Fresh<T>(): State<T> {
    State([], false, [], [], [], 0)
  }

  /** The in-flight write is the queue's front, nothing is lost or reordered, and no wake-up is missed. */
  ghost predicate Inv<T>(s: State<T>) {
    && s.written + s.toWrite == s.added
    && s.wire == (if s.midWrite then s.toWrite[..if s.toWrite == [] then 0 else 1] else [])
    && (s.midWrite ==> s.toWrite != [])
    && (s.toWrite != [] && !s.midWrite ==> s.owing > 0)
  }

  lemma StepKeepsInv<T>(s: State<T>, step: Step<T>)
    requires Inv(s) && Enabled(s, step)
    ensures Inv(Apply(s, step))
  {
    match step
    case Begin =>
    case Add(t) => assert s.written + (s.toWrite + [t]) == s.added + [t];
    case WriteNext => assert s.toWrite != [] ==> s.toWrite[..1] == [s.toWrite[0]];
    case WriteDone => assert s.toWrite == [s.toWrite[0]] + s.toWrite[1..];
  }

  /** In every interleaving: what was written, then what waits, is what was added, in order. */
  lemma {:induction false} RunsKeepInv<T>(s: State<T>, steps: seq<Step<T>>, end: State<T>)
    requires Inv(s) && Reaches(s, steps, end)
    ensures Inv(end)
    decreases |steps|
  {
    if steps != [] {
      StepKeepsInv(s, steps[0]);
      RunsKeepInv(Apply(s, steps[0]), steps[1..], end);
    }
  }

  /** From an empty stream, every run keeps at most one write in flight, always the queue's front. */
  lemma OneWriteInFlight<T>(steps: seq<Step<T>>, end: State<T>)
    requires Reaches(Fresh(), steps, end)
    ensures end.written + end.toWrite == end.added
    ensures |end.wire| <= 1 && (end.wire != [] ==> end.toWrite != [] && end.wire[0] == end.toWrite[0])
    ensures end.toWrite != [] && end.wire == [] ==> end.owing > 0
  {
    assert Inv(Fresh<T>());
    RunsKeepInv(Fresh(), steps, end);
  }

  function Remaining<T>(s: State<T>): nat {
    3 * |s.toWrite| + s.owing
  }

  ghost predicate OnlyWriting<T>(steps: seq<Step<T>>) {
    forall i | 0 <= i < |steps| :: steps[i].WriteNext? || steps[i].WriteDone?
  }

  /**
   Once callers stop adding, only so many steps are left; and a stream with no step left has
   written everything that was added, in order.
   */
  lemma {:induction false} StreamDrains<T>(s: State<T>, steps: seq<Step<T>>, end: State<T>)
    requires Inv(s) && Reaches(s, steps, end) && OnlyWriting(steps)
    ensures |steps| + Remaining(end) <= Remaining(s)
    ensures !Enabled(end, WriteNext) && !Enabled(end, WriteDone) ==> end.written == end.added
    decreases |steps|
  {
    if steps == [] {
      assert s.toWrite == [] ==> s.written == s.added;
    } else {
      StepKeepsInv(s, steps[0]);
      StreamDrains(Apply(s, steps[0]), steps[1..], end);
    }
  }

  // ----- the stream as an object

  class Stream<T> {
    var toWrite: seq<T>
    var midWrite: bool
    var wire: seq<T>
    ghost var written: seq<T>
    ghost var added: seq<T>
    ghost var owing: nat

    ghost function Value(): State<T>
      reads this
    {
      State(toWrite, midWrite, wire, written, added, owing)
    }

    constructor ()
      ensures Value() == Fresh()
    {
      toWrite, midWrite, wire, written, added, owing := [], false, [], [], [], 0;
    }

    /** By a caller that will call WriteNext. */
    method AddTaskToWrite(task: T)
      requires owing > 0
      modifies this
      ensures Value() == Apply(old(Value()), Add(task))
    {
      toWrite := toWrite + [task];
      added := added + [task];
    }

    method WriteNext()
      requires owing > 0
      modifies this
      ensures Value() == Apply(old(Value()), Step.WriteNext)
    {
      if !midWrite && toWrite != [] {
        midWrite := true;
        wire := wire + [toWrite[0]];
      }
      owing := owing - 1;
    }

    /** OnWriteDone up to the point where it releases the lock and goes on to WriteNext. */
    method FinishWrite()
      requires wire != []
      modifies this
      ensures Value() == Apply(old(Value()), WriteDone)
    {
      written, wire := written + [wire[0]], wire[1..];
      midWrite := false;
      if toWrite != [] {
        toWrite := toWrite[1..];
      }
      owing := owing + 1;
    }

    /** OnWriteDone with nothing in between. */
    method OnWriteDone()
      requires wire != []
      modifies this
      ensures Value() == Apply(Apply(old(Value()), WriteDone), Step.WriteNext)
    {
      FinishWrite();
      WriteNext();
    }
  }
}
