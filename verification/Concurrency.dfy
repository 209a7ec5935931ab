/**
 The channel, the latch and the promise. Each method is one critical section; what it does to the
 object's value is a function, so that the runs of many threads can be described on values.
 */
module Concurrency {
  import opened Arith

  datatype Error = ChannelClosed | UnexpectedState | LatchBelowZero | SetAfterDone

  // ----- channel

  datatype ChannelState<+T> = ChannelState(q: seq<T>, closed: bool) {
    /** What a reader waits for. */
    predicate Readable() {
      q != [] || closed
    }
  }

  /** A closed channel is drained before it says that it is closed. */
  function Pop<T>(s: ChannelState<T>): (r: (ChannelState<T>, Option<T>))
    requires s.Readable()
    ensures r.1.Some? <==> s.q != []
    ensures r.1.Some? ==> s.q == [r.1.value] + r.0.q
    ensures r.0.closed == s.closed && |r.0.q| <= |s.q|
  {
    if s.q != [] then (s.(q := s.q[1..]), Some(s.q[0])) else (s, None)
  }

  class Channel<T> {
    var q: seq<T>
    var closed: bool

    function State(): ChannelState<T>
      reads this
    {
      ChannelState(q, closed)
    }

    constructor ()
      ensures State() == ChannelState([], false)
    {
      q, closed := [], false;
    }

    method Write(t: T) returns (res: Result<(), Error>)
      modifies this
      ensures old(closed) ==> res == Failure(ChannelClosed) && State() == old(State())
      ensures !old(closed) ==> res.Success? && State() == ChannelState(old(q) + [t], false)
    {
      if closed {
        return Failure(ChannelClosed);
      }
      q := q + [t];
      res := Success(());
    }

    method PopChan() returns (res: Result<Option<T>, Error>)
      modifies this
      ensures !old(State()).Readable() ==> res == Failure(UnexpectedState) && State() == old(State())
      ensures old(State()).Readable() ==> res == Success(Pop(old(State())).1) && State() == Pop(old(State())).0
    {
      if q != [] {
        var front := q[0];
        q := q[1..];
        return Success(Some(front));
      }
      if closed {
        return Success(None);
      }
      return Failure(UnexpectedState);
    }

    /** Runs once the wait is over, so never in an unexpected state. */
    method Read() returns (answer: Option<T>)
      requires State().Readable()
      modifies this
      ensures answer == Pop(old(State())).1 && State() == Pop(old(State())).0
    {
      var res := PopChan();
      answer := res.value;
    }

    method Close()
      modifies this
      ensures closed && q == old(q)
    {
      closed := true;
    }
  }

  // ----- latch

  class SafeLatch {
    var safety: int

    constructor (count: nat)
      ensures safety == count
    {
      safety := count;
    }

    /** Counts down in any case, and reports a count that had already reached zero. */
    method CountDown() returns (res: Result<(), Error>)
      modifies this
      ensures safety == old(safety) - 1
      ensures res == if old(safety) <= 0 then Failure(LatchBelowZero) else Success(())
    {
      var prev := safety;
      safety := safety - 1;
      if prev <= 0 {
        return Failure(LatchBelowZero);
      }
      res := Success(());
    }

    method DoneWaiting() returns (r: bool)
      ensures r <==> safety == 0
    {
      r := safety == 0;
    }
  }

  // ----- promise

  /** `armed` counts the setters between their check and their assignment, which no lock covers. */
  datatype PromiseState<+T> = PromiseState(done: bool, count: int, value: T, armed: nat) {
    /** A done promise was waited for. */
    predicate Valid() {
      count >= 0 && (done ==> count == 0)
    }

    /** A getter would not wait. */
    predicate Open() {
      done || count == 0
    }
  }

  datatype PromiseStep<+T> = Check | Assign(value: T) | CountDown | Get

  /** One step; a getter runs it once its wait is over, a counter while there is something to count. */
  ghost predicate PromiseNext<T>(s: PromiseState<T>, step: PromiseStep<T>, s': PromiseState<T>) {
    match step
    case Check => s' == if s.Open() then s else s.(armed := s.armed + 1)
    case Assign(v) => s.armed > 0 && s' == s.(value := v, armed := s.armed - 1)
    case CountDown => s.count > 0 && s' == s.(count := s.count - 1)
    case Get => s.Open() && s' == s.(done := true)
  }

  class Promise<T> {
    var done: bool
    const wg: SafeLatch
    var value: T
    ghost var armed: nat

    ghost function State(): PromiseState<T>
      reads this, wg
    {
      PromiseState(done, wg.safety, value, armed)
    }

    constructor (n: nat, store: T)
      ensures State() == PromiseState(false, n, store, 0) && fresh(wg)
    {
      done, value, armed := false, store, 0;
      wg := new SafeLatch(n);
    }

    method Get() returns (v: T)
      requires State().Open()
      modifies this
      ensures v == value == old(value) && done && armed == old(armed)
      ensures PromiseNext(old(State()), PromiseStep.Get, State())
    {
      if done {
        return value;
      }
      done := true;
      return value;
    }

    /** The first half of set: whether to go on and assign, and the error if the latch opened before any get. */
    method CheckSet() returns (goOn: bool, res: Result<(), Error>)
      requires State().Valid()
      modifies this`armed
      ensures PromiseNext(old(State()), PromiseStep.Check, State())
      ensures goOn <==> !old(State()).Open()
      ensures armed == old(armed) + if goOn then 1 else 0
      ensures old(done) ==> !goOn && res.Success?
      ensures res == if old(!done && wg.safety == 0) then Failure(SetAfterDone) else Success(())
    {
      if done {
        return false, Success(());
      }
      var over := wg.DoneWaiting();
      if over {
        return false, Failure(SetAfterDone);
      }
      armed := armed + 1;
      return true, Success(());
    }

    /** The second half, whatever happened in between. */
    method AssignSet(val: T)
      requires armed > 0
      modifies this`value, this`armed
      ensures value == val && armed == old(armed) - 1
      ensures PromiseNext(old(State()), PromiseStep.Assign(val), State())
    {
      value := val;
      armed := armed - 1;
    }

    /** set with nothing in between. */
    method Set(val: T) returns (res: Result<(), Error>)
      requires State().Valid()
      modifies this
      ensures State() == if old(State()).Open() then old(State()) else old(State()).(value := val)
      ensures old(done) ==> res.Success? && value == old(value)
      ensures res == if old(!done && wg.safety == 0) then Failure(SetAfterDone) else Success(())
    {
      var goOn;
      goOn, res := CheckSet();
      if goOn {
        AssignSet(val);
      }
    }
  }

  ghost predicate PromiseRun<T>(states: seq<PromiseState<T>>, steps: seq<PromiseStep<T>>) {
    && |states| == |steps| + 1 && states[0].Valid()
    && forall i | 0 <= i < |steps| :: PromiseNext(states[i], steps[i], states[i + 1])
  }

  lemma {:induction false} PromiseStaysValid<T>(states: seq<PromiseState<T>>, steps: seq<PromiseStep<T>>, i: nat)
    requires PromiseRun(states, steps) && i < |states|
    ensures states[i].Valid()
  {
    if i > 0 {
      PromiseStaysValid(states, steps, i - 1);
      assert PromiseNext(states[i - 1], steps[i - 1], states[i]);
    }
  }

  /** A promise is done from its first get on, and then a setter's check changes nothing. */
  lemma {:induction false} DoneFromGet<T>(states: seq<PromiseState<T>>, steps: seq<PromiseStep<T>>, j: nat)
    requires PromiseRun(states, steps) && j < |states|
    ensures states[j].done <==> states[0].done || PromiseStep.Get in steps[..j]
    ensures states[j].done && j < |steps| && steps[j] == PromiseStep.Check ==> states[j + 1] == states[j]
  {
    if j > 0 {
      DoneFromGet(states, steps, j - 1);
      assert PromiseNext(states[j - 1], steps[j - 1], states[j]);
      assert steps[..j] == steps[..j - 1] + [steps[j - 1]];
    }
    if j < |steps| {
      assert PromiseNext(states[j], steps[j], states[j + 1]);
    }
  }

  /**
   Once a promise is open with no setter in between its check and its assignment, every getter sees
   the same value, whatever is set later.
   */
  lemma {:induction false} PromiseIsStable<T>(states: seq<PromiseState<T>>, steps: seq<PromiseStep<T>>, i: nat, j: nat)
    requires PromiseRun(states, steps) && i <= j < |states|
    requires states[i].Open() && states[i].armed == 0
    ensures states[j].Valid() && states[j].count == 0 && states[j].armed == 0 && states[j].value == states[i].value
  {
    if j == i {
      PromiseStaysValid(states, steps, i);
    } else {
      PromiseIsStable(states, steps, i, j - 1);
      assert PromiseNext(states[j - 1], steps[j - 1], states[j]);
    }
  }

  /** And only then: a setter that is late with its assignment changes what was already fetched. */
  lemma StableExactlyWhenUnarmed<T(!new)>(s: PromiseState<T>, v: T)
    requires s.Valid() && s.Open() && v != s.value
    ensures (forall states: seq<PromiseState<T>>, steps: seq<PromiseStep<T>> |
               PromiseRun(states, steps) && states[0] == s :: states[|steps|].value == s.value)
            <==> s.armed == 0
  {
    if s.armed == 0 {
      forall states: seq<PromiseState<T>>, steps: seq<PromiseStep<T>> | PromiseRun(states, steps) && states[0] == s
        ensures states[|steps|].value == s.value
      {
        PromiseIsStable(states, steps, 0, |steps|);
      }
    } else {
      var states, steps := [s, s.(value := v, armed := s.armed - 1)], [PromiseStep.Assign(v)];
      assert PromiseRun(states, steps) && states[0] == s;
    }
  }

  // ----- setters that are tasks of the pool

  /** A task that sets the promise: its body checks and then assigns, or not; then its latch is counted down. */
  datatype Setter = Waiting | Armed | Through | Counted

  datatype SettersState<+T> = SettersState(promise: PromiseState<T>, setters: seq<Setter>)

  datatype SetterStep<+T> = CheckBy(setter: nat) | AssignBy(setter: nat, value: T) | CountDownBy(setter: nat) | GetIt

  function PromisePart<T>(step: SetterStep<T>): PromiseStep<T> {
    match step
    case CheckBy(_) => Check
    case AssignBy(_, v) => Assign(v)
    case CountDownBy(_) => CountDown
    case GetIt => Get
  }

  ghost predicate SetterNext<T>(s: SettersState<T>, step: SetterStep<T>, s': SettersState<T>) {
    && PromiseNext(s.promise, PromisePart(step), s'.promise)
    && match step
       case CheckBy(k) =>
         k < |s.setters| && s.setters[k] == Waiting
         && s'.setters == s.setters[k := if s.promise.Open() then Through else Armed]
       case AssignBy(k, _) => k < |s.setters| && s.setters[k] == Armed && s'.setters == s.setters[k := Through]
       case CountDownBy(k) => k < |s.setters| && s.setters[k] == Through && s'.setters == s.setters[k := Counted]
       case GetIt => s'.setters == s.setters
  }

  function NumberOf(setters: seq<Setter>, phase: Setter): (n: nat)
    ensures n <= |setters|
  {
    if setters == [] then 0
    else NumberOf(setters[..|setters| - 1], phase) + if setters[|setters| - 1] == phase then 1 else 0
  }

  lemma {:induction false} NumberAfter(setters: seq<Setter>, k: nat, next: Setter, phase: Setter)
    requires k < |setters|
    ensures NumberOf(setters[k := next], phase) ==
      NumberOf(setters, phase) + (if next == phase then 1 else 0) - if setters[k] == phase then 1 else 0
  {
    var n := |setters| - 1;
    if k < n {
      NumberAfter(setters[..n], k, next, phase);
      assert setters[k := next][..n] == setters[..n][k := next];
    } else {
      assert setters[k := next][..n] == setters[..n];
    }
  }

  lemma {:induction false} BothAtMost(setters: seq<Setter>)
    ensures NumberOf(setters, Armed) + NumberOf(setters, Counted) <= |setters|
  {
    if setters != [] { BothAtMost(setters[..|setters| - 1]); }
  }

  lemma {:induction false} NoneYet(setters: seq<Setter>, phase: Setter)
    requires phase != Waiting && forall k | 0 <= k < |setters| :: setters[k] == Waiting
    ensures NumberOf(setters, phase) == 0
  {
    if setters != [] { NoneYet(setters[..|setters| - 1], phase); }
  }

  /** The latch was made for all of them, and counts those that have counted it down. */
  ghost predicate SettersInv<T>(s: SettersState<T>) {
    && s.promise.Valid() && s.promise.armed == NumberOf(s.setters, Armed)
    && s.promise.count == |s.setters| - NumberOf(s.setters, Counted)
  }

  lemma StepKeepsSetters<T>(s: SettersState<T>, step: SetterStep<T>, s': SettersState<T>)
    requires SettersInv(s) && SetterNext(s, step, s')
    ensures SettersInv(s') && |s'.setters| == |s.setters|
  {
    if !step.GetIt? {
      NumberAfter(s.setters, step.setter, s'.setters[step.setter], Armed);
      NumberAfter(s.setters, step.setter, s'.setters[step.setter], Counted);
    }
  }

  ghost predicate SetterRun<T>(states: seq<SettersState<T>>, steps: seq<SetterStep<T>>) {
    && |states| == |steps| + 1
    && (forall k | 0 <= k < |states[0].setters| :: states[0].setters[k] == Waiting)
    && states[0].promise.count == |states[0].setters| && states[0].promise.armed == 0 && !states[0].promise.done
    && forall i | 0 <= i < |steps| :: SetterNext(states[i], steps[i], states[i + 1])
  }

  lemma {:induction false} RunsKeepSetters<T>(states: seq<SettersState<T>>, steps: seq<SetterStep<T>>, i: nat)
    requires SetterRun(states, steps) && i < |states|
    ensures SettersInv(states[i])
  {
    if i == 0 {
      NoneYet(states[0].setters, Armed);
      NoneYet(states[0].setters, Counted);
    } else {
      RunsKeepSetters(states, steps, i - 1);
      assert SetterNext(states[i - 1], steps[i - 1], states[i]);
      StepKeepsSetters(states[i - 1], steps[i - 1], states[i]);
    }
  }

  /** When a promise whose latch was made for its setters opens, no setter is late. */
  lemma CountedSettersAreNeverLate<T>(states: seq<SettersState<T>>, steps: seq<SetterStep<T>>, i: nat)
    requires SetterRun(states, steps) && i < |states|
    ensures states[i].promise.armed <= states[i].promise.count
    ensures states[i].promise.Open() ==> states[i].promise.armed == 0
  {
    RunsKeepSetters(states, steps, i);
    BothAtMost(states[i].setters);
  }

  /** So every getter of it sees the same value. */
  lemma PoolPromiseIsStable<T>(states: seq<SettersState<T>>, steps: seq<SetterStep<T>>, i: nat, j: nat)
    requires SetterRun(states, steps) && i <= j < |states| && states[i].promise.Open()
    ensures states[j].promise.value == states[i].promise.value
  {
    var promises := seq(|states|, l requires 0 <= l < |states| => states[l].promise);
    var parts := seq(|steps|, l requires 0 <= l < |steps| => PromisePart(steps[l]));
    forall l | 0 <= l < |parts| ensures PromiseNext(promises[l], parts[l], promises[l + 1]) {
      assert SetterNext(states[l], steps[l], states[l + 1]);
    }
    CountedSettersAreNeverLate(states, steps, i);
    PromiseIsStable(promises, parts, i, j);
  }
}
