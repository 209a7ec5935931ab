/**
 The manager's side of a round: any number of workers return their parts, in any interleaving and
 perhaps more than once; each reply is handed to a check in the pool, its parts are written into the
 clients' partial answers, the worker is counted, and the round is declared done when the count says
 so. Both builds are covered, with the checks of FREIVALDS compiled in and without.
 */
module Ledger {
  import opened Arith
  import opened Counting
  import opened Matrices
  import opened WorkerStrategy
  import RowCheck

  // ----- storing one part

  /** Writing mat(row, 0), mat(row, 1), ... for so many entries stays within the data vector. */
  predicate InBounds<T>(m: MatrixValue<T>, row: nat, size: nat) {
    size == 0 || Pos(m.rows, row, size - 1) < |m.data|
  }

  lemma PosGrows(rows: nat, row: nat, j: nat, k: nat)
    requires j <= k
    ensures Pos(rows, row, j) <= Pos(rows, row, k)
  {
    assert k * rows == j * rows + (k - j) * rows;
  }

  /** Which of the entries lands on position p, if any. */
  function Landing(rows: nat, row: nat, size: nat, p: nat): (j: Option<nat>)
    ensures rows > 0 && j.Some? ==> j.value < size && p == Pos(rows, row, j.value)
    ensures rows > 0 && j.None? ==> forall k: nat | k < size :: p != Pos(rows, row, k)
  {
    if rows == 0 || p < row then None
    else
      var k := (p - row) / rows;
      assert p - row == k * rows + (p - row) % rows;
      if (p - row) % rows == 0 && k < size then Some(k)
      else
        assert forall i: nat | i < size :: p != Pos(rows, row, i) by {
          forall i: nat | i < size && p == Pos(rows, row, i) ensures false { ModMultiple(i, rows); }
        }
        None
  }

  /** Positions are written as they come: a row beyond the last lands in later columns. */
  function WithRow<T>(m: MatrixValue<T>, row: nat, entries: seq<T>): (r: MatrixValue<T>)
    requires m.Valid() && InBounds(m, row, |entries|)
    ensures r.Valid() && r.rows == m.rows && r.cols == m.cols
  {
    Mat(m.rows, m.cols, seq(|m.data|, p requires 0 <= p < |m.data| => Written(m, row, entries, p)))
  }

  function Written<T>(m: MatrixValue<T>, row: nat, entries: seq<T>, p: nat): T
    requires m.Valid() && p < |m.data|
  {
    EveryPosIsACell(m.rows, m.cols, p);
    var j := Landing(m.rows, row, |entries|, p);
    if j.Some? then entries[j.value] else m.data[p]
  }

  /** For a row that exists, and as many entries as columns, it replaces that row and no other. */
  lemma WithRowIs<T>(m: MatrixValue<T>, row: nat, entries: seq<T>, i: nat)
    requires m.Valid() && row < m.rows && |entries| == m.cols && i < m.rows
    ensures InBounds(m, row, |entries|)
    ensures WithRow(m, row, entries).RowAt(i) == if i == row then entries else m.RowAt(i)
  {
    RowFits(m, row);
    var r := WithRow(m, row, entries);
    forall j | 0 <= j < m.cols ensures r.At(i, j) == if i == row then entries[j] else m.At(i, j) {
      CellOfRow(m, row, entries, i, j);
    }
    assert r.RowAt(i) == if i == row then entries else m.RowAt(i);
  }

  lemma RowFits<T>(m: MatrixValue<T>, row: nat)
    requires m.Valid() && row < m.rows
    ensures InBounds(m, row, m.cols)
  {
    if m.cols > 0 { PosIsBijective(m.rows, m.cols, row, m.cols - 1); }
  }

  lemma CellOfRow<T>(m: MatrixValue<T>, row: nat, entries: seq<T>, i: nat, j: nat)
    requires m.Valid() && row < m.rows && |entries| == m.cols && i < m.rows && j < m.cols
    requires InBounds(m, row, |entries|)
    ensures WithRow(m, row, entries).At(i, j) == if i == row then entries[j] else m.At(i, j)
  {
    var p := Pos(m.rows, i, j);
    PosIsBijective(m.rows, m.cols, i, j);
    var landed := Landing(m.rows, row, |entries|, p);
    if landed.Some? { PosIsBijective(m.rows, m.cols, row, landed.value); }
  }

  // ----- the round as a transition system

  /** Whether the checks are compiled in, how a ciphertext is embedded, and what checking a worker's reply comes to. */
  datatype Build<!C, T> = Build(
    freivalds: bool, embed: C -> seq<T>, check: (string, seq<Part<C>>) -> Result<bool, RowCheck.CheckError>)
  {
    /** None if the check reads past an end. */
    function Verdict(worker: string, parts: seq<Part<C>>): Option<bool> {
      var res := check(worker, parts);
      if res.Success? then Some(res.value) else None
    }
  }

  /** What ends the process, or is undefined, in the source. */
  datatype Fault = NullPromise | LatchBelowZero | BadRead(error: RowCheck.CheckError) | NoSuchPlace

  /**
   A handler of ReturnLocalWork: it hands its reply to a check, writes its parts one by one, is
   counted, and then, no longer holding the lock, compares the count it saw.
   */
  datatype Phase = Received | Writing(next: nat) | Counted(n: nat) | Finished

  datatype Handler<+C> = Handler(worker: string, parts: seq<Part<C>>, phase: Phase)

  /** The check of a handler's reply, a task of the pool: its body runs, then its latch is counted down. */
  datatype CheckPhase = Queued | Checked | CountedDown

  datatype Check = Check(handler: nat, phase: CheckPhase)

  /** A worker's promise of a verification result, with its latch. */
  datatype Verification = Verification(latch: int, value: Option<bool>)

  datatype State<+C, +T> = State(
    registered: set<string>,
    workerList: seq<string>,
    promises: map<string, Verification>,
    partial: map<nat, MatrixValue<T>>,
    contributed: set<string>,
    done: bool,
    handlers: seq<Handler<C>>,
    checks: seq<Check>,
    fault: Option<Fault>)

  datatype Step<+C> =
    | Register(worker: string)
    | Submit(worker: string, parts: seq<Part<C>>)
    | Verify(handler: nat)
    | Write(handler: nat)
    | Contribute(handler: nat)
    | Signal(handler: nat)
    | RunCheck(check: nat)
    | CountDown(check: nat)

  /** A part for a client that exists, and that stays within its partial answer. */
  ghost predicate Fits<C, T>(embed: C -> seq<T>, partial: map<nat, MatrixValue<T>>, part: Part<C>) {
    && part.col in partial && partial[part.col].Valid()
    && InBounds(partial[part.col], part.row, |embed(part.ctx)|)
  }

  ghost predicate SameShape<T>(a: map<nat, MatrixValue<T>>, b: map<nat, MatrixValue<T>>) {
    && a.Keys == b.Keys
    && forall c | c in a && a[c].Valid() :: b[c].Valid() && b[c].rows == a[c].rows && b[c].cols == a[c].cols
  }

  /** The embedded part becomes its row of its client's partial answer. */
  ghost function Stored<C, T>(embed: C -> seq<T>, partial: map<nat, MatrixValue<T>>, part: Part<C>)
    : (r: map<nat, MatrixValue<T>>)
    requires Fits(embed, partial, part)
    ensures SameShape(partial, r)
  {
    partial[part.col := WithRow(partial[part.col], part.row, embed(part.ctx))]
  }

  /** Every worker's promise has been kept, so nobody waits for it any more. */
  predicate AllKept(promises: map<string, Verification>) {
    forall w | w in promises :: promises[w].latch == 0 && promises[w].value.Some?
  }

  predicate AllAccepted(promises: map<string, Verification>) {
    forall w | w in promises :: promises[w].value == Some(true)
  }

  ghost predicate CheckExists<C, T>(s: State<C, T>, c: nat, phase: CheckPhase) {
    && c < |s.checks| && s.checks[c].phase == phase && s.checks[c].handler < |s.handlers|
    && s.handlers[s.checks[c].handler].worker in s.promises
  }

  /** A fault ends everything. */
  ghost predicate Enabled<C, T>(s: State<C, T>, step: Step<C>) {
    s.fault.None? &&
    match step
    case Register(_) => true
    case Submit(worker, _) => worker in s.registered
    case Verify(h) => h < |s.handlers| && s.handlers[h].phase == Received
    case Write(h) =>
      h < |s.handlers| && s.handlers[h].phase.Writing? && s.handlers[h].phase.next < |s.handlers[h].parts|
    case Contribute(h) => h < |s.handlers| && s.handlers[h].phase == Writing(|s.handlers[h].parts|)
    case Signal(h) => h < |s.handlers| && s.handlers[h].phase.Counted?
    case RunCheck(c) => CheckExists(s, c, Queued)
    case CountDown(c) => CheckExists(s, c, Checked)
  }

  function At<C, T>(s: State<C, T>, h: nat, phase: Phase): State<C, T>
    requires h < |s.handlers|
  {
    s.(handlers := s.handlers[h := s.handlers[h].(phase := phase)])
  }

  function CheckAt<C, T>(s: State<C, T>, c: nat, phase: CheckPhase): State<C, T>
    requires c < |s.checks|
  {
    s.(checks := s.checks[c := s.checks[c].(phase := phase)])
  }

  function Fail<C, T>(s: State<C, T>, fault: Fault): State<C, T> {
    s.(fault := Some(fault))
  }

  /** async_verify_worker: looking up a worker that is not on the list makes an empty promise. */
  function Verified<C, T>(b: Build<C, T>, s: State<C, T>, h: nat): State<C, T>
    requires h < |s.handlers|
  {
    if !b.freivalds then At(s, h, Writing(0))
    else if s.handlers[h].worker !in s.promises then Fail(s, NullPromise)
    else At(s, h, Writing(0)).(checks := s.checks + [Check(h, Queued)])
  }

  /** The check's body; setting a promise whose latch has opened throws, which the pool swallows. */
  function CheckRun<C, T>(b: Build<C, T>, s: State<C, T>, c: nat): State<C, T>
    requires c < |s.checks| && s.checks[c].handler < |s.handlers|
    requires s.handlers[s.checks[c].handler].worker in s.promises
  {
    var handler := s.handlers[s.checks[c].handler];
    var verdict, promise := b.Verdict(handler.worker, handler.parts), s.promises[handler.worker];
    if verdict.None? then Fail(s, BadRead(b.check(handler.worker, handler.parts).error))
    else if promise.latch == 0 then CheckAt(s, c, Checked)
    else CheckAt(s, c, Checked).(promises := s.promises[handler.worker := promise.(value := verdict)])
  }

  /** The pool counts the promise's latch down; one that had reached zero ends the process. */
  function LatchCounted<C, T>(s: State<C, T>, c: nat): State<C, T>
    requires c < |s.checks| && s.checks[c].handler < |s.handlers|
    requires s.handlers[s.checks[c].handler].worker in s.promises
  {
    var worker := s.handlers[s.checks[c].handler].worker;
    var promise := s.promises[worker];
    var t := CheckAt(s, c, CountedDown).(promises := s.promises[worker := promise.(latch := promise.latch - 1)]);
    if promise.latch <= 0 then Fail(t, LatchBelowZero) else t
  }

  ghost function PartWritten<C, T>(b: Build<C, T>, s: State<C, T>, h: nat): State<C, T>
    requires h < |s.handlers| && s.handlers[h].phase.Writing? && s.handlers[h].phase.next < |s.handlers[h].parts|
  {
    var k := s.handlers[h].phase.next;
    var part := s.handlers[h].parts[k];
    if Fits(b.embed, s.partial, part) then At(s, h, Writing(k + 1)).(partial := Stored(b.embed, s.partial, part))
    else Fail(s, NoSuchPlace)
  }

  ghost function Apply<C, T>(b: Build<C, T>, s: State<C, T>, step: Step<C>): State<C, T>
    requires Enabled(s, step)
  {
    match step
    case Register(worker) => s.(registered := s.registered + {worker})
    case Submit(worker, parts) => s.(handlers := s.handlers + [Handler(worker, parts, Received)])
    case Verify(h) => Verified(b, s, h)
    case Write(h) => PartWritten(b, s, h)
    case Contribute(h) =>
      var contributed := s.contributed + {s.handlers[h].worker};
      At(s, h, Counted(|contributed|)).(contributed := contributed)
    case Signal(h) => At(s, h, Finished).(done := s.done || s.handlers[h].phase.n == |s.workerList|)
    case RunCheck(c) => CheckRun(b, s, c)
    case CountDown(c) => LatchCounted(s, c)
  }

  ghost predicate Reaches<C, T>(b: Build<C, T>, s: State<C, T>, steps: seq<Step<C>>, end: State<C, T>)
    decreases |steps|
  {
    if steps == [] then s == end
    else Enabled(s, steps[0]) && Reaches(b, Apply(b, s, steps[0]), steps[1..], end)
  }

  function Listed<C, T>(s: State<C, T>): set<string> {
    set w | w in s.workerList
  }

  /** new_ledger: the workers registered by then are listed, each once and with a promise. */
  ghost predicate Fresh<C, T>(s: State<C, T>) {
    && Listed(s) == s.registered && |s.workerList| == |s.registered|
    && s.promises == (map w | w in s.registered :: Verification(1, None))
    && s.contributed == {} && !s.done && s.handlers == [] && s.checks == [] && s.fault.None?
    && forall client | client in s.partial :: s.partial[client].Valid()
  }

  // ----- runs

  lemma {:induction false} RunsJoin<C, T>(
    b: Build<C, T>, s: State<C, T>, first: seq<Step<C>>, t: State<C, T>, second: seq<Step<C>>, u: State<C, T>)
    requires Reaches(b, s, first, t) && Reaches(b, t, second, u)
    ensures Reaches(b, s, first + second, u)
    decreases |first|
  {
    if first == [] {
      assert first + second == second;
    } else {
      RunsJoin(b, Apply(b, s, first[0]), first[1..], t, second, u);
      assert (first + second)[1..] == first[1..] + second;
    }
  }

  datatype Reply<+C> = Reply(worker: string, parts: seq<Part<C>>)

  /** The replies a run brings in, in order. */
  function Submissions<C>(steps: seq<Step<C>>): seq<Reply<C>> {
    if steps == [] then []
    else
      var rest := Submissions(steps[1..]);
      if steps[0].Submit? then [Reply(steps[0].worker, steps[0].parts)] + rest else rest
  }

  lemma {:induction false} SubmissionsJoin<C>(first: seq<Step<C>>, second: seq<Step<C>>)
    ensures Submissions(first + second) == Submissions(first) + Submissions(second)
  {
    if first == [] {
      assert first + second == second;
    } else {
      SubmissionsJoin(first[1..], second);
      assert (first + second)[1..] == first[1..] + second;
    }
  }

  function Registrations<C>(steps: seq<Step<C>>): set<string> {
    if steps == [] then {}
    else (if steps[0].Register? then {steps[0].worker} else {}) + Registrations(steps[1..])
  }

  lemma {:induction false} RegistrationsJoin<C>(first: seq<Step<C>>, second: seq<Step<C>>)
    ensures Registrations(first + second) == Registrations(first) + Registrations(second)
  {
    if first == [] {
      assert first + second == second;
    } else {
      RegistrationsJoin(first[1..], second);
      assert (first + second)[1..] == first[1..] + second;
    }
  }

  /** Some run leads from s to t, brings in these replies and registers none but these names. */
  ghost predicate Leads<C(!new), T(!new)>(
    b: Build<C, T>, s: State<C, T>, replies: seq<Reply<C>>, names: set<string>, t: State<C, T>)
  {
    exists steps :: Reaches(b, s, steps, t) && Submissions(steps) == replies && Registrations(steps) <= names
  }

  lemma LeadsNowhere<C(!new), T(!new)>(b: Build<C, T>, s: State<C, T>, names: set<string>)
    ensures Leads(b, s, [], names, s)
  {
    var steps: seq<Step<C>> := [];
    assert Reaches(b, s, steps, s) && Submissions(steps) == [] && Registrations(steps) <= names;
  }

  lemma LeadsStep<C(!new), T(!new)>(b: Build<C, T>, s: State<C, T>, step: Step<C>, names: set<string>)
    requires Enabled(s, step) && (step.Register? ==> step.worker in names)
    ensures Leads(b, s, if step.Submit? then [Reply(step.worker, step.parts)] else [], names, Apply(b, s, step))
  {
    var steps := [step];
    assert steps[1..] == [];
    assert Reaches(b, Apply(b, s, step), [], Apply(b, s, step));
    assert Submissions(steps[1..]) == [] && Registrations(steps[1..]) == {};
    assert Reaches(b, s, steps, Apply(b, s, step));
  }

  lemma LeadsOn<C(!new), T(!new)>(
    b: Build<C, T>, s: State<C, T>, first: seq<Reply<C>>, t: State<C, T>, second: seq<Reply<C>>, u: State<C, T>,
    names: set<string>)
    requires Leads(b, s, first, names, t) && Leads(b, t, second, names, u)
    ensures Leads(b, s, first + second, names, u)
  {
    var x :| Reaches(b, s, x, t) && Submissions(x) == first && Registrations(x) <= names;
    var y :| Reaches(b, t, y, u) && Submissions(y) == second && Registrations(y) <= names;
    RunsJoin(b, s, x, t, y, u);
    SubmissionsJoin(x, y);
    RegistrationsJoin(x, y);
  }

  /** One more step, which brings in no reply. */
  lemma LeadsFurther<C(!new), T(!new)>(
    b: Build<C, T>, s: State<C, T>, replies: seq<Reply<C>>, t: State<C, T>, step: Step<C>, names: set<string>)
    requires Leads(b, s, replies, names, t) && Enabled(t, step) && !step.Register? && !step.Submit?
    ensures Leads(b, s, replies, names, Apply(b, t, step))
  {
    LeadsStep(b, t, step, names);
    LeadsOn(b, s, replies, t, [], Apply(b, t, step), names);
    assert replies + [] == replies;
  }

  // ----- the steps that leave the counting alone

  predicate IsInner<C>(step: Step<C>) {
    step.Verify? || step.Write? || step.RunCheck? || step.CountDown?
  }

  /** Parts are kept, and a handler only moves on while it has not been counted. */
  ghost predicate Inner<C, T>(s: State<C, T>, t: State<C, T>) {
    && t.registered == s.registered && t.workerList == s.workerList && t.contributed == s.contributed
    && t.done == s.done && t.promises.Keys == s.promises.Keys && |t.handlers| == |s.handlers|
    && forall h | 0 <= h < |s.handlers| ::
         && t.handlers[h].worker == s.handlers[h].worker && t.handlers[h].parts == s.handlers[h].parts
         && (t.handlers[h] == s.handlers[h] || t.handlers[h].phase.Writing?)
         && (HasCounted(s.handlers[h]) ==> t.handlers[h] == s.handlers[h])
  }

  lemma VerifyIsInner<C, T>(b: Build<C, T>, s: State<C, T>, h: nat)
    requires Enabled(s, Verify(h))
    ensures Inner(s, Verified(b, s, h))
    ensures b.freivalds && s.handlers[h].worker !in s.promises ==> Verified(b, s, h).handlers == s.handlers
  {
  }

  lemma WriteIsInner<C, T>(b: Build<C, T>, s: State<C, T>, h: nat)
    requires Enabled(s, Write(h))
    ensures Inner(s, PartWritten(b, s, h))
    ensures forall i | 0 <= i < |s.handlers| && s.handlers[i].phase.Received? ::
        PartWritten(b, s, h).handlers[i] == s.handlers[i]
  {
  }

  lemma RunCheckIsInner<C, T>(b: Build<C, T>, s: State<C, T>, c: nat)
    requires Enabled(s, RunCheck(c))
    ensures Inner(s, CheckRun(b, s, c)) && CheckRun(b, s, c).handlers == s.handlers
  {
    assert CheckRun(b, s, c).promises.Keys == s.promises.Keys;
  }

  lemma CountDownIsInner<C, T>(s: State<C, T>, c: nat)
    requires Enabled(s, CountDown(c))
    ensures Inner(s, LatchCounted(s, c)) && LatchCounted(s, c).handlers == s.handlers
  {
    assert LatchCounted(s, c).promises.Keys == s.promises.Keys;
  }

  /** And a handler that gets past its check, in the build with checks, is a listed worker's. */
  lemma InnerSteps<C, T>(b: Build<C, T>, s: State<C, T>, step: Step<C>)
    requires Enabled(s, step) && IsInner(step)
    ensures var t := Apply(b, s, step);
      && Inner(s, t)
      && (b.freivalds ==>
           forall h | 0 <= h < |s.handlers| && s.handlers[h].phase.Received? && !t.handlers[h].phase.Received? ::
            s.handlers[h].worker in s.promises)
  {
    match step
    case Verify(h) => VerifyIsInner(b, s, h);
    case Write(h) => WriteIsInner(b, s, h);
    case RunCheck(c) => RunCheckIsInner(b, s, c);
    case CountDown(c) => CountDownIsInner(s, c);
    case _ =>
  }

  // ----- counting contributions

  ghost predicate CountInv<C, T>(s: State<C, T>) {
    && (forall h | 0 <= h < |s.handlers| && s.handlers[h].phase.Counted? :: s.handlers[h].phase.n <= |s.contributed|)
    && (forall h | 0 <= h < |s.handlers| && HasCounted(s.handlers[h]) :: s.handlers[h].worker in s.contributed)
    && (s.done ==> |s.workerList| <= |s.contributed|)
    && (|s.contributed| == |s.workerList| > 0 ==> s.done || SignalPending(s))
  }

  predicate HasCounted<C>(h: Handler<C>) {
    h.phase.Counted? || h.phase.Finished?
  }

  /** Some handler has seen the full count and not yet acted on it. */
  ghost predicate SignalPending<C, T>(s: State<C, T>) {
    exists h :: 0 <= h < |s.handlers| && s.handlers[h].phase == Counted(|s.workerList|)
  }

  lemma SizeGrows<T>(a: set<T>, x: T)
    ensures |a + {x}| == if x in a then |a| else |a| + 1
  {
    if x in a { assert a + {x} == a; }
  }

  lemma ContributionIsCounted<C, T>(b: Build<C, T>, s: State<C, T>, h: nat)
    requires CountInv(s) && Enabled(s, Contribute(h))
    ensures CountInv(Apply(b, s, Contribute(h)))
  {
    var t := Apply(b, s, Contribute(h));
    SizeGrows(s.contributed, s.handlers[h].worker);
    assert t.handlers[h].phase == Counted(|t.contributed|);
  }

  lemma PendingStays<C, T>(b: Build<C, T>, s: State<C, T>, step: Step<C>)
    requires Enabled(s, step) && !step.Contribute? && SignalPending(s)
    ensures var t := Apply(b, s, step); t.done || SignalPending(t)
  {
    if IsInner(step) { InnerSteps(b, s, step); }
    var t := Apply(b, s, step);
    var h :| 0 <= h < |s.handlers| && s.handlers[h].phase == Counted(|s.workerList|);
    if !(step.Signal? && step.handler == h) {
      assert t.handlers[h] == s.handlers[h];
    }
  }

  lemma StepKeepsCount<C, T>(b: Build<C, T>, s: State<C, T>, step: Step<C>)
    requires CountInv(s) && Enabled(s, step)
    ensures CountInv(Apply(b, s, step)) && Apply(b, s, step).workerList == s.workerList
  {
    if IsInner(step) { InnerSteps(b, s, step); }
    if step.Contribute? {
      ContributionIsCounted(b, s, step.handler);
    } else if SignalPending(s) {
      PendingStays(b, s, step);
    }
  }

  lemma {:induction false} RunsKeepCount<C, T>(b: Build<C, T>, s: State<C, T>, steps: seq<Step<C>>, end: State<C, T>)
    requires CountInv(s) && Reaches(b, s, steps, end)
    ensures CountInv(end) && end.workerList == s.workerList
    decreases |steps|
  {
    if steps != [] {
      StepKeepsCount(b, s, steps[0]);
      RunsKeepCount(b, Apply(b, s, steps[0]), steps[1..], end);
    }
  }

  // ----- who can contribute

  /** Handlers are of registered workers, and with the checks compiled in only listed ones get past theirs. */
  ghost predicate AdmitInv<C, T>(b: Build<C, T>, s: State<C, T>) {
    && s.promises.Keys == Listed(s)
    && s.contributed <= s.registered
    && (forall h | 0 <= h < |s.handlers| :: s.handlers[h].worker in s.registered)
    && (b.freivalds ==> s.contributed <= Listed(s))
    && (b.freivalds ==>
         forall h | 0 <= h < |s.handlers| && s.handlers[h].phase != Received :: s.handlers[h].worker in Listed(s))
  }

  lemma StepKeepsAdmission<C, T>(b: Build<C, T>, s: State<C, T>, step: Step<C>)
    requires AdmitInv(b, s) && Enabled(s, step)
    ensures AdmitInv(b, Apply(b, s, step))
    ensures Apply(b, s, step).registered == s.registered + if step.Register? then {step.worker} else {}
  {
    if IsInner(step) { InnerKeepsAdmission(b, s, step); }
    assert Listed(Apply(b, s, step)) == Listed(s);
  }

  lemma InnerKeepsAdmission<C, T>(b: Build<C, T>, s: State<C, T>, step: Step<C>)
    requires AdmitInv(b, s) && Enabled(s, step) && IsInner(step)
    ensures AdmitInv(b, Apply(b, s, step)) && Apply(b, s, step).registered == s.registered
    ensures Apply(b, s, step).workerList == s.workerList
  {
    InnerSteps(b, s, step);
    var t := Apply(b, s, step);
    assert Listed(t) == Listed(s);
    forall h | b.freivalds && 0 <= h < |t.handlers| && t.handlers[h].phase != Received
      ensures t.handlers[h].worker in Listed(t)
    {
      if s.handlers[h].phase == Received { assert s.handlers[h].worker in s.promises.Keys; }
    }
  }

  lemma {:induction false} RunsKeepAdmission<C, T>(
    b: Build<C, T>, s: State<C, T>, steps: seq<Step<C>>, end: State<C, T>)
    requires AdmitInv(b, s) && Reaches(b, s, steps, end)
    ensures AdmitInv(b, end) && end.registered == s.registered + Registrations(steps)
    decreases |steps|
  {
    if steps != [] {
      StepKeepsAdmission(b, s, steps[0]);
      RunsKeepAdmission(b, Apply(b, s, steps[0]), steps[1..], end);
    }
  }

  lemma FreshInv<C, T>(b: Build<C, T>, s: State<C, T>)
    requires Fresh(s)
    ensures CountInv(s) && AdmitInv(b, s) && |Listed(s)| == |s.workerList|
  {
  }

  /**
   A round that is done has all of the listed workers' contributions and no others, and one that has
   them is done as soon as no handler is between counting and comparing, provided there was a worker
   to wait for: in every run of the build with the checks, and in every run of the build without
   in which nobody new registers.
   */
  lemma DoneMeansAllContributed<C, T>(b: Build<C, T>, s: State<C, T>, steps: seq<Step<C>>, end: State<C, T>)
    requires Fresh(s) && Reaches(b, s, steps, end) && (b.freivalds || Registrations(steps) <= s.registered)
    ensures end.done ==> end.contributed == Listed(end)
    ensures end.contributed == Listed(end) && !SignalPending(end) && end.workerList != [] ==> end.done
  {
    FreshInv(b, s);
    RunsKeepCount(b, s, steps, end);
    RunsKeepAdmission(b, s, steps, end);
    assert Listed(end) == Listed(s);
    SubsetSize(end.contributed, Listed(end));
  }

  ghost predicate Unanswerable<C, T>(s: State<C, T>) {
    && s.workerList == [] && !s.done
    && forall h | 0 <= h < |s.handlers| && s.handlers[h].phase.Counted? :: s.handlers[h].phase.n > 0
  }

  lemma StaysUnanswerable<C, T>(b: Build<C, T>, s: State<C, T>, step: Step<C>)
    requires Unanswerable(s) && Enabled(s, step)
    ensures Unanswerable(Apply(b, s, step))
  {
    if IsInner(step) { InnerSteps(b, s, step); }
    if step.Contribute? {
      assert s.handlers[step.handler].worker in s.contributed + {s.handlers[step.handler].worker};
    }
  }

  /** Without listed workers no run is ever done, whoever registers: whoever waits waits for good. */
  lemma {:induction false} EmptyListIsNeverDone<C, T>(
    b: Build<C, T>, s: State<C, T>, steps: seq<Step<C>>, end: State<C, T>)
    requires Unanswerable(s) && Reaches(b, s, steps, end)
    ensures !end.done
    decreases |steps|
  {
    if steps != [] {
      StaysUnanswerable(b, s, steps[0]);
      EmptyListIsNeverDone(b, Apply(b, s, steps[0]), steps[1..], end);
    }
  }

  // ----- promises

  lemma StepKeepsVerdict<C, T>(b: Build<C, T>, s: State<C, T>, step: Step<C>, w: string)
    requires Enabled(s, step) && w in s.promises && s.promises[w].latch == 0
    ensures var t := Apply(b, s, step);
      w in t.promises && t.promises[w].value == s.promises[w].value
      && (t.promises[w].latch == 0 || t.fault == Some(LatchBelowZero))
  {
    match step
    case RunCheck(c) => assert CheckRun(b, s, c).promises.Keys == s.promises.Keys;
    case CountDown(c) => assert LatchCounted(s, c).promises.Keys == s.promises.Keys;
    case _ =>
  }

  /** Once a promise's latch has opened, its verdict stays what it is, whatever is checked after that. */
  lemma {:induction false} KeptVerdictStays<C, T>(
    b: Build<C, T>, s: State<C, T>, steps: seq<Step<C>>, end: State<C, T>, w: string)
    requires Reaches(b, s, steps, end) && w in s.promises && s.promises[w].latch == 0
    ensures w in end.promises && end.promises[w].value == s.promises[w].value
    decreases |steps|
  {
    if steps != [] {
      StepKeepsVerdict(b, s, steps[0], w);
      var t := Apply(b, s, steps[0]);
      if t.fault.None? {
        KeptVerdictStays(b, t, steps[1..], end, w);
      } else {
        NothingAfterFault(b, t, steps[1..], end);
      }
    }
  }

  lemma NothingAfterFault<C, T>(b: Build<C, T>, s: State<C, T>, steps: seq<Step<C>>, end: State<C, T>)
    requires Reaches(b, s, steps, end) && s.fault.Some?
    ensures steps == [] && end == s
  {
  }

  // ----- late registration, without the checks

  /** The state after a worker with nothing to say has been served from end to end. */
  function Served<C, T>(s: State<C, T>, w: string): State<C, T> {
    var contributed := s.contributed + {w};
    s.(contributed := contributed, done := s.done || |contributed| == |s.workerList|,
       handlers := s.handlers + [Handler(w, [], Finished)])
  }

  /** Without the checks, a registered worker may reply with nothing and is counted for it. */
  lemma EmptyReplyIsCounted<C(!new), T(!new)>(b: Build<C, T>, s: State<C, T>, w: string)
    requires !b.freivalds && s.fault.None? && w in s.registered
    ensures Leads(b, s, [Reply(w, [])], {}, Served(s, w))
  {
    var h := |s.handlers|;
    var s1 := Apply(b, s, Submit(w, []));
    LeadsStep(b, s, Submit(w, []), {});
    LeadsFurther(b, s, [Reply(w, [])], s1, Verify(h), {});
    var s2 := Apply(b, s1, Verify(h));
    CountedAlone(b, s, s2, w);
  }

  lemma CountedAlone<C(!new), T(!new)>(b: Build<C, T>, s: State<C, T>, t: State<C, T>, w: string)
    requires s.fault.None? && t == s.(handlers := s.handlers + [Handler(w, [], Writing(0))])
    requires Leads(b, s, [Reply(w, [])], {}, t)
    ensures Leads(b, s, [Reply(w, [])], {}, Served(s, w))
  {
    var h := |s.handlers|;
    LeadsFurther(b, s, [Reply(w, [])], t, Contribute(h), {});
    var u := Apply(b, t, Contribute(h));
    LeadsFurther(b, s, [Reply(w, [])], u, Signal(h), {});
    assert Apply(b, u, Signal(h)).handlers == Served(s, w).handlers;
  }

  function Members(names: seq<string>): set<string> {
    set w | w in names
  }

  /** Serving several workers one after the other, the count ends at all of them. */
  lemma {:induction false} AllServed<C(!new), T(!new)>(b: Build<C, T>, s: State<C, T>, names: seq<string>)
    returns (replies: seq<Reply<C>>, end: State<C, T>)
    requires !b.freivalds && s.fault.None? && names != [] && forall w | w in names :: w in s.registered
    ensures Leads(b, s, replies, {}, end) && end.workerList == s.workerList
    ensures end.contributed == s.contributed + Members(names)
    ensures |end.contributed| == |end.workerList| ==> end.done
    decreases |names|
  {
    EmptyReplyIsCounted(b, s, names[0]);
    var t := Served(s, names[0]);
    if |names| == 1 {
      replies, end := [Reply(names[0], [])], t;
      assert Members(names) == {names[0]};
    } else {
      var rest;
      rest, end := AllServed(b, t, names[1..]);
      replies := [Reply(names[0], [])] + rest;
      LeadsOn(b, s, [Reply(names[0], [])], t, rest, end, {});
      assert Members(names) == {names[0]} + Members(names[1..]);
    }
  }

  lemma LeadsMore<C(!new), T(!new)>(
    b: Build<C, T>, s: State<C, T>, replies: seq<Reply<C>>, few: set<string>, names: set<string>, t: State<C, T>)
    requires Leads(b, s, replies, few, t) && few <= names
    ensures Leads(b, s, replies, names, t)
  {
    var steps :| Reaches(b, s, steps, t) && Submissions(steps) == replies && Registrations(steps) <= few;
  }

  lemma DistinctMembers(names: seq<string>)
    requires |Members(names)| == |names| > 0
    ensures names[0] !in Members(names[1..]) && |Members(names[1..])| == |names| - 1
  {
    var rest := Members(names[1..]);
    MembersAtMost(names[1..]);
    SizeGrows(rest, names[0]);
    assert Members(names) == rest + {names[0]};
  }

  lemma {:induction false} MembersAtMost(names: seq<string>)
    ensures |Members(names)| <= |names|
  {
    if names != [] {
      MembersAtMost(names[1..]);
      assert Members(names) == Members(names[1..]) + {names[0]};
      SizeGrows(Members(names[1..]), names[0]);
    } else {
      assert Members(names) == {};
    }
  }

  /** A newcomer instead of the first listed worker: as many contributors, but not the listed ones. */
  lemma NewcomerCounts<C, T>(s: State<C, T>, w: string)
    requires Fresh(s) && s.workerList != [] && w !in s.registered
    ensures var names := s.workerList[1..] + [w];
      && (forall x | x in names :: x in s.registered + {w})
      && |Members(names)| == |s.workerList| && Members(names) != Listed(s)
  {
    var names := s.workerList[1..] + [w];
    assert Members(s.workerList) == Listed(s);
    DistinctMembers(s.workerList);
    assert forall x | x in s.workerList[1..] :: x in Listed(s);
    assert Members(names) == Members(s.workerList[1..]) + {w};
    assert w in Members(names);
  }

  /** It stands in for that worker: the round ends without it. */
  lemma NewcomerEndsRound<C(!new), T(!new)>(b: Build<C, T>, s: State<C, T>, w: string)
    returns (replies: seq<Reply<C>>, end: State<C, T>)
    requires Fresh(s) && !b.freivalds && s.workerList != [] && w !in s.registered
    ensures Leads(b, s, replies, {w}, end) && end.done && end.contributed != Listed(end)
  {
    NewcomerCounts(s, w);
    var names := s.workerList[1..] + [w];
    var t := Apply(b, s, Register(w));
    LeadsStep(b, s, Register(w), {w});
    replies, end := AllServed(b, t, names);
    assert end.contributed == Members(names);
    LeadsMore(b, t, replies, {}, {w}, end);
    LeadsOn(b, s, [], t, replies, end, {w});
    assert [] + replies == replies;
  }

  /**
   Exactly when a done round can be relied on. For any set of names that may register while it runs:
   in every such run done means that the listed workers, and no others, have contributed, if and only
   if the checks are compiled in, or nobody is listed, or everybody in the set was registered before.
   */
  lemma DoneCondition<C(!new), T(!new)>(b: Build<C, T>, s: State<C, T>, names: set<string>)
    requires Fresh(s)
    ensures (forall steps, end | Reaches(b, s, steps, end) && Registrations(steps) <= names && end.done ::
               end.contributed == Listed(end))
            <==> b.freivalds || s.workerList == [] || names <= s.registered
  {
    if b.freivalds || s.workerList == [] || names <= s.registered {
      forall steps, end | Reaches(b, s, steps, end) && Registrations(steps) <= names && end.done
        ensures end.contributed == Listed(end)
      {
        if s.workerList == [] {
          EmptyListIsNeverDone(b, s, steps, end);
        } else {
          DoneMeansAllContributed(b, s, steps, end);
        }
      }
    } else {
      Counterexample(b, s, names);
    }
  }

  lemma Counterexample<C(!new), T(!new)>(b: Build<C, T>, s: State<C, T>, names: set<string>)
    requires Fresh(s) && !b.freivalds && s.workerList != [] && !(names <= s.registered)
    ensures exists steps, end ::
      Reaches(b, s, steps, end) && Registrations(steps) <= names && end.done && end.contributed != Listed(end)
  {
    var w :| w in names && w !in s.registered;
    var replies, end := NewcomerEndsRound(b, s, w);
    var steps :| Reaches(b, s, steps, end) && Submissions(steps) == replies && Registrations(steps) <= {w};
  }

  /** The smallest such run: b registers after the ledger was made for a, and replies; a never does. */
  lemma LateRegistrationEndsRoundEarly<C(!new), T(!new)>(b: Build<C, T>)
    returns (s: State<C, T>, replies: seq<Reply<C>>, end: State<C, T>)
    requires !b.freivalds
    ensures Fresh(s) && s.workerList == ["a"] && Leads(b, s, replies, {"b"}, end)
    ensures end.done && end.contributed != Listed(end)
  {
    var registered: set<string> := {"a"};
    s := State(registered, ["a"], map w | w in registered :: Verification(1, None), map[], {}, false, [], [], None);
    assert Listed(s) == {"a"};
    replies, end := NewcomerEndsRound(b, s, "b");
  }
}
