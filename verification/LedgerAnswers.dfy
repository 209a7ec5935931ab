/**
 What a round leaves in the clients' partial answers: which rows are right once it is done, and that
 a round of safe, honest replies does get done.
 */
module LedgerAnswers {
  import opened Arith
  import opened Matrices
  import opened WorkerStrategy
  import opened Ledger
  import opened Counting
  import opened LedgerFaults

  // ----- honest rounds

  /** What each worker replies, complete or cut short, and what belongs in each row of each client's answer. */
  datatype Job<!C> = Job(
    truth: (nat, nat) -> C, reply: map<string, seq<Part<C>>>, clients: nat, rows: nat, width: nat)

  ghost predicate PartIsRight<C, T>(b: Build<C, T>, job: Job<C>, part: Part<C>) {
    && part.row < job.rows && part.col < job.clients
    && part.ctx == job.truth(part.row, part.col) && |b.embed(part.ctx)| == job.width
  }

  ghost predicate Honest<C, T>(b: Build<C, T>, job: Job<C>) {
    forall w, k | w in job.reply && 0 <= k < |job.reply[w]| :: PartIsRight(b, job, job.reply[w][k])
  }

  ghost predicate HonestReplies<C>(job: Job<C>, replies: seq<Reply<C>>) {
    forall i | 0 <= i < |replies| :: replies[i].worker in job.reply && replies[i].parts == job.reply[replies[i].worker]
  }

  ghost predicate Shaped<C, T>(job: Job<C>, partial: map<nat, MatrixValue<T>>) {
    forall c: nat | c < job.clients ::
      c in partial && partial[c].Valid() && partial[c].rows == job.rows && partial[c].cols == job.width
  }

  /** The row of the client's partial answer is the embedding of the ciphertext that belongs there. */
  ghost predicate CellHolds<C, T>(b: Build<C, T>, job: Job<C>, partial: map<nat, MatrixValue<T>>, row: nat, col: nat)
    requires Shaped(job, partial)
  {
    row < job.rows && col < job.clients && partial[col].RowAt(row) == b.embed(job.truth(row, col))
  }

  ghost predicate StoredUpTo<C, T>(
    b: Build<C, T>, job: Job<C>, partial: map<nat, MatrixValue<T>>, parts: seq<Part<C>>, k: nat)
    requires Shaped(job, partial)
  {
    k <= |parts| && forall i | 0 <= i < k :: CellHolds(b, job, partial, parts[i].row, parts[i].col)
  }

  function Progress<C>(h: Handler<C>): nat {
    match h.phase
    case Received => 0
    case Writing(next) => next
    case _ => |h.parts|
  }

  ghost predicate HandlerInv<C, T>(b: Build<C, T>, job: Job<C>, partial: map<nat, MatrixValue<T>>, h: Handler<C>)
    requires Shaped(job, partial)
  {
    h.worker in job.reply && h.parts == job.reply[h.worker] && StoredUpTo(b, job, partial, h.parts, Progress(h))
  }

  ghost predicate WorkerIsStored<C, T>(b: Build<C, T>, job: Job<C>, partial: map<nat, MatrixValue<T>>, w: string)
    requires Shaped(job, partial)
  {
    w in job.reply && StoredUpTo(b, job, partial, job.reply[w], |job.reply[w]|)
  }

  ghost predicate CellInv<C, T>(b: Build<C, T>, job: Job<C>, s: State<C, T>) {
    && Shaped(job, s.partial)
    && (forall h | 0 <= h < |s.handlers| :: HandlerInv(b, job, s.partial, s.handlers[h]))
    && forall w | w in s.contributed :: WorkerIsStored(b, job, s.partial, w)
  }

  /** Storing a right part keeps every cell that was right, makes its own right, and leaves the others alone. */
  lemma StoreKeepsCells<C, T>(b: Build<C, T>, job: Job<C>, partial: map<nat, MatrixValue<T>>, part: Part<C>)
    requires Shaped(job, partial) && PartIsRight(b, job, part)
    ensures Fits(b.embed, partial, part)
    ensures var after := Stored(b.embed, partial, part);
      && Shaped(job, after) && CellHolds(b, job, after, part.row, part.col)
      && (forall row, col | CellHolds(b, job, partial, row, col) :: CellHolds(b, job, after, row, col))
  {
    RowFits(partial[part.col], part.row);
    var after, entries := Stored(b.embed, partial, part), b.embed(part.ctx);
    WithRowIs(partial[part.col], part.row, entries, part.row);
    forall row, col | CellHolds(b, job, partial, row, col) ensures CellHolds(b, job, after, row, col) {
      if col == part.col { WithRowIs(partial[part.col], part.row, entries, row); }
    }
  }

  lemma StepKeepsCells<C, T>(b: Build<C, T>, job: Job<C>, s: State<C, T>, step: Step<C>)
    requires Honest(b, job) && CellInv(b, job, s) && Enabled(s, step)
    requires step.Submit? ==> step.worker in job.reply && step.parts == job.reply[step.worker]
    ensures CellInv(b, job, Apply(b, s, step))
  {
    if step.Write? {
      WriteKeepsCells(b, job, s, step.handler);
    } else {
      OtherKeepsCells(b, job, s, step);
    }
  }

  lemma OtherKeepsCells<C, T>(b: Build<C, T>, job: Job<C>, s: State<C, T>, step: Step<C>)
    requires CellInv(b, job, s) && Enabled(s, step) && !step.Write?
    requires step.Submit? ==> step.worker in job.reply && step.parts == job.reply[step.worker]
    ensures CellInv(b, job, Apply(b, s, step))
  {
    OtherSteps(b, s, step);
    var t := Apply(b, s, step);
    forall h | 0 <= h < |t.handlers| ensures HandlerInv(b, job, t.partial, t.handlers[h]) {
      if h < |s.handlers| { assert HandlerInv(b, job, s.partial, s.handlers[h]); }
    }
    forall w | w in t.contributed ensures WorkerIsStored(b, job, t.partial, w) {
      if w in s.contributed {
        assert WorkerIsStored(b, job, s.partial, w);
      } else {
        assert HandlerInv(b, job, s.partial, s.handlers[step.handler]);
      }
    }
  }

  ghost predicate SameProgress<C, T>(s: State<C, T>, t: State<C, T>) {
    && t.partial == s.partial && |s.handlers| <= |t.handlers|
    && forall h | 0 <= h < |s.handlers| ::
         && t.handlers[h].worker == s.handlers[h].worker && t.handlers[h].parts == s.handlers[h].parts
         && Progress(t.handlers[h]) == Progress(s.handlers[h])
  }

  /** What the steps that write nothing leave alone. */
  lemma OtherSteps<C, T>(b: Build<C, T>, s: State<C, T>, step: Step<C>)
    requires Enabled(s, step) && !step.Write?
    ensures var t := Apply(b, s, step);
      && SameProgress(s, t) && |t.handlers| == |s.handlers| + (if step.Submit? then 1 else 0)
      && (step.Submit? ==> t.handlers[|s.handlers|] == Handler(step.worker, step.parts, Received))
      && t.contributed == s.contributed + if step.Contribute? then {s.handlers[step.handler].worker} else {}
  {
    if IsInner(step) { ChecksWriteNothing(b, s, step); }
  }

  lemma ChecksWriteNothing<C, T>(b: Build<C, T>, s: State<C, T>, step: Step<C>)
    requires Enabled(s, step) && IsInner(step) && !step.Write?
    ensures var t := Apply(b, s, step);
      SameProgress(s, t) && |t.handlers| == |s.handlers| && t.contributed == s.contributed
  {
    match step
    case Verify(h) => VerifyWritesNothing(b, s, h);
    case RunCheck(c) => RunCheckIsInner(b, s, c);
    case CountDown(c) => CountDownIsInner(s, c);
    case _ =>
  }

  lemma VerifyWritesNothing<C, T>(b: Build<C, T>, s: State<C, T>, h: nat)
    requires Enabled(s, Verify(h))
    ensures SameProgress(s, Verified(b, s, h)) && |Verified(b, s, h).handlers| == |s.handlers|
    ensures Verified(b, s, h).contributed == s.contributed
  {
  }

  lemma WriteKeepsCells<C, T>(b: Build<C, T>, job: Job<C>, s: State<C, T>, h: nat)
    requires Honest(b, job) && CellInv(b, job, s) && Enabled(s, Write(h))
    ensures CellInv(b, job, Apply(b, s, Write(h)))
  {
    var t := Apply(b, s, Write(h));
    var writer := s.handlers[h];
    assert HandlerInv(b, job, s.partial, writer);
    StoreKeepsCells(b, job, s.partial, writer.parts[writer.phase.next]);
    forall i | 0 <= i < |t.handlers| ensures HandlerInv(b, job, t.partial, t.handlers[i]) {
      assert HandlerInv(b, job, s.partial, s.handlers[i]);
    }
    forall w | w in t.contributed ensures WorkerIsStored(b, job, t.partial, w) {
      assert WorkerIsStored(b, job, s.partial, w);
    }
  }

  lemma HonestRest<C>(job: Job<C>, steps: seq<Step<C>>)
    requires steps != [] && HonestReplies(job, Submissions(steps))
    ensures HonestReplies(job, Submissions(steps[1..]))
    ensures steps[0].Submit? ==> steps[0].worker in job.reply && steps[0].parts == job.reply[steps[0].worker]
  {
    var replies, rest := Submissions(steps), Submissions(steps[1..]);
    if steps[0].Submit? {
      assert replies[0] == Reply(steps[0].worker, steps[0].parts);
      forall i | 0 <= i < |rest| ensures rest[i] == replies[i + 1] {
      }
    }
  }

  lemma {:induction false} RunsKeepCells<C, T>(
    b: Build<C, T>, job: Job<C>, s: State<C, T>, steps: seq<Step<C>>, end: State<C, T>)
    requires Honest(b, job) && CellInv(b, job, s) && Reaches(b, s, steps, end) && HonestReplies(job, Submissions(steps))
    ensures CellInv(b, job, end)
    decreases |steps|
  {
    if steps != [] {
      HonestRest(job, steps);
      StepKeepsCells(b, job, s, steps[0]);
      RunsKeepCells(b, job, Apply(b, s, steps[0]), steps[1..], end);
    }
  }

  /** Some worker's reply has a part for this row of this client's answer. */
  ghost predicate Replied<C>(job: Job<C>, row: nat, col: nat) {
    exists w, k :: w in job.reply && 0 <= k < |job.reply[w]| && job.reply[w][k].row == row && job.reply[w][k].col == col
  }

  lemma OtherCellStays<C, T>(b: Build<C, T>, job: Job<C>, s: State<C, T>, step: Step<C>, row: nat, col: nat)
    requires Honest(b, job) && CellInv(b, job, s) && Enabled(s, step)
    requires row < job.rows && col < job.clients && !Replied(job, row, col)
    ensures var t := Apply(b, s, step); col in t.partial && t.partial[col].Valid() && t.partial[col].rows == job.rows
    ensures Apply(b, s, step).partial[col].RowAt(row) == s.partial[col].RowAt(row)
  {
    if step.Write? {
      var writer := s.handlers[step.handler];
      assert HandlerInv(b, job, s.partial, writer);
      var part := writer.parts[writer.phase.next];
      assert part == job.reply[writer.worker][writer.phase.next];
      StoreKeepsCells(b, job, s.partial, part);
      if part.col == col {
        assert part.row != row;
        WithRowIs(s.partial[col], part.row, b.embed(part.ctx), row);
      }
    }
  }

  lemma {:induction false} UnrepliedCellStays<C, T>(
    b: Build<C, T>, job: Job<C>, s: State<C, T>, steps: seq<Step<C>>, end: State<C, T>, row: nat, col: nat)
    requires Honest(b, job) && CellInv(b, job, s) && Reaches(b, s, steps, end) && HonestReplies(job, Submissions(steps))
    requires row < job.rows && col < job.clients && !Replied(job, row, col)
    ensures Shaped(job, end.partial) && end.partial[col].RowAt(row) == s.partial[col].RowAt(row)
    decreases |steps|
  {
    if steps != [] {
      HonestRest(job, steps);
      OtherCellStays(b, job, s, steps[0], row, col);
      StepKeepsCells(b, job, s, steps[0]);
      UnrepliedCellStays(b, job, Apply(b, s, steps[0]), steps[1..], end, row, col);
    }
  }

  /** In an honest round only listed workers contribute, whoever else registers: so done means all of them did. */
  lemma HonestRoundIsFull<C, T>(b: Build<C, T>, job: Job<C>, s: State<C, T>, steps: seq<Step<C>>, end: State<C, T>)
    requires Fresh(s) && Shaped(job, s.partial) && Honest(b, job) && job.reply.Keys <= Listed(s)
    requires Reaches(b, s, steps, end) && HonestReplies(job, Submissions(steps))
    ensures CellInv(b, job, end) && CountInv(end) && Listed(end) == Listed(s)
    ensures end.done ==> end.contributed == Listed(s)
  {
    FreshInv(b, s);
    RunsKeepCells(b, job, s, steps, end);
    RunsKeepCount(b, s, steps, end);
    forall w | w in end.contributed ensures w in Listed(s) {
      assert WorkerIsStored(b, job, end.partial, w);
      assert w in job.reply.Keys;
    }
    SubsetSize(end.contributed, Listed(s));
  }

  /**
   In every run of an honest round, with replies resubmitted, interleaved or cut short: once it is done,
   a row of a client's partial answer is the right embedding if and only if some reply reached far
   enough to bring it, or it was right before.
   */
  lemma DoneCellCondition<C, T>(
    b: Build<C, T>, job: Job<C>, s: State<C, T>, steps: seq<Step<C>>, end: State<C, T>, row: nat, col: nat)
    requires Fresh(s) && Shaped(job, s.partial) && Honest(b, job) && job.reply.Keys <= Listed(s)
    requires Reaches(b, s, steps, end) && HonestReplies(job, Submissions(steps))
    requires end.done && row < job.rows && col < job.clients
    ensures Shaped(job, end.partial)
    ensures CellHolds(b, job, end.partial, row, col) <==>
        Replied(job, row, col) || CellHolds(b, job, s.partial, row, col)
  {
    HonestRoundIsFull(b, job, s, steps, end);
    if Replied(job, row, col) {
      var w, k :| w in job.reply && 0 <= k < |job.reply[w]| && job.reply[w][k].row == row && job.reply[w][k].col == col;
      assert w in job.reply.Keys;
      assert WorkerIsStored(b, job, end.partial, w);
    } else {
      UnrepliedCellStays(b, job, s, steps, end, row, col);
    }
  }

  // ----- nothing gets stuck

  ghost predicate Quiet<C, T>(s: State<C, T>) {
    && (forall h: nat ::
         !Enabled(s, Verify(h)) && !Enabled(s, Write(h)) && !Enabled(s, Contribute(h)) && !Enabled(s, Signal(h)))
    && forall c: nat :: !Enabled(s, RunCheck(c)) && !Enabled(s, CountDown(c))
  }

  ghost predicate HasSubmitted<C, T>(s: State<C, T>, w: string) {
    exists h :: 0 <= h < |s.handlers| && s.handlers[h].worker == w
  }

  ghost predicate HasCheck<C, T>(s: State<C, T>, h: nat) {
    exists c :: 0 <= c < |s.checks| && s.checks[c].handler == h
  }

  /** With the checks compiled in, a handler past the start has one. */
  ghost predicate AllChecked<C, T>(b: Build<C, T>, s: State<C, T>) {
    b.freivalds ==> forall h | 0 <= h < |s.handlers| && s.handlers[h].phase != Received :: HasCheck(s, h)
  }

  lemma StepKeepsChecked<C, T>(b: Build<C, T>, s: State<C, T>, step: Step<C>)
    requires AllChecked(b, s) && Enabled(s, step)
    ensures AllChecked(b, Apply(b, s, step))
  {
    var t := Apply(b, s, step);
    forall h | b.freivalds && 0 <= h < |t.handlers| && t.handlers[h].phase != Received ensures HasCheck(t, h) {
      if step.Verify? && step.handler == h && h < |s.handlers| && s.handlers[h].phase == Received {
        assert t.checks[|s.checks|].handler == h;
      } else {
        assert HasCheck(s, h);
        var c :| 0 <= c < |s.checks| && s.checks[c].handler == h;
        assert t.checks[c].handler == h;
      }
    }
  }

  lemma {:induction false} RunsKeepChecked<C, T>(b: Build<C, T>, s: State<C, T>, steps: seq<Step<C>>, end: State<C, T>)
    requires AllChecked(b, s) && Reaches(b, s, steps, end)
    ensures AllChecked(b, end)
    decreases |steps|
  {
    if steps != [] {
      StepKeepsChecked(b, s, steps[0]);
      RunsKeepChecked(b, Apply(b, s, steps[0]), steps[1..], end);
    }
  }

  ghost predicate IsFinished<C, T>(s: State<C, T>) {
    && (forall h | 0 <= h < |s.handlers| :: s.handlers[h].phase == Finished)
    && forall c | 0 <= c < |s.checks| :: s.checks[c].phase == CountedDown
  }

  /** Handlers that cannot move have finished, and so have checks. */
  lemma QuietIsFinished<C, T>(b: Build<C, T>, start: State<C, T>, replies: seq<Reply<C>>, s: State<C, T>)
    requires Follows(b, start, replies, s) && Quiet(s)
    ensures IsFinished(s)
  {
    forall h | 0 <= h < |s.handlers| ensures s.handlers[h].phase == Finished {
      assert HandlerIs(replies[h], s.handlers[h]);
      assert !Enabled(s, Verify(h)) && !Enabled(s, Write(h)) && !Enabled(s, Contribute(h)) && !Enabled(s, Signal(h));
    }
    forall c | 0 <= c < |s.checks| ensures s.checks[c].phase == CountedDown {
      assert CheckBelongs(s, c);
      assert !Enabled(s, RunCheck(c)) && !Enabled(s, CountDown(c));
    }
  }

  /**
   In either build: when all listed workers have sent safe, honest replies and nothing is left to do,
   no fault has occurred and the round is done; and with the checks compiled in, every worker's promise
   is open and shows the verdict on its reply.
   */
  lemma QuietRoundIsDone<C, T>(b: Build<C, T>, job: Job<C>, s: State<C, T>, steps: seq<Step<C>>, end: State<C, T>)
    requires Fresh(s) && Shaped(job, s.partial) && Honest(b, job) && job.reply.Keys <= Listed(s) && s.workerList != []
    requires Reaches(b, s, steps, end) && HonestReplies(job, Submissions(steps)) && Safe(b, s, Submissions(steps))
    requires Quiet(end) && forall w | w in Listed(s) :: HasSubmitted(end, w)
    ensures end.fault.None? && end.done
    ensures b.freivalds ==> forall w | w in Listed(s) ::
      w in end.promises && w in job.reply && end.promises[w] == Verification(0, b.Verdict(w, job.reply[w]))
  {
    QuietRunIsFinished(b, s, steps, end);
    ContributorsAreListed(b, job, s, steps, end);
    FinishedHaveContributed(b, s, steps, end);
    FullAndFinishedIsDone(b, s, steps, end);
    if b.freivalds { VerdictsAreKnown(b, job, s, steps, end); }
  }

  lemma QuietRunIsFinished<C, T>(b: Build<C, T>, s: State<C, T>, steps: seq<Step<C>>, end: State<C, T>)
    requires Fresh(s) && Reaches(b, s, steps, end) && Safe(b, s, Submissions(steps)) && Quiet(end)
    ensures end.fault.None? && IsFinished(end)
  {
    FreshFollows(b, s, Submissions(steps));
    RunsFollow(b, s, Submissions(steps), s, steps, end);
    QuietIsFinished(b, s, Submissions(steps), end);
  }

  lemma ContributorsAreListed<C, T>(b: Build<C, T>, job: Job<C>, s: State<C, T>, steps: seq<Step<C>>, end: State<C, T>)
    requires Fresh(s) && Shaped(job, s.partial) && Honest(b, job) && job.reply.Keys <= Listed(s)
    requires Reaches(b, s, steps, end) && HonestReplies(job, Submissions(steps))
    ensures end.contributed <= Listed(s)
  {
    RunsKeepCells(b, job, s, steps, end);
    forall w | w in end.contributed ensures w in Listed(s) {
      assert WorkerIsStored(b, job, end.partial, w);
      assert w in job.reply.Keys;
    }
  }

  lemma FinishedHaveContributed<C, T>(b: Build<C, T>, s: State<C, T>, steps: seq<Step<C>>, end: State<C, T>)
    requires Fresh(s) && Reaches(b, s, steps, end) && IsFinished(end)
    requires forall w | w in Listed(s) :: HasSubmitted(end, w)
    ensures Listed(s) <= end.contributed
  {
    FreshInv(b, s);
    RunsKeepCount(b, s, steps, end);
    forall w | w in Listed(s) ensures w in end.contributed { assert HasSubmitted(end, w); }
  }

  lemma FullAndFinishedIsDone<C, T>(b: Build<C, T>, s: State<C, T>, steps: seq<Step<C>>, end: State<C, T>)
    requires Fresh(s) && Reaches(b, s, steps, end) && IsFinished(end) && s.workerList != []
    requires end.contributed == Listed(s)
    ensures end.done
  {
    FreshInv(b, s);
    RunsKeepCount(b, s, steps, end);
    assert !SignalPending(end);
  }

  lemma VerdictsAreKnown<C, T>(b: Build<C, T>, job: Job<C>, s: State<C, T>, steps: seq<Step<C>>, end: State<C, T>)
    requires Fresh(s) && Shaped(job, s.partial) && Honest(b, job) && b.freivalds && IsFinished(end)
    requires Reaches(b, s, steps, end) && HonestReplies(job, Submissions(steps)) && Safe(b, s, Submissions(steps))
    requires forall w | w in Listed(s) :: HasSubmitted(end, w)
    ensures forall w | w in Listed(s) ::
      w in end.promises && w in job.reply && end.promises[w] == Verification(0, b.Verdict(w, job.reply[w]))
  {
    forall w | w in Listed(s)
      ensures w in end.promises && w in job.reply && end.promises[w] == Verification(0, b.Verdict(w, job.reply[w]))
    {
      assert HasSubmitted(end, w);
      var h :| 0 <= h < |end.handlers| && end.handlers[h].worker == w;
      RunsKeepCells(b, job, s, steps, end);
      assert HandlerInv(b, job, end.partial, end.handlers[h]);
      VerdictOfHandler(b, s, steps, end, h);
    }
  }

  lemma VerdictOfHandler<C, T>(b: Build<C, T>, s: State<C, T>, steps: seq<Step<C>>, end: State<C, T>, h: nat)
    requires Fresh(s) && Reaches(b, s, steps, end) && Safe(b, s, Submissions(steps)) && b.freivalds && IsFinished(end)
    requires h < |end.handlers|
    ensures var handler := end.handlers[h];
      && handler.worker in end.promises
      && end.promises[handler.worker] == Verification(0, b.Verdict(handler.worker, handler.parts))
  {
    FreshFollows(b, s, Submissions(steps));
    RunsFollow(b, s, Submissions(steps), s, steps, end);
    RunsKeepChecked(b, s, steps, end);
    assert HasCheck(end, h);
    var c :| 0 <= c < |end.checks| && end.checks[c].handler == h;
    assert CheckBelongs(end, c) && PromiseHolds(b, end, c);
  }

  // ----- verification

  ghost predicate AllPass<C, T>(b: Build<C, T>, replies: seq<Reply<C>>) {
    forall i | 0 <= i < |replies| :: b.Verdict(replies[i].worker, replies[i].parts) == Some(true)
  }

  ghost predicate HasReplied<C>(replies: seq<Reply<C>>, w: string) {
    exists i :: 0 <= i < |replies| && replies[i].worker == w
  }

  /** The reply's worker has its promise kept, with the reply's verdict. */
  ghost predicate Shown<C, T>(b: Build<C, T>, promises: map<string, Verification>, reply: Reply<C>) {
    var verdict := b.Verdict(reply.worker, reply.parts);
    reply.worker in promises && promises[reply.worker] == Verification(0, verdict) && verdict.Some?
  }

  lemma ReplyIsShown<C, T>(b: Build<C, T>, s: State<C, T>, steps: seq<Step<C>>, end: State<C, T>, i: nat)
    requires Fresh(s) && b.freivalds && Reaches(b, s, steps, end) && Safe(b, s, Submissions(steps)) && IsFinished(end)
    requires i < |Submissions(steps)|
    ensures Shown(b, end.promises, Submissions(steps)[i])
  {
    var replies := Submissions(steps);
    FreshFollows(b, s, replies);
    RunsFollow(b, s, replies, s, steps, end);
    assert HandlerIs(replies[i], end.handlers[i]) && Checkable(b, s, replies[i]);
    VerdictOfHandler(b, s, steps, end, i);
  }

  lemma SubmitterHasReplied<C, T>(b: Build<C, T>, s: State<C, T>, steps: seq<Step<C>>, end: State<C, T>, w: string)
    requires Fresh(s) && Reaches(b, s, steps, end) && Safe(b, s, Submissions(steps)) && HasSubmitted(end, w)
    ensures end.promises.Keys == Listed(s) && HasReplied(Submissions(steps), w)
  {
    var replies := Submissions(steps);
    FreshFollows(b, s, replies);
    RunsFollow(b, s, replies, s, steps, end);
    var h :| 0 <= h < |end.handlers| && end.handlers[h].worker == w;
    assert HandlerIs(replies[h], end.handlers[h]);
  }

  lemma ShownDecide<C, T>(b: Build<C, T>, promises: map<string, Verification>, replies: seq<Reply<C>>)
    requires forall i | 0 <= i < |replies| :: Shown(b, promises, replies[i])
    requires forall w | w in promises :: HasReplied(replies, w)
    ensures AllKept(promises) && (AllAccepted(promises) <==> AllPass(b, replies))
  {
    forall w | w in promises
      ensures exists i :: 0 <= i < |replies| && replies[i].worker == w && Shown(b, promises, replies[i])
    {
      assert HasReplied(replies, w);
    }
    forall i | 0 <= i < |replies| && AllAccepted(promises)
      ensures b.Verdict(replies[i].worker, replies[i].parts) == Some(true)
    {
      assert Shown(b, promises, replies[i]);
    }
  }

  /**
   With the checks compiled in, replies right or wrong: when all listed workers have sent safe replies
   and nothing is left to do, all promises are kept, and all of them say true if and only if every
   reply passes its check.
   */
  lemma VerificationCondition<C, T>(b: Build<C, T>, s: State<C, T>, steps: seq<Step<C>>, end: State<C, T>)
    requires Fresh(s) && b.freivalds && Reaches(b, s, steps, end) && Safe(b, s, Submissions(steps))
    requires Quiet(end) && forall w | w in Listed(s) :: HasSubmitted(end, w)
    ensures AllKept(end.promises) && (AllAccepted(end.promises) <==> AllPass(b, Submissions(steps)))
  {
    QuietRunIsFinished(b, s, steps, end);
    forall i | 0 <= i < |Submissions(steps)| ensures Shown(b, end.promises, Submissions(steps)[i]) {
      ReplyIsShown(b, s, steps, end, i);
    }
    FreshFollows(b, s, Submissions(steps));
    RunsFollow(b, s, Submissions(steps), s, steps, end);
    forall w | w in end.promises ensures HasReplied(Submissions(steps), w) {
      SubmitterHasReplied(b, s, steps, end, w);
    }
    ShownDecide(b, end.promises, Submissions(steps));
  }

  ghost predicate NoneTwice<C>(replies: seq<Reply<C>>) {
    forall i, j | 0 <= i < j < |replies| :: replies[i].worker != replies[j].worker
  }

  /** Honest replies, at most one from each worker and with a verdict, are safe in both builds. */
  lemma HonestRepliesAreSafe<C, T>(b: Build<C, T>, job: Job<C>, s: State<C, T>, replies: seq<Reply<C>>)
    requires Shaped(job, s.partial) && Honest(b, job) && job.reply.Keys <= Listed(s)
    requires HonestReplies(job, replies) && NoneTwice(replies)
    requires forall w | w in job.reply :: b.Verdict(w, job.reply[w]).Some?
    ensures Safe(b, s, replies)
  {
    forall i | 0 <= i < |replies| ensures AllFit(b.embed, s.partial, replies[i].parts) && Checkable(b, s, replies[i]) {
      assert replies[i].worker in job.reply.Keys;
      forall k | 0 <= k < |replies[i].parts| ensures Fits(b.embed, s.partial, replies[i].parts[k]) {
        assert replies[i].parts[k] == job.reply[replies[i].worker][k];
        StoreKeepsCells(b, job, s.partial, replies[i].parts[k]);
      }
    }
  }

  /** When the verdict on every honest reply is true, that is what every promise shows in the end. */
  lemma QuietRoundIsVerified<C, T>(b: Build<C, T>, job: Job<C>, s: State<C, T>, steps: seq<Step<C>>, end: State<C, T>)
    requires Fresh(s) && Shaped(job, s.partial) && Honest(b, job) && job.reply.Keys <= Listed(s) && s.workerList != []
    requires Reaches(b, s, steps, end) && HonestReplies(job, Submissions(steps)) && NoneTwice(Submissions(steps))
    requires Quiet(end) && forall w | w in Listed(s) :: HasSubmitted(end, w)
    requires b.freivalds && forall w | w in job.reply :: b.Verdict(w, job.reply[w]) == Some(true)
    ensures end.fault.None? && end.done
    ensures forall w | w in Listed(s) :: w in end.promises && end.promises[w] == Verification(0, Some(true))
  {
    HonestRepliesAreSafe(b, job, s, Submissions(steps));
    QuietRoundIsDone(b, job, s, steps, end);
  }
}
