/**
 Labels: a reply is checked by the order of its parts and stored by their labels, and nothing compares the
 two. What that means for the answers of a round whose replies are right in order.
 */
module LedgerLabels {
  import opened Arith
  import opened Matrices
  import opened WorkerStrategy
  import opened Ledger
  import opened LedgerAnswers

  /** A row and a client. */
  datatype Cell = Cell(row: nat, col: nat)

  function Label<C>(part: Part<C>): Cell {
    Cell(part.row, part.col)
  }

  ghost predicate IsCell<C>(job: Job<C>, cell: Cell) {
    cell.row < job.rows && cell.col < job.clients
  }

  ghost function Right<C, T>(b: Build<C, T>, job: Job<C>, cell: Cell): seq<T> {
    b.embed(job.truth(cell.row, cell.col))
  }

  /** Part k of a worker's reply has a label in range, and is what belongs to the cell that place k stands for. */
  ghost predicate IsInOrder<C, T>(b: Build<C, T>, job: Job<C>, place: (string, nat) -> Cell, w: string, k: nat)
    requires w in job.reply && k < |job.reply[w]|
  {
    var part, cell := job.reply[w][k], place(w, k);
    && IsCell(job, Label(part)) && IsCell(job, cell)
    && part.ctx == job.truth(cell.row, cell.col) && |b.embed(part.ctx)| == job.width
  }

  ghost predicate AllInOrder<C, T>(b: Build<C, T>, job: Job<C>, place: (string, nat) -> Cell) {
    forall w, k | w in job.reply && 0 <= k < |job.reply[w]| :: IsInOrder(b, job, place, w, k)
  }

  ghost predicate IsAt<C>(job: Job<C>, place: (string, nat) -> Cell, w: string, k: nat, cell: Cell) {
    w in job.reply && k < |job.reply[w]| && place(w, k) == cell
  }

  /** Every cell has one place in one reply. */
  ghost predicate EachOnce<C>(job: Job<C>, place: (string, nat) -> Cell) {
    && (forall cell | IsCell(job, cell) :: exists w, k: nat :: IsAt(job, place, w, k, cell))
    && forall w, k: nat, x, l: nat, cell | IsAt(job, place, w, k, cell) && IsAt(job, place, x, l, cell) ::
         w == x && k == l
  }

  /** What belongs to different cells is different, and is not there to begin with. */
  ghost predicate CanBeTold<C, T>(b: Build<C, T>, job: Job<C>, partial: map<nat, MatrixValue<T>>)
    requires Shaped(job, partial)
  {
    && (forall x, y | IsCell(job, x) && IsCell(job, y) && Right(b, job, x) == Right(b, job, y) :: x == y)
    && forall cell | IsCell(job, cell) :: !CellHolds(b, job, partial, cell.row, cell.col)
  }

  ghost predicate AllLabelled<C>(job: Job<C>, place: (string, nat) -> Cell) {
    forall w, k | w in job.reply && 0 <= k < |job.reply[w]| :: Label(job.reply[w][k]) == place(w, k)
  }

  ghost predicate AllHold<C, T>(b: Build<C, T>, job: Job<C>, partial: map<nat, MatrixValue<T>>)
    requires Shaped(job, partial)
  {
    forall cell | IsCell(job, cell) :: CellHolds(b, job, partial, cell.row, cell.col)
  }

  // ----- whatever is stored comes from a part with that label

  ghost predicate Brings<C, T>(b: Build<C, T>, job: Job<C>, cell: Cell, row: seq<T>, w: string, k: nat) {
    w in job.reply && k < |job.reply[w]| && Label(job.reply[w][k]) == cell && row == b.embed(job.reply[w][k].ctx)
  }

  ghost predicate HasSource<C, T>(
    b: Build<C, T>, job: Job<C>, start: map<nat, MatrixValue<T>>, partial: map<nat, MatrixValue<T>>, cell: Cell)
    requires Shaped(job, start) && Shaped(job, partial) && IsCell(job, cell)
  {
    var row := partial[cell.col].RowAt(cell.row);
    row == start[cell.col].RowAt(cell.row) || exists w, k: nat :: Brings(b, job, cell, row, w, k)
  }

  ghost predicate SourceInv<C, T>(
    b: Build<C, T>, job: Job<C>, start: map<nat, MatrixValue<T>>, s: State<C, T>)
    requires Shaped(job, start)
  {
    && Shaped(job, s.partial)
    && (forall h | 0 <= h < |s.handlers| ::
          s.handlers[h].worker in job.reply && s.handlers[h].parts == job.reply[s.handlers[h].worker])
    && forall cell | IsCell(job, cell) :: HasSource(b, job, start, s.partial, cell)
  }

  lemma StoredShape<C, T>(b: Build<C, T>, job: Job<C>, partial: map<nat, MatrixValue<T>>, part: Part<C>, cell: Cell)
    requires Shaped(job, partial) && IsCell(job, Label(part)) && |b.embed(part.ctx)| == job.width && IsCell(job, cell)
    ensures Fits(b.embed, partial, part) && Shaped(job, Stored(b.embed, partial, part))
    ensures Stored(b.embed, partial, part)[cell.col].RowAt(cell.row)
            == if cell == Label(part) then b.embed(part.ctx) else partial[cell.col].RowAt(cell.row)
  {
    RowFits(partial[part.col], part.row);
    if cell.col == part.col { WithRowIs(partial[part.col], part.row, b.embed(part.ctx), cell.row); }
  }

  lemma WriteKeepsSource<C, T>(
    b: Build<C, T>, job: Job<C>, place: (string, nat) -> Cell, start: map<nat, MatrixValue<T>>, s: State<C, T>, h: nat)
    requires Shaped(job, start) && AllInOrder(b, job, place) && SourceInv(b, job, start, s) && Enabled(s, Write(h))
    ensures SourceInv(b, job, start, Apply(b, s, Write(h)))
  {
    var w, k := s.handlers[h].worker, s.handlers[h].phase.next;
    var part := job.reply[w][k];
    assert IsInOrder(b, job, place, w, k);
    StoredShape(b, job, s.partial, part, Label(part));
    var after := Stored(b.embed, s.partial, part);
    forall cell | IsCell(job, cell) ensures HasSource(b, job, start, after, cell) {
      StoredShape(b, job, s.partial, part, cell);
      if cell == Label(part) {
        assert Brings(b, job, cell, after[cell.col].RowAt(cell.row), w, k);
      } else {
        assert HasSource(b, job, start, s.partial, cell);
      }
    }
    WriteIsInner(b, s, h);
  }

  lemma StepKeepsSource<C, T>(
    b: Build<C, T>, job: Job<C>, place: (string, nat) -> Cell, start: map<nat, MatrixValue<T>>, s: State<C, T>,
    step: Step<C>)
    requires Shaped(job, start) && AllInOrder(b, job, place) && SourceInv(b, job, start, s) && Enabled(s, step)
    requires step.Submit? ==> step.worker in job.reply && step.parts == job.reply[step.worker]
    ensures SourceInv(b, job, start, Apply(b, s, step))
  {
    if step.Write? {
      WriteKeepsSource(b, job, place, start, s, step.handler);
    } else {
      OtherSteps(b, s, step);
    }
  }

  lemma {:induction false} RunsKeepSource<C, T>(
    b: Build<C, T>, job: Job<C>, place: (string, nat) -> Cell, start: map<nat, MatrixValue<T>>, s: State<C, T>,
    steps: seq<Step<C>>, end: State<C, T>)
    requires Shaped(job, start) && AllInOrder(b, job, place) && SourceInv(b, job, start, s)
    requires Reaches(b, s, steps, end) && HonestReplies(job, Submissions(steps))
    ensures SourceInv(b, job, start, end)
    decreases |steps|
  {
    if steps != [] {
      HonestRest(job, steps);
      StepKeepsSource(b, job, place, start, s, steps[0]);
      RunsKeepSource(b, job, place, start, Apply(b, s, steps[0]), steps[1..], end);
    }
  }

  // ----- when the answers are right

  /** A cell that holds what belongs there has it from its own place, so that carries its label. */
  lemma HeldIsLabelled<C, T>(
    b: Build<C, T>, job: Job<C>, place: (string, nat) -> Cell, start: map<nat, MatrixValue<T>>, s: State<C, T>,
    w: string, k: nat)
    requires Shaped(job, start) && AllInOrder(b, job, place) && EachOnce(job, place) && CanBeTold(b, job, start)
    requires SourceInv(b, job, start, s) && w in job.reply && k < |job.reply[w]|
    requires var cell := place(w, k); IsCell(job, cell) && CellHolds(b, job, s.partial, cell.row, cell.col)
    ensures Label(job.reply[w][k]) == place(w, k)
  {
    var cell := place(w, k);
    var row := s.partial[cell.col].RowAt(cell.row);
    assert HasSource(b, job, start, s.partial, cell);
    assert !CellHolds(b, job, start, cell.row, cell.col);
    var x, l: nat :| Brings(b, job, cell, row, x, l);
    assert IsInOrder(b, job, place, x, l);
    assert Right(b, job, place(x, l)) == Right(b, job, cell);
    assert IsAt(job, place, x, l, cell) && IsAt(job, place, w, k, cell);
  }

  lemma LabelledIsHonest<C, T>(b: Build<C, T>, job: Job<C>, place: (string, nat) -> Cell)
    requires AllInOrder(b, job, place) && AllLabelled(job, place)
    ensures Honest(b, job)
  {
    forall w, k | w in job.reply && 0 <= k < |job.reply[w]| ensures PartIsRight(b, job, job.reply[w][k]) {
      assert IsInOrder(b, job, place, w, k);
    }
  }

  lemma LabelledIsRight<C, T>(
    b: Build<C, T>, job: Job<C>, place: (string, nat) -> Cell, s: State<C, T>, steps: seq<Step<C>>, end: State<C, T>)
    requires Fresh(s) && Shaped(job, s.partial) && job.reply.Keys <= Listed(s)
    requires AllInOrder(b, job, place) && EachOnce(job, place) && AllLabelled(job, place)
    requires Reaches(b, s, steps, end) && HonestReplies(job, Submissions(steps)) && end.done && Shaped(job, end.partial)
    ensures AllHold(b, job, end.partial)
  {
    LabelledIsHonest(b, job, place);
    forall cell | IsCell(job, cell) ensures CellHolds(b, job, end.partial, cell.row, cell.col) {
      var w, k: nat :| IsAt(job, place, w, k, cell);
      assert job.reply[w][k].row == cell.row && job.reply[w][k].col == cell.col;
      DoneCellCondition(b, job, s, steps, end, cell.row, cell.col);
    }
  }

  lemma RightIsLabelled<C, T>(
    b: Build<C, T>, job: Job<C>, place: (string, nat) -> Cell, start: map<nat, MatrixValue<T>>, s: State<C, T>)
    requires Shaped(job, start) && AllInOrder(b, job, place) && EachOnce(job, place) && CanBeTold(b, job, start)
    requires SourceInv(b, job, start, s) && AllHold(b, job, s.partial)
    ensures AllLabelled(job, place)
  {
    forall w, k | w in job.reply && 0 <= k < |job.reply[w]| ensures Label(job.reply[w][k]) == place(w, k) {
      assert IsInOrder(b, job, place, w, k);
      HeldIsLabelled(b, job, place, start, s, w, k);
    }
  }

  /**
   In every run whose replies are right in order: once it is done, all cells hold what belongs there if and
   only if every part carries the label of its place.
   */
  lemma LabelCondition<C, T>(
    b: Build<C, T>, job: Job<C>, place: (string, nat) -> Cell, s: State<C, T>, steps: seq<Step<C>>, end: State<C, T>)
    requires Fresh(s) && Shaped(job, s.partial) && job.reply.Keys <= Listed(s)
    requires AllInOrder(b, job, place) && EachOnce(job, place) && CanBeTold(b, job, s.partial)
    requires Reaches(b, s, steps, end) && HonestReplies(job, Submissions(steps)) && end.done
    ensures Shaped(job, end.partial) && (AllHold(b, job, end.partial) <==> AllLabelled(job, place))
  {
    SourcesAtStart(b, job, s);
    RunsKeepSource(b, job, place, s.partial, s, steps, end);
    if AllHold(b, job, end.partial) { RightIsLabelled(b, job, place, s.partial, end); }
    if AllLabelled(job, place) { LabelledIsRight(b, job, place, s, steps, end); }
  }

  lemma SourcesAtStart<C, T>(b: Build<C, T>, job: Job<C>, s: State<C, T>)
    requires Fresh(s) && Shaped(job, s.partial)
    ensures SourceInv(b, job, s.partial, s)
  {
  }

  // ----- the smallest mislabelled reply

  /** What a run of one worker's reply of two parts, swapped, comes to. */
  ghost predicate IsSwapped<C, T>(b: Build<C, T>, x: C, y: C, end: State<C, T>) {
    && end.done && end.fault.None?
    && 0 in end.partial && 1 in end.partial && end.partial[0] == Mat(1, 1, b.embed(y))
    && end.partial[1] == Mat(1, 1, b.embed(x))
  }

  /**
   One worker, one row and two clients, whose answers are x and y: it sends x and y in that order, each
   under the other's label. If its check accepts them, as it does whatever their labels, the round is done
   and verified, and each client has the other's answer.
   */
  lemma SwappedLabels<C(!new), T(!new)>(b: Build<C, T>, x: C, y: C, blank: T)
    returns (s: State<C, T>, reply: seq<Part<C>>, end: State<C, T>)
    requires |b.embed(x)| == 1 && |b.embed(y)| == 1 && b.freivalds
    requires b.check("a", [Part(0, 1, x), Part(0, 0, y)]) == Success(true)
    ensures Fresh(s) && s.workerList == ["a"] && Ctxs(reply) == [x, y]
    ensures Leads(b, s, [Reply("a", reply)], {}, end) && IsSwapped(b, x, y, end)
    ensures "a" in end.promises && end.promises["a"] == Verification(0, Some(true))
  {
    reply := [Part(0, 1, x), Part(0, 0, y)];
    s := OneWorker(b, blank);
    var s2 := Arrives(b, s, reply);
    var s3 := SwappedWrites(b, s, s2, x, y, blank);
    end := CheckedAlone(b, s, s3, reply);
  }

  lemma OneWorker<C, T>(b: Build<C, T>, blank: T) returns (s: State<C, T>)
    ensures Fresh(s) && s.workerList == ["a"] && s.registered == {"a"}
    ensures s.partial == map[0 := Mat(1, 1, [blank]), 1 := Mat(1, 1, [blank])]
  {
    var names: set<string> := {"a"};
    s := State(names, ["a"], map w | w in names :: Verification(1, None),
      map[0 := Mat(1, 1, [blank]), 1 := Mat(1, 1, [blank])], {}, false, [], [], None);
    assert Listed(s) == {"a"};
  }

  lemma Arrives<C(!new), T(!new)>(b: Build<C, T>, s: State<C, T>, reply: seq<Part<C>>) returns (t: State<C, T>)
    requires Fresh(s) && s.workerList == ["a"] && s.registered == {"a"} && b.freivalds
    ensures Leads(b, s, [Reply("a", reply)], {}, t)
    ensures t == s.(handlers := [Handler("a", reply, Writing(0))], checks := [Check(0, Queued)])
    ensures "a" in t.promises && t.promises["a"] == Verification(1, None)
  {
    var s1 := Apply(b, s, Submit("a", reply));
    LeadsStep(b, s, Submit("a", reply), {});
    LeadsFurther(b, s, [Reply("a", reply)], s1, Verify(0), {});
    t := Apply(b, s1, Verify(0));
  }

  lemma SwappedWrites<C(!new), T(!new)>(b: Build<C, T>, start: State<C, T>, s: State<C, T>, x: C, y: C, blank: T)
    returns (end: State<C, T>)
    requires |b.embed(x)| == 1 && |b.embed(y)| == 1 && s.fault.None?
    requires s.partial == map[0 := Mat(1, 1, [blank]), 1 := Mat(1, 1, [blank])]
    requires var reply := [Part(0, 1, x), Part(0, 0, y)];
      s.handlers == [Handler("a", reply, Writing(0))] && Leads(b, start, [Reply("a", reply)], {}, s)
    ensures var reply := [Part(0, 1, x), Part(0, 0, y)];
      && Leads(b, start, [Reply("a", reply)], {}, end)
      && end == s.(handlers := [Handler("a", reply, Writing(2))], partial := end.partial)
      && end.partial == map[0 := Mat(1, 1, b.embed(y)), 1 := Mat(1, 1, b.embed(x))]
  {
    var reply := [Part(0, 1, x), Part(0, 0, y)];
    OneCell(blank, b.embed(x));
    OneCell(blank, b.embed(y));
    LeadsFurther(b, start, [Reply("a", reply)], s, Write(0), {});
    var s1 := Apply(b, s, Write(0));
    assert s1.handlers == [Handler("a", reply, Writing(1))];
    assert s1.partial == map[0 := Mat(1, 1, [blank]), 1 := Mat(1, 1, b.embed(x))];
    LeadsFurther(b, start, [Reply("a", reply)], s1, Write(0), {});
    end := Apply(b, s1, Write(0));
    assert end.handlers == [Handler("a", reply, Writing(2))];
  }

  lemma OneCell<T>(blank: T, entries: seq<T>)
    requires |entries| == 1
    ensures var m := Mat(1, 1, [blank]); InBounds(m, 0, 1) && WithRow(m, 0, entries) == Mat(1, 1, entries)
  {
    var m := Mat(1, 1, [blank]);
    WithRowIs(m, 0, entries, 0);
    var data := WithRow(m, 0, entries).data;
    OneByOne(data);
    assert WithRow(m, 0, entries) == Mat(1, 1, data);
  }

  lemma OneByOne<T>(data: seq<T>)
    requires |data| == 1
    ensures Mat(1, 1, data).Valid() && Mat(1, 1, data).RowAt(0) == data
  {
  }

  lemma CheckedAlone<C(!new), T(!new)>(b: Build<C, T>, start: State<C, T>, s: State<C, T>, reply: seq<Part<C>>)
    returns (end: State<C, T>)
    requires s.fault.None? && s.workerList == ["a"] && s.contributed == {} && !s.done
    requires s.handlers == [Handler("a", reply, Writing(|reply|))] && s.checks == [Check(0, Queued)]
    requires "a" in s.promises && s.promises["a"] == Verification(1, None) && b.check("a", reply) == Success(true)
    requires Leads(b, start, [Reply("a", reply)], {}, s)
    ensures Leads(b, start, [Reply("a", reply)], {}, end) && end.done && end.fault.None? && end.partial == s.partial
    ensures "a" in end.promises && end.promises["a"] == Verification(0, Some(true))
  {
    LeadsFurther(b, start, [Reply("a", reply)], s, Contribute(0), {});
    var s1 := Apply(b, s, Contribute(0));
    assert s1.contributed == {"a"};
    LeadsFurther(b, start, [Reply("a", reply)], s1, Signal(0), {});
    var s2 := Apply(b, s1, Signal(0));
    LeadsFurther(b, start, [Reply("a", reply)], s2, RunCheck(0), {});
    var s3 := Apply(b, s2, RunCheck(0));
    LeadsFurther(b, start, [Reply("a", reply)], s3, CountDown(0), {});
    end := Apply(b, s3, CountDown(0));
  }
}
