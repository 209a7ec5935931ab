/**
 Labels in a whole round: workers that send the right parts in the right order pass their checks whatever
 the labels, and the partial answers are right exactly when the labels are.
 */
module RoundLabels {
  import opened NegacyclicRing
  import opened Matrices
  import opened Retrieval
  import opened EndToEnd
  import opened LedgerLabels
  import Ledger
  import LedgerAnswers
  import Scheduler
  import WorkerRound

  ghost predicate AreDistinct(names: seq<string>) {
    forall i, j | 0 <= i < j < |names| :: names[i] != names[j]
  }

  /** The cell that part k of worker i's reply stands for. */
  function PlaceOf(p: Scheduler.Plan, i: nat, k: nat): Cell
    requires p.inGroup > 0 && p.queries > 0
  {
    Cell(Scheduler.FirstRow(p, i) + k / p.queries, Scheduler.FirstQuery(p, i) + k % p.queries)
  }

  ghost function IndexOf(names: seq<string>, name: string): (i: nat)
    requires name in names
    ensures i < |names| && names[i] == name
  {
    var i :| 0 <= i < |names| && names[i] == name;
    i
  }

  ghost function PlaceIn<C(!new), K(!new)>(r: Round<C, K>): (string, nat) -> Cell
    requires |r.names| > 0 && r.db.rows > 0 && r.Plan().queries > 0
  {
    (name: string, k: nat) => if name in r.names then PlaceOf(r.Plan(), IndexOf(r.names, name), k) else Cell(0, 0)
  }

  /** Every worker sends the right parts in the right order, under labels of some cells. */
  ghost predicate OrderedRound<C(!new), K(!new)>(S: Scheme<C>, r: Round<C, K>) {
    && IsRound(S, r) && AreDistinct(r.names) && r.Plan().queries > 0
    && (forall i: nat | i < |r.names| :: RepliesInOrder(S, r, i))
    && forall name, k | name in r.replies && 0 <= k < |r.replies[name]| ::
         r.replies[name][k].row < r.db.rows && r.replies[name][k].col < |r.queries|
  }

  lemma PlaceIsCell<C(!new), K(!new)>(S: Scheme<C>, r: Round<C, K>, i: nat, k: nat)
    requires Homomorphic(S) && OrderedRound(S, r) && i < |r.names|
    requires r.names[i] in r.replies && k < |r.replies[r.names[i]]|
    ensures var cell := PlaceOf(r.Plan(), i, k);
      && cell.row < r.db.rows && cell.col < |r.queries|
      && r.replies[r.names[i]][k].ctx == RowProduct(S, r, cell.row, cell.col)
    ensures k / r.Plan().queries < Scheduler.RowCount(r.Plan(), i)
  {
    var p := r.Plan();
    assert RepliesInOrder(S, r, i);
    WorkerIsGiven(r, i);
    WorkerRound.CtxAt(S.G, S.act, r.expand, r.db, r.queries, r.keys,
      Scheduler.FirstQuery(p, i), p.queries, Scheduler.FirstRow(p, i), Scheduler.RowCount(p, i),
      r.replies[r.names[i]], k);
  }

  lemma AllPartsInOrder<C(!new), K(!new)>(S: Scheme<C>, r: Round<C, K>, b: Ledger.Build<C, Poly>)
    requires Homomorphic(S) && OrderedRound(S, r) && b.embed == Embed(S)
    ensures AllInOrder(b, JobOf(S, r), PlaceIn(r))
  {
    var job := JobOf(S, r);
    forall w, k | w in job.reply && 0 <= k < |job.reply[w]| ensures IsInOrder(b, job, PlaceIn(r), w, k) {
      var i := IndexOf(r.names, w);
      PlaceIsCell(S, r, i, k);
      var cell := PlaceOf(r.Plan(), i, k);
      RowProductIsCt(S, r, cell.row, cell.col);
    }
  }

  lemma PlaceIsAssigned<C(!new), K(!new)>(S: Scheme<C>, r: Round<C, K>, i: nat, k: nat)
    requires Homomorphic(S) && OrderedRound(S, r) && i < |r.names|
    requires r.names[i] in r.replies && k < |r.replies[r.names[i]]|
    ensures Scheduler.Assigned(r.Plan(), i, PlaceOf(r.Plan(), i, k).row, PlaceOf(r.Plan(), i, k).col)
  {
    PlaceIsCell(S, r, i, k);
    PlaceInPlan(r.Plan(), i, k);
  }

  lemma PlaceInPlan(p: Scheduler.Plan, i: nat, k: nat)
    requires p.inGroup > 0 && p.queries > 0 && k / p.queries < Scheduler.RowCount(p, i)
    ensures Scheduler.Assigned(p, i, PlaceOf(p, i, k).row, PlaceOf(p, i, k).col)
  {
    RowInRange(Scheduler.FirstRow(p, i), Scheduler.RowCount(p, i), k / p.queries);
  }

  lemma RowInRange(first: nat, count: nat, j: nat)
    requires j < count
    ensures first + j in Scheduler.RowRange(first, count)
  {
    assert Scheduler.RowRange(first, count)[j] == first + j;
  }

  /** Two places of one cell are one: of one worker, since the split overlaps nowhere, and at one position. */
  lemma PlacesDiffer<C(!new), K(!new)>(S: Scheme<C>, r: Round<C, K>, i: nat, k: nat, j: nat, l: nat)
    requires Homomorphic(S) && OrderedRound(S, r) && i < |r.names| && j < |r.names|
    requires r.names[i] in r.replies && k < |r.replies[r.names[i]]|
    requires r.names[j] in r.replies && l < |r.replies[r.names[j]]|
    requires PlaceOf(r.Plan(), i, k) == PlaceOf(r.Plan(), j, l)
    ensures i == j && k == l
  {
    var p := r.Plan();
    PlaceIsAssigned(S, r, i, k);
    PlaceIsAssigned(S, r, j, l);
    var cell := PlaceOf(p, i, k);
    Scheduler.AssignedOnce(|r.names|, r.db.rows, |r.queries|, i, j, cell.row, cell.col);
    Scheduler.Division(k, p.queries);
    Scheduler.Division(l, p.queries);
  }

  lemma CellHasPlace<C(!new), K(!new)>(S: Scheme<C>, r: Round<C, K>, cell: Cell) returns (i: nat, k: nat)
    requires Homomorphic(S) && OrderedRound(S, r) && cell.row < r.db.rows && cell.col < |r.queries|
    ensures i < |r.names| && r.names[i] in r.replies && k < |r.replies[r.names[i]]| && PlaceOf(r.Plan(), i, k) == cell
  {
    var p := r.Plan();
    Scheduler.CellIsCovered(|r.names|, r.db.rows, |r.queries|, cell.row, cell.col);
    i :| i < |r.names| && Scheduler.Assigned(p, i, cell.row, cell.col);
    assert RepliesInOrder(S, r, i);
    WorkerIsGiven(r, i);
    var a, b := cell.row - Scheduler.FirstRow(p, i), cell.col - Scheduler.FirstQuery(p, i);
    k := Pos(p.queries, b, a);
    PosIsBijective(p.queries, Scheduler.RowCount(p, i), b, a);
  }

  lemma IndexIsUnique(names: seq<string>, i: nat)
    requires AreDistinct(names) && i < |names|
    ensures IndexOf(names, names[i]) == i
  {
  }

  lemma PlacesAreUnique<C(!new), K(!new)>(S: Scheme<C>, r: Round<C, K>)
    requires Homomorphic(S) && OrderedRound(S, r)
    ensures EachOnce(JobOf(S, r), PlaceIn(r))
  {
    var job, place := JobOf(S, r), PlaceIn(r);
    forall cell | IsCell(job, cell) ensures exists w, k: nat :: IsAt(job, place, w, k, cell) {
      var i, k := CellHasPlace(S, r, cell);
      IndexIsUnique(r.names, i);
      assert IsAt(job, place, r.names[i], k, cell);
    }
    forall w, k: nat, x, l: nat, cell | IsAt(job, place, w, k, cell) && IsAt(job, place, x, l, cell)
      ensures w == x && k == l
    {
      PlacesDiffer(S, r, IndexOf(r.names, w), k, IndexOf(r.names, x), l);
    }
  }

  /** Labelled as their places are, the replies are what workers that keep to the protocol send. */
  lemma LabelledIsAligned<C(!new), K(!new)>(S: Scheme<C>, r: Round<C, K>)
    requires Homomorphic(S) && OrderedRound(S, r)
    ensures AllLabelled(JobOf(S, r), PlaceIn(r)) <==> forall i: nat | i < |r.names| :: Replies(S, r, i)
  {
    var job, place := JobOf(S, r), PlaceIn(r);
    if AllLabelled(job, place) {
      forall i: nat | i < |r.names| ensures Replies(S, r, i) { LabelledWorker(S, r, i); }
    }
    if forall i: nat | i < |r.names| :: Replies(S, r, i) {
      forall w, k | w in job.reply && 0 <= k < |job.reply[w]| ensures Label(job.reply[w][k]) == place(w, k) {
        AlignedPart(S, r, IndexOf(r.names, w), k);
      }
    }
  }

  lemma LabelledWorker<C(!new), K(!new)>(S: Scheme<C>, r: Round<C, K>, i: nat)
    requires Homomorphic(S) && OrderedRound(S, r) && AllLabelled(JobOf(S, r), PlaceIn(r)) && i < |r.names|
    ensures Replies(S, r, i)
  {
    var p := r.Plan();
    assert RepliesInOrder(S, r, i);
    WorkerIsGiven(r, i);
    IndexIsUnique(r.names, i);
    var parts, first, count := r.replies[r.names[i]], Scheduler.FirstRow(p, i), Scheduler.RowCount(p, i);
    forall a, j | 0 <= a < count && 0 <= j < p.queries
      ensures WorkerRound.PartIs(S.G, S.act, r.expand, r.db, r.queries, r.keys,
        Scheduler.FirstQuery(p, i), p.queries, first, count, parts, a, j)
    {
      assert WorkerRound.CtxIs(S.G, S.act, r.expand, r.db, r.queries, r.keys,
        Scheduler.FirstQuery(p, i), p.queries, first, count, parts, a, j);
      PosIsBijective(p.queries, count, j, a);
      assert JobOf(S, r).reply[r.names[i]] == parts;
      assert Label(parts[Pos(p.queries, j, a)]) == PlaceOf(r.Plan(), i, Pos(p.queries, j, a));
    }
  }

  lemma AlignedPart<C(!new), K(!new)>(S: Scheme<C>, r: Round<C, K>, i: nat, k: nat)
    requires Homomorphic(S) && OrderedRound(S, r) && i < |r.names| && Replies(S, r, i)
    requires k < |r.replies[r.names[i]]|
    ensures Label(r.replies[r.names[i]][k]) == PlaceOf(r.Plan(), i, k)
  {
    WorkerIsGiven(r, i);
    var p := r.Plan();
    WorkerRound.PartAt(S.G, S.act, r.expand, r.db, r.queries, r.keys,
      Scheduler.FirstQuery(p, i), p.queries, Scheduler.FirstRow(p, i), Scheduler.RowCount(p, i),
      r.replies[r.names[i]], k);
  }

  /**
   When every worker sends the right parts in the right order, each check accepts (OrderedWorkerIsAccepted);
   and once the round is done, the partial answers are right if and only if part j + i*len of every reply
   is labelled with its row first + i and query start + j. Products of different cells must differ, and
   none may be there to begin with: else a wrong label could do no harm.
   */
  lemma RoundLabelCondition<C(!new), K(!new)>(
    S: Scheme<C>, r: Round<C, K>, b: Ledger.Build<C, Poly>, s: Ledger.State<C, Poly>, steps: seq<Ledger.Step<C>>,
    end: Ledger.State<C, Poly>)
    requires Homomorphic(S) && OrderedRound(S, r) && RoundRun(S, r, b, s, steps, end) && end.done
    requires CanBeTold(b, JobOf(S, r), s.partial)
    ensures LedgerAnswers.Shaped(JobOf(S, r), end.partial)
    ensures AllHold(b, JobOf(S, r), end.partial) <==> forall i: nat | i < |r.names| :: Replies(S, r, i)
  {
    AllPartsInOrder(S, r, b);
    PlacesAreUnique(S, r);
    LabelledIsAligned(S, r);
    RepliersAreListed(S, r, s);
    LabelCondition(b, JobOf(S, r), PlaceIn(r), s, steps, end);
  }
}
