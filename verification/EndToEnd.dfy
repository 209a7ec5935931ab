/**
 A whole round: clients' queries, workers in map order, their replies through the manager's ledger in
 any interleaving, the final answers, and what each client reads out of its own.
 */
module EndToEnd {
  import opened Arith
  import opened NegacyclicRing
  import opened Matrices
  import opened Retrieval
  import Checks
  import Embedding
  import Ledger
  import LedgerAnswers
  import QueryExpander
  import RowCheck
  import Scheduler
  import WorkerRound
  import WorkerStrategy

  /**
   A round: the workers in map order, the database, each client's first query, which is one ciphertext,
   and its keys, how queries expand, and what each worker replies.
   */
  datatype Round<!C(!new), !K(!new)> = Round(
    names: seq<string>, db: MatrixValue<Poly>, queries: seq<C>, keys: map<nat, K>,
    expand: WorkerStrategy.Expander<C, K>, replies: map<string, seq<WorkerStrategy.Part<C>>>)
  {
    ghost predicate Sound() {
      && 0 < |names| && db.Valid() && 0 < db.rows && 0 < db.cols && WorkerStrategy.Sized(expand, db.cols)
      && Scheduler.MapsWell(|names|, db.rows, |queries|)
      && WorkerRound.QueriesExpand(expand, queries, keys, 0, |queries|)
    }

    function Plan(): (p: Scheduler.Plan)
      requires |names| > 0 && db.rows > 0
      ensures p.inGroup > 0
    {
      Scheduler.MakePlan(|names|, db.rows, |queries|)
    }

    function Expansion(client: nat): seq<C>
      requires client < |queries| && client in keys
    {
      WorkerStrategy.Expansion(expand, queries[client], keys[client])
    }
  }

  lemma WorkerIsGiven<C(!new), K(!new)>(r: Round<C, K>, i: nat)
    requires r.Sound() && i < |r.names|
    ensures WorkerRound.Given(r.expand, r.db, r.queries, r.keys,
      Scheduler.FirstQuery(r.Plan(), i), r.Plan().queries,
      Scheduler.FirstRow(r.Plan(), i), Scheduler.RowCount(r.Plan(), i))
  {
    Scheduler.ResponsibilityFits(|r.names|, r.db.rows, |r.queries|, i);
  }

  /** Worker i replies with what a worker that keeps to the protocol replies. */
  ghost predicate Replies<C(!new), K(!new)>(S: Scheme<C>, r: Round<C, K>, i: nat)
    requires r.Sound() && i < |r.names|
  {
    WorkerIsGiven(r, i);
    && r.names[i] in r.replies
    && WorkerRound.Aligned(S.G, S.act, r.expand, r.db, r.queries, r.keys,
         Scheduler.FirstQuery(r.Plan(), i), r.Plan().queries,
         Scheduler.FirstRow(r.Plan(), i), Scheduler.RowCount(r.Plan(), i), r.replies[r.names[i]])
  }

  /** A round over polynomials and ciphertexts, to which nobody else replies. */
  ghost predicate IsRound<C(!new), K(!new)>(S: Scheme<C>, r: Round<C, K>) {
    && r.Sound()
    && (forall name | name in r.replies :: name in r.names)
    && Polys(S, r.db.data)
    && forall client: nat | client < |r.queries| :: Cts(S, r.Expansion(client))
  }

  ghost predicate HonestRound<C(!new), K(!new)>(S: Scheme<C>, r: Round<C, K>) {
    IsRound(S, r) && forall i: nat | i < |r.names| :: Replies(S, r, i)
  }

  function Embed<C(!new)>(S: Scheme<C>): C -> seq<Poly> {
    (x: C) =>
      if Embedding.Usable(S.P) && Embedding.WellFormed(S.P, S.residues(x)) then Planes(S.P, S.residues(x)) else []
  }

  ghost function RowProduct<C(!new), K(!new)>(S: Scheme<C>, r: Round<C, K>, row: nat, client: nat): C
    requires r.Sound() && row < r.db.rows && client < |r.queries|
  {
    Dot(S.G, S.act, r.db.RowAt(row), r.Expansion(client))
  }

  ghost function Truth<C(!new), K(!new)>(S: Scheme<C>, r: Round<C, K>): (nat, nat) -> C
    requires r.Sound()
  {
    (row: nat, client: nat) =>
      if row < r.db.rows && client < |r.queries| then RowProduct(S, r, row, client) else S.G.zero
  }

  ghost function JobOf<C(!new), K(!new)>(S: Scheme<C>, r: Round<C, K>): LedgerAnswers.Job<C>
    requires r.Sound() && S.P.bits > 0
  {
    LedgerAnswers.Job(Truth(S, r), r.replies, |r.queries|, r.db.rows, Embedding.Ratio(S.P) * S.size)
  }

  lemma RowProductIsCt<C(!new), K(!new)>(S: Scheme<C>, r: Round<C, K>, row: nat, client: nat)
    requires Homomorphic(S) && IsRound(S, r) && row < r.db.rows && client < |r.queries|
    ensures IsCt(S, RowProduct(S, r, row, client))
    ensures Truth(S, r)(row, client) == RowProduct(S, r, row, client)
    ensures Embed(S)(RowProduct(S, r, row, client)) == Planes(S.P, S.residues(RowProduct(S, r, row, client)))
  {
    var left, right := r.db.RowAt(row), r.Expansion(client);
    RowsArePolys(S, r.db, row);
    DotIsCt(S, left, right, |left|);
    assert left[..|left|] == left && right[..|left|] == right;
  }

  /** A part of worker i's reply, taken apart. */
  lemma PartOfReply<C(!new), K(!new)>(S: Scheme<C>, r: Round<C, K>, i: nat, k: nat)
    requires HonestRound(S, r) && i < |r.names| && Replies(S, r, i) && k < |r.replies[r.names[i]]|
    ensures var part := r.replies[r.names[i]][k];
      part.row < r.db.rows && part.col < |r.queries| && part.ctx == RowProduct(S, r, part.row, part.col)
  {
    WorkerIsGiven(r, i);
    var p := r.Plan();
    WorkerRound.PartAt(S.G, S.act, r.expand, r.db, r.queries, r.keys,
      Scheduler.FirstQuery(p, i), p.queries, Scheduler.FirstRow(p, i), Scheduler.RowCount(p, i),
      r.replies[r.names[i]], k);
  }

  lemma JobIsHonest<C(!new), K(!new)>(S: Scheme<C>, r: Round<C, K>, b: Ledger.Build<C, Poly>)
    requires Homomorphic(S) && HonestRound(S, r) && b.embed == Embed(S)
    ensures LedgerAnswers.Honest(b, JobOf(S, r))
  {
    var job := JobOf(S, r);
    forall w, k | w in job.reply && 0 <= k < |job.reply[w]|
      ensures LedgerAnswers.PartIsRight(b, job, job.reply[w][k])
    {
      var i :| 0 <= i < |r.names| && r.names[i] == w;
      assert Replies(S, r, i);
      PartOfReply(S, r, i, k);
      RowProductIsCt(S, r, job.reply[w][k].row, job.reply[w][k].col);
    }
  }

  /** The scheduler's cover: every row of every client's answer is in some worker's reply. */
  lemma CellIsReplied<C(!new), K(!new)>(S: Scheme<C>, r: Round<C, K>, row: nat, client: nat)
    requires Homomorphic(S) && HonestRound(S, r) && row < r.db.rows && client < |r.queries|
    ensures LedgerAnswers.Replied(JobOf(S, r), row, client)
  {
    var p := r.Plan();
    Scheduler.CellIsCovered(|r.names|, r.db.rows, |r.queries|, row, client);
    var i: nat :| i < |r.names| && Scheduler.Assigned(p, i, row, client);
    assert Replies(S, r, i);
    WorkerIsGiven(r, i);
    var a, b := row - Scheduler.FirstRow(p, i), client - Scheduler.FirstQuery(p, i);
    PosIsBijective(p.queries, Scheduler.RowCount(p, i), b, a);
    assert WorkerRound.PartIs(S.G, S.act, r.expand, r.db, r.queries, r.keys,
      Scheduler.FirstQuery(p, i), p.queries, Scheduler.FirstRow(p, i), Scheduler.RowCount(p, i),
      r.replies[r.names[i]], a, b);
    var k := Pos(p.queries, b, a);
    assert JobOf(S, r).reply[r.names[i]][k].row == row && JobOf(S, r).reply[r.names[i]][k].col == client;
  }

  /** A run of the ledger, in either build, in which the workers of the round reply as they should. */
  ghost predicate RoundRun<C(!new), K(!new)>(
    S: Scheme<C>, r: Round<C, K>, b: Ledger.Build<C, Poly>, s: Ledger.State<C, Poly>, steps: seq<Ledger.Step<C>>,
    end: Ledger.State<C, Poly>)
    requires r.Sound() && S.P.bits > 0
  {
    && b.embed == Embed(S) && Ledger.Fresh(s) && s.workerList == r.names
    && LedgerAnswers.Shaped(JobOf(S, r), s.partial)
    && Ledger.Reaches(b, s, steps, end) && LedgerAnswers.HonestReplies(JobOf(S, r), Ledger.Submissions(steps))
  }

  lemma RepliersAreListed<C(!new), K(!new)>(S: Scheme<C>, r: Round<C, K>, s: Ledger.State<C, Poly>)
    requires IsRound(S, r) && S.P.bits > 0 && s.workerList == r.names
    ensures JobOf(S, r).reply.Keys <= Ledger.Listed(s)
  {
  }

  lemma DoneRow<C(!new), K(!new)>(
    S: Scheme<C>, r: Round<C, K>, b: Ledger.Build<C, Poly>, s: Ledger.State<C, Poly>, steps: seq<Ledger.Step<C>>,
    end: Ledger.State<C, Poly>, client: nat, row: nat)
    requires Homomorphic(S) && HonestRound(S, r) && RoundRun(S, r, b, s, steps, end) && end.done
    requires client < |r.queries| && row < r.db.rows
    ensures LedgerAnswers.Shaped(JobOf(S, r), end.partial)
    ensures IsCt(S, RowProduct(S, r, row, client))
    ensures end.partial[client].RowAt(row) == Planes(S.P, S.residues(RowProduct(S, r, row, client)))
  {
    JobIsHonest(S, r, b);
    CellIsReplied(S, r, row, client);
    RepliersAreListed(S, r, s);
    LedgerAnswers.DoneCellCondition(b, JobOf(S, r), s, steps, end, row, client);
    RowProductIsCt(S, r, row, client);
  }

  /** The partial answers when the ledger is done. */
  lemma DonePartialAnswer<C(!new), K(!new)>(
    S: Scheme<C>, r: Round<C, K>, b: Ledger.Build<C, Poly>, s: Ledger.State<C, Poly>, steps: seq<Ledger.Step<C>>,
    end: Ledger.State<C, Poly>, client: nat)
    requires Homomorphic(S) && HonestRound(S, r) && RoundRun(S, r, b, s, steps, end) && end.done
    requires client < |r.queries|
    ensures client in end.partial && PartialAnswer(S, r.db, r.Expansion(client), end.partial[client])
  {
    DoneRow(S, r, b, s, steps, end, client, 0);
    forall i | 0 <= i < r.db.rows
      ensures IsCt(S, Dot(S.G, S.act, r.db.RowAt(i), r.Expansion(client)))
      ensures end.partial[client].RowAt(i)
              == Planes(S.P, S.residues(Dot(S.G, S.act, r.db.RowAt(i), r.Expansion(client))))
    {
      DoneRow(S, r, b, s, steps, end, client, i);
    }
  }

  /**
   The retrieval theorem. Whatever order the honest workers' replies came in, however often, whoever
   else registered and in either build: once the ledger is done, the client that asked for a column with
   its first query and for a row with its second, of one ciphertext or several, decodes the final answer
   to the database's entry there.
   */
  lemma RoundRetrievesEntry<C(!new), K(!new)>(
    S: Scheme<C>, r: Round<C, K>, b: Ledger.Build<C, Poly>, s: Ledger.State<C, Poly>, steps: seq<Ledger.Step<C>>,
    end: Ledger.State<C, Poly>, E: QueryExpander.Evaluator<C>, client: nat, col: nat, inverse1: nat,
    query2: seq<C>, second: seq<C>, row: nat, inverse2: nat, answer: MatrixValue<C>, pts: seq<Poly>, back: Ct)
    requires Homomorphic(S) && HonestRound(S, r) && RoundRun(S, r, b, s, steps, end) && end.done
    requires client < |r.queries|
    requires Asks(S, E, [r.queries[client]], r.Expansion(client), r.db.cols, col, inverse1)
    requires Asks(S, E, query2, second, r.db.rows, row, inverse2)
    requires client in end.partial && end.partial[client].Valid() && end.partial[client].rows == r.db.rows
    requires |second| == r.db.rows
    requires IsProduct(S.G, Swapped(S), Mat(1, r.db.rows, second), end.partial[client], answer)
    requires Decoded(S, answer, pts, back)
    ensures S.dec(back) == r.db.At(row, col)
  {
    DonePartialAnswer(S, r, b, s, steps, end, client);
    AskedIsOneHot(S, E, [r.queries[client]], r.Expansion(client), r.db.cols, col, inverse1);
    AskedIsOneHot(S, E, query2, second, r.db.rows, row, inverse2);
    FinalAnswerIsEntry(S, r.db, r.Expansion(client), second, row, col, end.partial[client], answer, pts, back);
  }

  // ----- verification

  /** Worker i replies with the right parts in the right order, under any labels. */
  ghost predicate RepliesInOrder<C(!new), K(!new)>(S: Scheme<C>, r: Round<C, K>, i: nat)
    requires r.Sound() && i < |r.names|
  {
    WorkerIsGiven(r, i);
    && r.names[i] in r.replies
    && WorkerRound.InOrder(S.G, S.act, r.expand, r.db, r.queries, r.keys,
         Scheduler.FirstQuery(r.Plan(), i), r.Plan().queries,
         Scheduler.FirstRow(r.Plan(), i), Scheduler.RowCount(r.Plan(), i), r.replies[r.names[i]])
  }

  /** The checker the manager sets up for the round, from its own expansions of the queries. */
  ghost predicate IsCheckerOf<C(!new), K(!new)>(
    S: Scheme<C>, r: Round<C, K>, ch: Checks.Checker<Poly, C>, expanded: seq<seq<C>>)
    requires r.Sound()
  {
    && RowCheck.Linear(ch.E) && ch.E.G == S.G && ch.E.act == S.act && r.Plan().queries > 0
    && Checks.Scheduled(ch, r.names, r.db.rows, |r.queries|)
    && WorkerRound.ManagerExpands(r.expand, r.queries, r.keys, expanded, r.db.cols)
    && forall g | 0 <= g < |ch.prepared| :: RowCheck.LedgerHolds(ch.E, r.db, expanded, g, ch.vec, ch.prepared[g])
  }

  /** Its check, with the numbers the manager uses for it, accepts such a reply under every challenge. */
  lemma OrderedWorkerIsAccepted<C(!new), K(!new)>(
    S: Scheme<C>, r: Round<C, K>, ch: Checks.Checker<Poly, C>, expanded: seq<seq<C>>, i: nat)
    requires r.Sound() && i < |r.names| && RepliesInOrder(S, r, i) && IsCheckerOf(S, r, ch, expanded)
    ensures ch.Check(r.names[i], r.replies[r.names[i]]) == Success(true)
  {
    var p := r.Plan();
    WorkerIsGiven(r, i);
    Scheduler.GroupNumberFits(|r.names|, r.db.rows, |r.queries|, i);
    assert ch.Info(r.names[i]) == Scheduler.Responsibility(p, i);
    WorkerRound.OrderedReplyIsAccepted(ch.E, r.expand, r.db, r.queries, r.keys, expanded, i / p.inGroup, ch.vec,
      ch.prepared[i / p.inGroup], Scheduler.FirstRow(p, i), Scheduler.RowCount(p, i), r.replies[r.names[i]]);
  }

  lemma HonestIsInOrder<C(!new), K(!new)>(S: Scheme<C>, r: Round<C, K>, i: nat)
    requires r.Sound() && i < |r.names| && Replies(S, r, i)
    ensures RepliesInOrder(S, r, i)
  {
    WorkerIsGiven(r, i);
    WorkerRound.AlignedIsInOrder(S.G, S.act, r.expand, r.db, r.queries, r.keys,
      Scheduler.FirstQuery(r.Plan(), i), r.Plan().queries,
      Scheduler.FirstRow(r.Plan(), i), Scheduler.RowCount(r.Plan(), i), r.replies[r.names[i]]);
  }

  /** So every worker of an honest round passes. */
  lemma EveryHonestWorkerIsAccepted<C(!new), K(!new)>(
    S: Scheme<C>, r: Round<C, K>, ch: Checks.Checker<Poly, C>, expanded: seq<seq<C>>)
    requires HonestRound(S, r) && IsCheckerOf(S, r, ch, expanded)
    ensures forall name | name in r.replies :: ch.Check(name, r.replies[name]) == Success(true)
  {
    forall name | name in r.replies ensures ch.Check(name, r.replies[name]) == Success(true) {
      var i :| 0 <= i < |r.names| && r.names[i] == name;
      assert Replies(S, r, i);
      HonestIsInOrder(S, r, i);
      OrderedWorkerIsAccepted(S, r, ch, expanded, i);
    }
  }

  /**
   In the build with the checks: when every worker of an honest round has replied, once, and nothing is
   left to do, there was no fault, the round is done, and every promise is open and says true, which is
   what the manager waits for before it computes the final answers.
   */
  lemma HonestRoundIsVerified<C(!new), K(!new)>(
    S: Scheme<C>, r: Round<C, K>, ch: Checks.Checker<Poly, C>, expanded: seq<seq<C>>, s: Ledger.State<C, Poly>,
    steps: seq<Ledger.Step<C>>, end: Ledger.State<C, Poly>)
    requires Homomorphic(S) && HonestRound(S, r) && IsCheckerOf(S, r, ch, expanded)
    requires RoundRun(S, r, Checks.BuildOf(true, Embed(S), ch), s, steps, end)
    requires LedgerAnswers.NoneTwice(Ledger.Submissions(steps))
    requires LedgerAnswers.Quiet(end) && forall w | w in Ledger.Listed(s) :: LedgerAnswers.HasSubmitted(end, w)
    ensures end.fault.None? && end.done
    ensures forall w | w in Ledger.Listed(s) ::
      w in end.promises && end.promises[w] == Ledger.Verification(0, Some(true))
  {
    var b := Checks.BuildOf(true, Embed(S), ch);
    EveryHonestWorkerIsAccepted(S, r, ch, expanded);
    JobIsHonest(S, r, b);
    RepliersAreListed(S, r, s);
    LedgerAnswers.QuietRoundIsVerified(b, JobOf(S, r), s, steps, end);
  }
}
