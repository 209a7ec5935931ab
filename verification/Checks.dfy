/**
 The manager's check of replies, with the numbers it works with: which replies bring the manager down,
 in terms of those numbers, and what the checks of a round are worth.
 */
module Checks {
  import opened Arith
  import opened Counting
  import opened Matrices
  import opened WorkerStrategy
  import opened Ledger
  import opened LedgerFaults
  import opened LedgerAnswers
  import Freivalds
  import ReplyReader
  import Residues
  import RowCheck
  import Scheduler

  /** The evaluator, the scalars, what was prepared for each group, and the workers' responsibilities. */
  datatype Checker<!T, !C> = Checker(
    E: RowCheck.Evaluator<T, C>, vec: seq<nat>, prepared: seq<MatrixValue<C>>, work: map<string, Scheduler.WorkerInfo>)
  {
    /** Looking up a worker that has none makes an empty one. */
    function Info(worker: string): Scheduler.WorkerInfo {
      if worker in work then work[worker] else Scheduler.WorkerInfo(0, 0, 0, 0, [])
    }

    /** And so does looking up a group for which nothing was prepared. */
    function Expected(worker: string): MatrixValue<C> {
      var group := Info(worker).groupNumber;
      if group < |prepared| then prepared[group] else Mat(0, 0, [])
    }

    ghost function Check(worker: string, parts: seq<Part<C>>): Result<bool, RowCheck.CheckError> {
      RowCheck.Verdict(E, Ctxs(parts), Info(worker).dbRows, Expected(worker), vec)
    }

    /** The same, as the pool computes it. */
    method Run(worker: string, parts: seq<Part<C>>) returns (res: Result<bool, RowCheck.CheckError>)
      ensures res == Check(worker, parts)
    {
      res := RowCheck.VerifyWorker(E, Ctxs(parts), Info(worker).dbRows, Expected(worker), vec);
    }
  }

  ghost function BuildOf<C, T>(freivalds: bool, embed: C -> seq<T>, ch: Checker<T, C>): (b: Build<C, T>)
    ensures b.freivalds == freivalds && b.embed == embed
  {
    Build(freivalds, embed, (worker, parts) => ch.Check(worker, parts))
  }

  // ----- which replies bring the manager down

  ghost predicate Accepts<T, C>(ch: Checker<T, C>, reply: Reply<C>, i: nat)
    requires i < |ch.Info(reply.worker).dbRows|
  {
    RowCheck.RowAcceptedAt(
      ch.E, Ctxs(reply.parts), ch.Info(reply.worker).dbRows, ch.Expected(reply.worker), ch.vec, i)
  }

  /** Row i of the reply is all there, its group is one that was prepared for, and so is the row. */
  predicate IsThere<T, C>(ch: Checker<T, C>, reply: Reply<C>, i: nat)
    requires i < |ch.Info(reply.worker).dbRows|
  {
    var info := ch.Info(reply.worker);
    && i * |ch.vec| + |ch.vec| <= |reply.parts|
    && info.groupNumber < |ch.prepared| && info.dbRows[i] < |ch.prepared[info.groupNumber].data|
  }

  /** Every row the check gets to, having accepted all before it. */
  ghost predicate IsReadable<T, C>(ch: Checker<T, C>, reply: Reply<C>) {
    forall i | 0 <= i < |ch.Info(reply.worker).dbRows| && (forall a | 0 <= a < i :: Accepts(ch, reply, a)) ::
      IsThere(ch, reply, i)
  }

  lemma AcceptedIsThere<T, C>(ch: Checker<T, C>, reply: Reply<C>, i: nat)
    requires i < |ch.Info(reply.worker).dbRows| && Accepts(ch, reply, i)
    ensures IsThere(ch, reply, i)
  {
  }

  lemma ReadableHasVerdict<T, C>(ch: Checker<T, C>, reply: Reply<C>)
    ensures IsReadable(ch, reply) <==> ch.Check(reply.worker, reply.parts).Success?
  {
    if IsReadable(ch, reply) {
      ReadableEndsWell(ch, reply);
    } else {
      var i :| 0 <= i < |ch.Info(reply.worker).dbRows|
        && (forall a | 0 <= a < i :: Accepts(ch, reply, a)) && !IsThere(ch, reply, i);
      UnreadableEndsBadly(ch, reply, i);
    }
  }

  lemma ReadableEndsWell<T, C>(ch: Checker<T, C>, reply: Reply<C>)
    requires IsReadable(ch, reply)
    ensures ch.Check(reply.worker, reply.parts).Success?
  {
    var parts, rows, expected := Ctxs(reply.parts), ch.Info(reply.worker).dbRows, ch.Expected(reply.worker);
    forall i: nat
      ensures !RowCheck.BreaksOffAt(ch.E, parts, rows, expected, ch.vec, i)
      ensures !RowCheck.UnpreparedAt(ch.E, parts, rows, expected, ch.vec, i)
    {
      if i < |rows| && forall a | 0 <= a < i :: Accepts(ch, reply, a) { assert IsThere(ch, reply, i); }
    }
  }

  lemma UnreadableEndsBadly<T, C>(ch: Checker<T, C>, reply: Reply<C>, i: nat)
    requires i < |ch.Info(reply.worker).dbRows| && !IsThere(ch, reply, i)
    requires forall a | 0 <= a < i :: Accepts(ch, reply, a)
    ensures ch.Check(reply.worker, reply.parts).Failure?
  {
    if Accepts(ch, reply, i) { AcceptedIsThere(ch, reply, i); }
    forall a | 0 <= a < i
      ensures RowCheck.RowAcceptedAt(
        ch.E, Ctxs(reply.parts), ch.Info(reply.worker).dbRows, ch.Expected(reply.worker), ch.vec, a)
    {
      assert Accepts(ch, reply, a);
    }
    RowCheck.EndsAt(
      ch.E, Ctxs(reply.parts), ch.Info(reply.worker).dbRows, ch.Expected(reply.worker), ch.vec, i);
  }

  /**
   Replies the manager survives: every part has a place; and with the checks compiled in, every reply is
   from a listed worker, none replies twice, and every row that a check gets to is there.
   */
  ghost predicate SafeReplies<C, T>(
    freivalds: bool, embed: C -> seq<T>, ch: Checker<T, C>, s: State<C, T>, replies: seq<Reply<C>>)
  {
    && (forall i | 0 <= i < |replies| :: AllFit(embed, s.partial, replies[i].parts))
    && (freivalds ==>
         && (forall i | 0 <= i < |replies| :: replies[i].worker in Listed(s) && IsReadable(ch, replies[i]))
         && NoneTwice(replies))
  }

  lemma SafeRepliesAreSafe<C, T>(
    freivalds: bool, embed: C -> seq<T>, ch: Checker<T, C>, s: State<C, T>, replies: seq<Reply<C>>)
    ensures SafeReplies(freivalds, embed, ch, s, replies) <==> Safe(BuildOf(freivalds, embed, ch), s, replies)
  {
    var b := BuildOf(freivalds, embed, ch);
    forall i | 0 <= i < |replies|
      ensures Checkable(b, s, replies[i]) <==> replies[i].worker in Listed(s) && IsReadable(ch, replies[i])
    {
      ReadableHasVerdict(ch, replies[i]);
    }
  }

  /**
   Exactly which replies the manager survives once it has received them, whatever the interleaving: in no
   run that brings in these replies is an empty promise used, a latch counted below zero, anything read
   past an end or a part written to a place that is not there, if and only if the replies are safe.
   */
  lemma FaultCondition<C(!new), T(!new)>(
    freivalds: bool, embed: C -> seq<T>, ch: Checker<T, C>, s: State<C, T>, replies: seq<Reply<C>>)
    requires Fresh(s)
    ensures (forall steps, end |
               Reaches(BuildOf(freivalds, embed, ch), s, steps, end) && Submissions(steps) == replies ::
               end.fault.None?)
            <==> SafeReplies(freivalds, embed, ch, s, replies)
  {
    SafeRepliesAreSafe(freivalds, embed, ch, s, replies);
    SafetyCondition(BuildOf(freivalds, embed, ch), s, replies);
  }

  /** And with receiving them: as the reading loop stands, no reply may have more than one part. */
  lemma SurvivalCondition<C(!new), T(!new)>(
    freivalds: bool, embed: C -> seq<T>, ch: Checker<T, C>, s: State<C, T>, replies: seq<Reply<C>>)
    requires Fresh(s)
    ensures (forall i | 0 <= i < |replies| :: ReplyReader.NeverFreed(ReplyReader.Doubled, 0, |replies[i].parts|))
            && (forall steps, end |
                  Reaches(BuildOf(freivalds, embed, ch), s, steps, end) && Submissions(steps) == replies ::
                  end.fault.None?)
            <==> (forall i | 0 <= i < |replies| :: |replies[i].parts| <= 1)
                 && SafeReplies(freivalds, embed, ch, s, replies)
  {
    FaultCondition(freivalds, embed, ch, s, replies);
    forall i | 0 <= i < |replies|
      ensures ReplyReader.NeverFreed(ReplyReader.Doubled, 0, |replies[i].parts|) <==> |replies[i].parts| <= 1
    {
      ReplyReader.NothingReserved(|replies[i].parts|);
    }
  }

  // ----- with the scheduler's responsibilities

  /** The responsibilities of W workers, and products prepared for the groups and rows there are. */
  ghost predicate Scheduled<T, C>(ch: Checker<T, C>, names: seq<string>, R: nat, Q: nat)
    requires |names| > 0 && R > 0
  {
    var p := Scheduler.MakePlan(|names|, R, Q);
    && |ch.vec| == p.queries && |ch.prepared| == p.groups
    && (forall g | 0 <= g < p.groups :: |ch.prepared[g].data| == R)
    && forall i: nat | i < |names| :: names[i] in ch.work && ch.work[names[i]] == Scheduler.Responsibility(p, i)
  }

  /** A worker that the split leaves over faults with the first complete row it sends. */
  lemma UnpreparedRowFaults<T, C>(
    ch: Checker<T, C>, names: seq<string>, R: nat, Q: nat, i: nat, parts: seq<Part<C>>)
    requires |names| > 0 && R > 0 && Scheduled(ch, names, R, Q) && i < |names| && |parts| >= |ch.vec|
    requires var info := Scheduler.Responsibility(Scheduler.MakePlan(|names|, R, Q), i);
             info.dbRows != [] && (info.groupNumber >= |ch.prepared| || info.dbRows[0] >= R)
    ensures ch.Check(names[i], parts) == Failure(RowCheck.PastThePrepared)
  {
    assert RowCheck.UnpreparedAt(
      ch.E, Ctxs(parts), ch.Info(names[i]).dbRows, ch.Expected(names[i]), ch.vec, 0);
  }

  /**
   Nothing is read past what was prepared, for any worker and any reply, if and only if the groups divide
   the workers and are no larger than the database has rows, as they are when the workers map well.
   */
  lemma PreparedReadsCondition<T, C(!new)>(ch: Checker<T, C>, names: seq<string>, R: nat, Q: nat)
    requires |names| > 0 && R > 0 && Scheduled(ch, names, R, Q)
    ensures (forall i: nat, parts | i < |names| :: ch.Check(names[i], parts) != Failure(RowCheck.PastThePrepared))
            <==> |names| % Scheduler.MakePlan(|names|, R, Q).groups == 0
                 && Scheduler.MakePlan(|names|, R, Q).inGroup <= R
  {
    var p := Scheduler.MakePlan(|names|, R, Q);
    Scheduler.PreparedCondition(|names|, R, Q);
    if |names| % p.groups == 0 && p.inGroup <= R {
      forall i: nat, parts | i < |names| ensures ch.Check(names[i], parts) != Failure(RowCheck.PastThePrepared) {
        PreparedWorkerReads(ch, names, R, Q, i, parts);
      }
    } else {
      var i := UnpreparedWorker(ch, names, R, Q);
      var parts := seq(|ch.vec|, _ => Part(0, 0, ch.E.G.zero));
      UnpreparedRowFaults(ch, names, R, Q, i, parts);
    }
  }

  lemma PreparedWorkerReads<T, C>(
    ch: Checker<T, C>, names: seq<string>, R: nat, Q: nat, i: nat, parts: seq<Part<C>>)
    requires |names| > 0 && R > 0 && Scheduled(ch, names, R, Q) && i < |names|
    requires Scheduler.IsPrepared(|names|, R, Q, i)
    ensures ch.Check(names[i], parts) != Failure(RowCheck.PastThePrepared)
  {
  }

  lemma UnpreparedWorker<T, C>(ch: Checker<T, C>, names: seq<string>, R: nat, Q: nat) returns (i: nat)
    requires |names| > 0 && R > 0 && Scheduled(ch, names, R, Q)
    requires var p := Scheduler.MakePlan(|names|, R, Q); |names| % p.groups != 0 || p.inGroup > R
    ensures i < |names|
    ensures var info := Scheduler.Responsibility(Scheduler.MakePlan(|names|, R, Q), i);
            info.dbRows != [] && (info.groupNumber >= |ch.prepared| || info.dbRows[0] >= R)
  {
    var p := Scheduler.MakePlan(|names|, R, Q);
    if |names| % p.groups != 0 {
      Scheduler.SpareWorker(|names|, R, Q);
      i := p.groups * p.inGroup;
    } else {
      Scheduler.RowlessWorker(|names|, R, Q);
      i := R;
    }
    assert |Scheduler.Responsibility(p, i).dbRows| >= 1;
  }

  /** Seven workers, three rows, two queries: the seventh is alone in a third group, of two. */
  lemma SeventhWorker<T, C>(ch: Checker<T, C>, names: seq<string>, part: Part<C>)
    requires |names| == 7 && Scheduled(ch, names, 3, 2)
    ensures |ch.prepared| == 2
    ensures ch.Info(names[6]) == Scheduler.WorkerInfo(6, 2, 2, 3, [0])
    ensures ch.Check(names[6], [part]) == Failure(RowCheck.PastThePrepared)
  {
    Scheduler.SevenWorkers();
    assert ch.Info(names[6]) == Scheduler.Responsibility(Scheduler.MakePlan(7, 3, 2), 6);
    UnpreparedRowFaults(ch, names, 3, 2, 6, [part]);
  }

  /** A worker for which there is no responsibility passes, whatever it sends. */
  lemma NothingToCheck<T, C>(ch: Checker<T, C>, worker: string, parts: seq<Part<C>>)
    requires worker !in ch.work
    ensures ch.Check(worker, parts) == Success(true)
  {
    RowCheck.AcceptsAll(ch.E, Ctxs(parts), ch.Info(worker).dbRows, ch.Expected(worker), ch.vec);
  }

  /** A reply with a part for each of the worker's cells is readable when the workers map well. */
  lemma CompleteRepliesAreReadable<T, C>(
    ch: Checker<T, C>, names: seq<string>, R: nat, Q: nat, i: nat, parts: seq<Part<C>>)
    requires |names| > 0 && R > 0 && Scheduler.MapsWell(|names|, R, Q) && Scheduled(ch, names, R, Q) && i < |names|
    requires |parts| >= |ch.Info(names[i]).dbRows| * |ch.vec|
    ensures IsReadable(ch, Reply(names[i], parts))
  {
    var reply := Reply(names[i], parts);
    Scheduler.PreparedCondition(|names|, R, Q);
    assert Scheduler.IsPrepared(|names|, R, Q, i);
    forall a | 0 <= a < |ch.Info(names[i]).dbRows| ensures IsThere(ch, reply, a) {
      MultiplesApart(a, |ch.Info(names[i]).dbRows|, |ch.vec|);
    }
  }

  // ----- what the checks of a round are worth

  /** What is prepared for each group under a challenge. */
  function Prepared<T, C>(
    E: RowCheck.Evaluator<T, C>, db: MatrixValue<T>, queries: seq<seq<C>>, groups: nat, vec: seq<nat>)
    : (r: seq<MatrixValue<C>>)
    requires db.Valid() && groups * |vec| <= |queries| && forall q | 0 <= q < |queries| :: |queries[q]| == db.cols
    ensures |r| == groups && forall g | 0 <= g < groups :: RowCheck.LedgerHolds(E, db, queries, g, vec, r[g])
  {
    seq(groups, g requires 0 <= g < groups => PreparedGroup(E, db, queries, groups, vec, g))
  }

  function PreparedGroup<T, C>(
    E: RowCheck.Evaluator<T, C>, db: MatrixValue<T>, queries: seq<seq<C>>, groups: nat, vec: seq<nat>, g: nat)
    : (r: MatrixValue<C>)
    requires db.Valid() && groups * |vec| <= |queries| && forall q | 0 <= q < |queries| :: |queries[q]| == db.cols
    requires g < groups
    ensures RowCheck.LedgerHolds(E, db, queries, g, vec, r)
  {
    MultiplesApart(g, groups, |vec|);
    Mat(db.rows, 1, seq(db.rows, row requires 0 <= row < db.rows =>
      RowCheck.Expected(E, db.RowAt(row), queries, g * |vec|, vec)))
  }

  /** A round as the manager sets it up; only the challenge is left to chance. */
  datatype Setup<!T, !C> = Setup(
    E: RowCheck.Evaluator<T, C>, db: MatrixValue<T>, queries: seq<seq<C>>, groups: nat, size: nat,
    work: map<string, Scheduler.WorkerInfo>)
  {
    ghost predicate Valid() {
      db.Valid() && groups * size <= |queries| && forall q | 0 <= q < |queries| :: |queries[q]| == db.cols
    }

    ghost function CheckerOf(vec: seq<nat>): Checker<T, C>
      requires Valid() && |vec| == size
    {
      Checker(E, vec, Prepared(E, db, queries, groups, vec), work)
    }

    /** Row i of the worker's responsibility is one of the database's, and its group one of those there are. */
    predicate Covers(worker: string, i: nat) {
      && worker in work && i < |work[worker].dbRows| && work[worker].dbRows[i] < db.rows
      && work[worker].groupNumber < groups
    }

    function DbRow(worker: string, i: nat): (row: seq<T>)
      requires Valid() && Covers(worker, i)
      ensures |row| == db.cols
    {
      db.RowAt(work[worker].dbRows[i])
    }

    function Start(worker: string): (start: nat)
      requires Valid() && worker in work && work[worker].groupNumber < groups
      ensures start + size <= |queries|
    {
      MultiplesApart(work[worker].groupNumber, groups, size);
      work[worker].groupNumber * size
    }

    /** The product that belongs in entry j of row i of the worker's reply. */
    ghost function Product(worker: string, i: nat, j: nat): C
      requires Valid() && Covers(worker, i) && j < size
    {
      Dot(E.G, E.act, DbRow(worker, i), queries[Start(worker) + j])
    }
  }

  /**
   Under this challenge, some run that brings in the replies ends with all listed workers' replies handled
   and every promise true.
   */
  ghost predicate CanEndVerified<C(!new), T(!new)>(
    embed: C -> seq<T>, setup: Setup<T, C>, s: State<C, T>, replies: seq<Reply<C>>, vec: seq<nat>)
    requires setup.Valid() && |vec| == setup.size
  {
    exists steps, end ::
      && Reaches(BuildOf(true, embed, setup.CheckerOf(vec)), s, steps, end) && Submissions(steps) == replies
      && SafeReplies(true, embed, setup.CheckerOf(vec), s, replies)
      && Quiet(end) && (forall w | w in Listed(s) :: HasSubmitted(end, w)) && AllAccepted(end.promises)
  }

  /** All of these challenges can. */
  ghost predicate AllVerify<C(!new), T(!new)>(
    embed: C -> seq<T>, setup: Setup<T, C>, s: State<C, T>, replies: seq<Reply<C>>, S: set<nat>, X: set<seq<nat>>)
    requires setup.Valid()
  {
    forall v | v in X ::
      v in Challenges(S, setup.size) && |v| == setup.size && CanEndVerified(embed, setup, s, replies, v)
  }

  /** A round that ends so accepted every row of every reply. */
  lemma VerifiedRepliesPass<C(!new), T(!new)>(
    embed: C -> seq<T>, setup: Setup<T, C>, s: State<C, T>, replies: seq<Reply<C>>, vec: seq<nat>, r: nat)
    requires Fresh(s) && setup.Valid() && |vec| == setup.size && CanEndVerified(embed, setup, s, replies, vec)
    requires r < |replies|
    ensures setup.CheckerOf(vec).Check(replies[r].worker, replies[r].parts) == Success(true)
  {
    var ch := setup.CheckerOf(vec);
    var b := BuildOf(true, embed, ch);
    var steps, end :|
      && Reaches(b, s, steps, end) && Submissions(steps) == replies && SafeReplies(true, embed, ch, s, replies)
      && Quiet(end) && (forall w | w in Listed(s) :: HasSubmitted(end, w)) && AllAccepted(end.promises);
    SafeRepliesAreSafe(true, embed, ch, s, replies);
    VerificationCondition(b, s, steps, end);
    assert b.Verdict(replies[r].worker, replies[r].parts) == Some(true);
  }

  /** A checker that accepts the reply has all of row i and accepts it. */
  lemma PassedRow<C, T>(setup: Setup<T, C>, reply: Reply<C>, i: nat, vec: seq<nat>)
    requires setup.Valid() && setup.Covers(reply.worker, i) && |vec| == setup.size
    requires setup.CheckerOf(vec).Check(reply.worker, reply.parts) == Success(true)
    ensures i * setup.size + setup.size <= |reply.parts|
    ensures RowCheck.RowAccepted(setup.E, RowCheck.ReplyRow(Ctxs(reply.parts), setup.size, i),
      RowCheck.Expected(setup.E, setup.DbRow(reply.worker, i), setup.queries, setup.Start(reply.worker), vec), vec)
  {
    var ch, info := setup.CheckerOf(vec), setup.work[reply.worker];
    assert RowCheck.RowAcceptedAt(setup.E, Ctxs(reply.parts), info.dbRows, ch.Expected(reply.worker), vec, i);
    assert RowCheck.LedgerHolds(setup.E, setup.db, setup.queries, info.groupNumber, vec, ch.prepared[info.groupNumber]);
  }

  lemma VerifyingAccept<C(!new), T(!new)>(
    embed: C -> seq<T>, setup: Setup<T, C>, s: State<C, T>, replies: seq<Reply<C>>, S: set<nat>, X: set<seq<nat>>,
    r: nat, i: nat)
    requires Fresh(s) && setup.Valid() && r < |replies| && setup.Covers(replies[r].worker, i)
    requires AllVerify(embed, setup, s, replies, S, X) && i * setup.size + setup.size <= |replies[r].parts|
    ensures RowCheck.AllAccept(setup.E, S, setup.DbRow(replies[r].worker, i), setup.queries,
              setup.Start(replies[r].worker), RowCheck.ReplyRow(Ctxs(replies[r].parts), setup.size, i), X)
  {
    forall v | v in X
      ensures RowCheck.RowAccepted(setup.E, RowCheck.ReplyRow(Ctxs(replies[r].parts), setup.size, i),
        RowCheck.Expected(setup.E, setup.DbRow(replies[r].worker, i), setup.queries, setup.Start(replies[r].worker), v),
        v)
    {
      VerifiedRepliesPass(embed, setup, s, replies, v, r);
      PassedRow(setup, replies[r], i, v);
    }
  }

  lemma NoneVerify<C(!new), T(!new)>(
    embed: C -> seq<T>, setup: Setup<T, C>, s: State<C, T>, replies: seq<Reply<C>>, S: set<nat>, X: set<seq<nat>>,
    r: nat, i: nat)
    requires Fresh(s) && setup.Valid() && r < |replies| && setup.Covers(replies[r].worker, i)
    requires AllVerify(embed, setup, s, replies, S, X) && i * setup.size + setup.size > |replies[r].parts|
    requires setup.size > 0
    ensures AreRare(X, S, setup.size)
  {
    ChallengeCount(S, setup.size);
    forall v | v in X ensures false {
      VerifiedRepliesPass(embed, setup, s, replies, v, r);
      PassedRow(setup, replies[r], i, v);
    }
  }

  lemma EntryOfRow<C, T>(setup: Setup<T, C>, reply: Reply<C>, i: nat, j: nat, row: seq<C>)
    requires setup.Valid() && setup.Covers(reply.worker, i) && j < setup.size
    requires i * setup.size + setup.size <= |reply.parts|
    requires row == RowCheck.ReplyRow(Ctxs(reply.parts), setup.size, i)
    ensures |row| == setup.size && row[j] == reply.parts[i * setup.size + j].ctx
    ensures RowCheck.HonestRow(
              setup.E, setup.DbRow(reply.worker, i), setup.queries, setup.Start(reply.worker), |row|)[j]
            == setup.Product(reply.worker, i, j)
  {
  }

  /** Row i of the reply, as its check sees it. */
  lemma RowToCatch<C(!new), T(!new)>(
    embed: C -> seq<T>, setup: Setup<T, C>, s: State<C, T>, replies: seq<Reply<C>>, S: set<nat>, X: set<seq<nat>>,
    r: nat, i: nat, j: nat)
    returns (dbRow: seq<T>, start: nat, row: seq<C>)
    requires Fresh(s) && setup.Valid()
    requires r < |replies| && setup.Covers(replies[r].worker, i) && j < setup.size
    requires i * setup.size + setup.size <= |replies[r].parts| && AllVerify(embed, setup, s, replies, S, X)
    ensures |row| == setup.size && start + |row| <= |setup.queries|
    ensures forall q | 0 <= q < |setup.queries| :: |setup.queries[q]| == |dbRow|
    ensures i * setup.size + j < |replies[r].parts| && row[j] == replies[r].parts[i * setup.size + j].ctx
    ensures RowCheck.HonestRow(setup.E, dbRow, setup.queries, start, |row|)[j]
            == setup.Product(replies[r].worker, i, j)
    ensures RowCheck.AllAccept(setup.E, S, dbRow, setup.queries, start, row, X)
  {
    dbRow, start := setup.DbRow(replies[r].worker, i), setup.Start(replies[r].worker);
    row := RowCheck.ReplyRow(Ctxs(replies[r].parts), setup.size, i);
    EntryOfRow(setup, replies[r], i, j, row);
    VerifyingAccept(embed, setup, s, replies, S, X, r, i);
  }

  /**
   A dishonest round: if entry j of row i of some reply is wrong, at most |S|^(k-1) of the |S|^k
   challenges let any run end with every promise true.
   */
  lemma DishonestRoundIsCaught<C(!new), T(!new)>(
    embed: C -> seq<T>, setup: Setup<T, C>, s: State<C, T>, replies: seq<Reply<C>>, S: set<nat>, X: set<seq<nat>>,
    r: nat, i: nat, j: nat)
    requires Fresh(s) && setup.Valid() && RowCheck.Linear(setup.E)
    requires Freivalds.Separates(setup.E.G, setup.E.scale, setup.E.passes, S)
    requires r < |replies| && setup.Covers(replies[r].worker, i) && j < setup.size
    requires i * setup.size + j < |replies[r].parts| && AllVerify(embed, setup, s, replies, S, X)
    requires !setup.E.passes(setup.E.G.Sub(
      replies[r].parts[i * setup.size + j].ctx, setup.Product(replies[r].worker, i, j)))
    ensures AreRare(X, S, setup.size)
  {
    if i * setup.size + setup.size <= |replies[r].parts| {
      var dbRow, start, row := RowToCatch(embed, setup, s, replies, S, X, r, i, j);
      RowCheck.FewAccept(setup.E, S, dbRow, setup.queries, start, row, j, X, setup.size);
    } else {
      NoneVerify(embed, setup, s, replies, S, X, r, i);
    }
  }

  /** And so if it is wrong modulo a prime in some word that the zero test reads. */
  lemma DishonestWordIsCaught<C(!new), T(!new)>(
    embed: C -> seq<T>, setup: Setup<T, C>, s: State<C, T>, replies: seq<Reply<C>>, S: set<nat>, X: set<seq<nat>>,
    r: nat, i: nat, j: nat, word: C -> int, p: nat)
    requires Fresh(s) && setup.Valid() && RowCheck.Linear(setup.E)
    requires RowCheck.ReadsWord(setup.E, word) && Residues.Prime(p) && Residues.DistinctModulo(S, p)
    requires forall c :: setup.E.passes(c) ==> Residues.Divides(p, word(c))
    requires r < |replies| && setup.Covers(replies[r].worker, i) && j < setup.size
    requires i * setup.size + j < |replies[r].parts| && AllVerify(embed, setup, s, replies, S, X)
    requires !Residues.Divides(p,
      word(replies[r].parts[i * setup.size + j].ctx) - word(setup.Product(replies[r].worker, i, j)))
    ensures AreRare(X, S, setup.size)
  {
    if i * setup.size + setup.size <= |replies[r].parts| {
      var dbRow, start, row := RowToCatch(embed, setup, s, replies, S, X, r, i, j);
      RowCheck.FewAcceptWord(setup.E, word, p, S, dbRow, setup.queries, start, row, j, X, setup.size);
    } else {
      NoneVerify(embed, setup, s, replies, S, X, r, i);
    }
  }
}
