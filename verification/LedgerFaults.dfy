/**
 What ends the manager's process, or is undefined, in a round, and exactly which replies bring it on,
 in the build with Freivalds' checks and in the build without.
 */
module LedgerFaults {
  import opened Arith
  import opened Matrices
  import opened WorkerStrategy
  import opened Ledger
  import ThreadPool

  // ----- what can go wrong with a reply

  ghost predicate AllFit<C, T>(embed: C -> seq<T>, partial: map<nat, MatrixValue<T>>, parts: seq<Part<C>>) {
    forall k | 0 <= k < |parts| :: Fits(embed, partial, parts[k])
  }

  /**
   Replies the manager survives: every part has a place; and with the checks compiled in, every reply
   is from a listed worker, no worker replies twice, and every check comes to a verdict.
   */
  ghost predicate Safe<C, T>(b: Build<C, T>, s: State<C, T>, replies: seq<Reply<C>>) {
    && (forall i | 0 <= i < |replies| :: AllFit(b.embed, s.partial, replies[i].parts))
    && (b.freivalds ==> forall i | 0 <= i < |replies| :: Checkable(b, s, replies[i]))
    && (b.freivalds ==> forall i, j | 0 <= i < j < |replies| :: replies[i].worker != replies[j].worker)
  }

  ghost predicate Checkable<C, T>(b: Build<C, T>, s: State<C, T>, reply: Reply<C>) {
    reply.worker in Listed(s) && b.Verdict(reply.worker, reply.parts).Some?
  }

  lemma FitsByShape<C, T>(embed: C -> seq<T>, p: map<nat, MatrixValue<T>>, q: map<nat, MatrixValue<T>>, part: Part<C>)
    requires SameShape(p, q) && Fits(embed, p, part)
    ensures Fits(embed, q, part)
  {
    assert part.col in p.Keys;
  }

  /** A handler works on one of the replies. */
  ghost predicate HandlerIs<C>(reply: Reply<C>, h: Handler<C>) {
    && h.worker == reply.worker && h.parts == reply.parts
    && (h.phase.Writing? ==> h.phase.next <= |h.parts|)
  }

  function CheckedWorker<C, T>(s: State<C, T>, c: nat): string
    requires c < |s.checks| && s.checks[c].handler < |s.handlers|
  {
    s.handlers[s.checks[c].handler].worker
  }

  /** A check belongs to a verified handler, one each. */
  ghost predicate ChecksBelong<C, T>(s: State<C, T>) {
    && (forall c | 0 <= c < |s.checks| :: CheckBelongs(s, c))
    && (forall c, d | 0 <= c < d < |s.checks| :: s.checks[c].handler != s.checks[d].handler)
  }

  ghost predicate CheckBelongs<C, T>(s: State<C, T>, c: nat)
    requires c < |s.checks|
  {
    && s.checks[c].handler < |s.handlers| && s.handlers[s.checks[c].handler].phase != Received
    && CheckedWorker(s, c) in s.promises
  }

  /** A promise shows the verdict once the check has run, and its latch is open once it was counted down. */
  ghost predicate PromiseHolds<C, T>(b: Build<C, T>, s: State<C, T>, c: nat)
    requires c < |s.checks| && CheckBelongs(s, c)
  {
    var handler, phase := s.handlers[s.checks[c].handler], s.checks[c].phase;
    var promise := s.promises[handler.worker];
    && promise.latch == (if phase == CountedDown then 0 else 1)
    && (phase != Queued ==> promise.value == b.Verdict(handler.worker, handler.parts))
  }

  ghost predicate PromisesHold<C, T>(b: Build<C, T>, s: State<C, T>)
    requires ChecksBelong(s)
  {
    && (forall c | 0 <= c < |s.checks| :: PromiseHolds(b, s, c))
    && (forall w | w in s.promises && Unchecked(s, w) :: s.promises[w] == Verification(1, None))
  }

  ghost predicate Unchecked<C, T>(s: State<C, T>, w: string)
    requires ChecksBelong(s)
  {
    forall c | 0 <= c < |s.checks| :: CheckBelongs(s, c) ==> CheckedWorker(s, c) != w
  }

  /** A run that has had no fault and is working on the first of the replies. */
  ghost predicate Follows<C, T>(b: Build<C, T>, start: State<C, T>, replies: seq<Reply<C>>, s: State<C, T>) {
    && s.fault.None? && |s.handlers| <= |replies|
    && (forall h | 0 <= h < |s.handlers| :: HandlerIs(replies[h], s.handlers[h]))
    && SameShape(start.partial, s.partial) && s.promises.Keys == Listed(start)
    && ChecksBelong(s) && PromisesHold(b, s) && (!b.freivalds ==> s.checks == [])
  }

  lemma ChecksUnmoved<C, T>(b: Build<C, T>, s: State<C, T>, t: State<C, T>)
    requires ChecksBelong(s) && PromisesHold(b, s)
    requires t.checks == s.checks && t.promises == s.promises && |t.handlers| >= |s.handlers|
    requires forall h | 0 <= h < |s.handlers| ::
      && t.handlers[h].worker == s.handlers[h].worker && t.handlers[h].parts == s.handlers[h].parts
      && (s.handlers[h].phase != Received ==> t.handlers[h].phase != Received)
    ensures ChecksBelong(t) && PromisesHold(b, t)
  {
    forall c | 0 <= c < |t.checks| ensures CheckBelongs(t, c) { assert CheckBelongs(s, c); }
    forall c | 0 <= c < |t.checks| ensures PromiseHolds(b, t, c) { assert CheckBelongs(s, c) && PromiseHolds(b, s, c); }
    forall w | w in t.promises && Unchecked(t, w) ensures t.promises[w] == Verification(1, None) {
      forall c | 0 <= c < |s.checks| ensures CheckBelongs(s, c) && CheckedWorker(s, c) != w {
        assert CheckBelongs(t, c);
      }
      assert Unchecked(s, w);
    }
  }

  lemma FollowsWrite<C, T>(b: Build<C, T>, start: State<C, T>, replies: seq<Reply<C>>, s: State<C, T>, h: nat)
    requires Follows(b, start, replies, s) && Safe(b, start, replies) && Enabled(s, Write(h))
    ensures Follows(b, start, replies, PartWritten(b, s, h))
  {
    var k := s.handlers[h].phase.next;
    assert HandlerIs(replies[h], s.handlers[h]);
    assert AllFit(b.embed, start.partial, replies[h].parts);
    FitsByShape(b.embed, start.partial, s.partial, replies[h].parts[k]);
    var t := PartWritten(b, s, h);
    ChecksUnmoved(b, s, t);
    ShapesJoin(start.partial, s.partial, t.partial);
  }

  lemma ShapesJoin<T>(p: map<nat, MatrixValue<T>>, q: map<nat, MatrixValue<T>>, r: map<nat, MatrixValue<T>>)
    requires SameShape(p, q) && SameShape(q, r)
    ensures SameShape(p, r)
  {
    assert forall c | c in p :: c in q.Keys;
  }

  lemma FollowsVerify<C, T>(b: Build<C, T>, start: State<C, T>, replies: seq<Reply<C>>, s: State<C, T>, h: nat)
    requires Follows(b, start, replies, s) && Safe(b, start, replies) && Enabled(s, Verify(h))
    ensures Follows(b, start, replies, Verified(b, s, h))
  {
    assert HandlerIs(replies[h], s.handlers[h]);
    var moved := At(s, h, Writing(0));
    ChecksUnmoved(b, s, moved);
    if b.freivalds {
      assert Checkable(b, start, replies[h]);
      NewCheck(b, start, replies, s, h);
    }
  }

  lemma NewCheck<C, T>(b: Build<C, T>, start: State<C, T>, replies: seq<Reply<C>>, s: State<C, T>, h: nat)
    requires Follows(b, start, replies, s) && Safe(b, start, replies) && Enabled(s, Verify(h)) && b.freivalds
    requires s.handlers[h].worker in s.promises
    ensures var t := At(s, h, Writing(0)).(checks := s.checks + [Check(h, Queued)]);
      ChecksBelong(t) && PromisesHold(b, t)
  {
    ChecksUnmoved(b, s, At(s, h, Writing(0)));
    forall c | 0 <= c < |s.checks|
      ensures CheckBelongs(s, c) && CheckedWorker(s, c) != s.handlers[h].worker && s.checks[c].handler != h
    {
      assert CheckBelongs(s, c);
      OtherReply(b, start, replies, s, s.checks[c].handler, h);
    }
    assert Unchecked(s, s.handlers[h].worker);
    CheckAdded(b, s, At(s, h, Writing(0)), h);
  }

  lemma CheckAdded<C, T>(b: Build<C, T>, s: State<C, T>, moved: State<C, T>, h: nat)
    requires ChecksBelong(s) && PromisesHold(b, s) && ChecksBelong(moved) && PromisesHold(b, moved)
    requires h < |s.handlers| && s.handlers[h].worker in s.promises && Unchecked(s, s.handlers[h].worker)
    requires moved == At(s, h, Writing(0)) && forall c | 0 <= c < |s.checks| :: s.checks[c].handler != h
    ensures var t := moved.(checks := s.checks + [Check(h, Queued)]); ChecksBelong(t) && PromisesHold(b, t)
  {
    var t := moved.(checks := s.checks + [Check(h, Queued)]);
    forall c | 0 <= c < |t.checks| ensures CheckBelongs(t, c) && PromiseHolds(b, t, c) {
      if c < |s.checks| { assert CheckBelongs(moved, c) && PromiseHolds(b, moved, c); }
    }
    forall w | w in t.promises && Unchecked(t, w) ensures t.promises[w] == Verification(1, None) {
      forall c | 0 <= c < |moved.checks| ensures CheckBelongs(moved, c) && CheckedWorker(moved, c) != w {
        assert CheckBelongs(t, c);
      }
      assert Unchecked(moved, w);
    }
  }

  lemma OtherReply<C, T>(b: Build<C, T>, start: State<C, T>, replies: seq<Reply<C>>, s: State<C, T>, g: nat, h: nat)
    requires Follows(b, start, replies, s) && Safe(b, start, replies) && b.freivalds
    requires g < |s.handlers| && h < |s.handlers| && g != h
    ensures s.handlers[g].worker != s.handlers[h].worker
  {
    assert HandlerIs(replies[g], s.handlers[g]) && HandlerIs(replies[h], s.handlers[h]);
  }

  lemma FollowsRunCheck<C, T>(b: Build<C, T>, start: State<C, T>, replies: seq<Reply<C>>, s: State<C, T>, c: nat)
    requires Follows(b, start, replies, s) && Safe(b, start, replies) && Enabled(s, RunCheck(c))
    ensures Follows(b, start, replies, CheckRun(b, s, c))
  {
    var h := s.checks[c].handler;
    assert HandlerIs(replies[h], s.handlers[h]) && Checkable(b, start, replies[h]);
    assert CheckBelongs(s, c) && PromiseHolds(b, s, c);
    var t := CheckRun(b, s, c);
    assert t.promises.Keys == s.promises.Keys;
    OneCheckMoved(b, start, replies, s, t, c);
  }

  lemma FollowsCountDown<C, T>(b: Build<C, T>, start: State<C, T>, replies: seq<Reply<C>>, s: State<C, T>, c: nat)
    requires Follows(b, start, replies, s) && Safe(b, start, replies) && Enabled(s, CountDown(c))
    ensures Follows(b, start, replies, LatchCounted(s, c))
  {
    assert CheckBelongs(s, c) && PromiseHolds(b, s, c);
    var t := LatchCounted(s, c);
    assert t.promises.Keys == s.promises.Keys;
    OneCheckMoved(b, start, replies, s, t, c);
  }

  /** A check moves on and its own promise follows; the other checks have other workers. */
  lemma OneCheckMoved<C, T>(
    b: Build<C, T>, start: State<C, T>, replies: seq<Reply<C>>, s: State<C, T>, t: State<C, T>, c: nat)
    requires Follows(b, start, replies, s) && Safe(b, start, replies) && b.freivalds
    requires c < |s.checks| && CheckBelongs(s, c)
    requires t.handlers == s.handlers && t.promises.Keys == s.promises.Keys && |t.checks| == |s.checks|
    requires forall d | 0 <= d < |s.checks| && d != c :: t.checks[d] == s.checks[d]
    requires t.checks[c].handler == s.checks[c].handler
    requires forall w | w in s.promises && w != CheckedWorker(s, c) :: t.promises[w] == s.promises[w]
    requires CheckBelongs(t, c) && PromiseHolds(b, t, c)
    ensures ChecksBelong(t) && PromisesHold(b, t)
  {
    forall d | 0 <= d < |t.checks| ensures CheckBelongs(t, d) { assert CheckBelongs(s, d); }
    forall d, e | 0 <= d < e < |t.checks| ensures t.checks[d].handler != t.checks[e].handler {
      assert s.checks[d].handler != s.checks[e].handler;
    }
    forall d | 0 <= d < |t.checks| ensures PromiseHolds(b, t, d) {
      assert CheckBelongs(s, d) && CheckBelongs(t, d);
      if d != c {
        assert PromiseHolds(b, s, d);
        OtherReply(b, start, replies, s, s.checks[c].handler, s.checks[d].handler);
      }
    }
    forall w | w in t.promises && Unchecked(t, w) ensures t.promises[w] == Verification(1, None) {
      assert CheckedWorker(t, c) != w;
      forall d | 0 <= d < |s.checks| ensures CheckBelongs(s, d) && CheckedWorker(s, d) != w {
        assert CheckBelongs(t, d);
      }
      assert Unchecked(s, w);
    }
  }

  lemma FollowsOther<C, T>(b: Build<C, T>, start: State<C, T>, replies: seq<Reply<C>>, s: State<C, T>, step: Step<C>)
    requires Follows(b, start, replies, s) && Enabled(s, step) && !IsInner(step)
    requires step.Submit? ==> |s.handlers| < |replies| && replies[|s.handlers|] == Reply(step.worker, step.parts)
    ensures Follows(b, start, replies, Apply(b, s, step))
    ensures |Apply(b, s, step).handlers| == |s.handlers| + if step.Submit? then 1 else 0
  {
    var t := Apply(b, s, step);
    ChecksUnmoved(b, s, t);
    forall h | 0 <= h < |t.handlers| ensures HandlerIs(replies[h], t.handlers[h]) {
      if h < |s.handlers| { assert HandlerIs(replies[h], s.handlers[h]); }
    }
  }

  lemma FollowsStep<C, T>(b: Build<C, T>, start: State<C, T>, replies: seq<Reply<C>>, s: State<C, T>, step: Step<C>)
    requires Follows(b, start, replies, s) && Safe(b, start, replies) && Enabled(s, step)
    requires step.Submit? ==> |s.handlers| < |replies| && replies[|s.handlers|] == Reply(step.worker, step.parts)
    ensures Follows(b, start, replies, Apply(b, s, step))
    ensures |Apply(b, s, step).handlers| == |s.handlers| + if step.Submit? then 1 else 0
  {
    match step
    case Verify(h) => FollowsVerify(b, start, replies, s, h);
    case Write(h) => FollowsWrite(b, start, replies, s, h);
    case RunCheck(c) => assert CheckBelongs(s, c); FollowsRunCheck(b, start, replies, s, c);
    case CountDown(c) => FollowsCountDown(b, start, replies, s, c);
    case _ => FollowsOther(b, start, replies, s, step);
  }

  lemma {:induction false} RunsFollow<C, T>(
    b: Build<C, T>, start: State<C, T>, replies: seq<Reply<C>>, s: State<C, T>, steps: seq<Step<C>>, end: State<C, T>)
    requires Follows(b, start, replies, s) && Safe(b, start, replies) && Reaches(b, s, steps, end)
    requires replies[|s.handlers|..] == Submissions(steps)
    ensures Follows(b, start, replies, end) && |end.handlers| == |replies|
    decreases |steps|
  {
    if steps != [] {
      FollowsStep(b, start, replies, s, steps[0]);
      RunsFollow(b, start, replies, Apply(b, s, steps[0]), steps[1..], end);
    }
  }

  lemma FreshFollows<C, T>(b: Build<C, T>, s: State<C, T>, replies: seq<Reply<C>>)
    requires Fresh(s)
    ensures Follows(b, s, replies, s)
  {
  }

  // ----- and when it does

  function Workers<C>(replies: seq<Reply<C>>): set<string> {
    set i | 0 <= i < |replies| :: replies[i].worker
  }

  /** All replies have come in and nothing else has happened. */
  ghost predicate Arrived<C, T>(start: State<C, T>, replies: seq<Reply<C>>, t: State<C, T>) {
    && t.fault.None? && t.checks == start.checks && t.promises == start.promises && t.partial == start.partial
    && t.workerList == start.workerList && |t.handlers| == |start.handlers| + |replies|
    && forall i | 0 <= i < |replies| ::
        t.handlers[|start.handlers| + i] == Handler(replies[i].worker, replies[i].parts, Received)
  }

  lemma {:induction false} AllArrive<C(!new), T(!new)>(b: Build<C, T>, s: State<C, T>, replies: seq<Reply<C>>)
    returns (t: State<C, T>)
    requires s.fault.None?
    ensures Leads(b, s, replies, Workers(replies), t) && Arrived(s, replies, t)
    decreases |replies|
  {
    var names := Workers(replies);
    if replies == [] {
      t := s;
      LeadsNowhere(b, s, names);
    } else {
      var n := |replies| - 1;
      var u := AllArrive(b, s, replies[..n]);
      var last := replies[n];
      LeadsMore(b, s, replies[..n], Workers(replies[..n]), names, u);
      var v := Apply(b, u, Register(last.worker));
      LeadsStep(b, u, Register(last.worker), names);
      LeadsStep(b, v, Submit(last.worker, last.parts), names);
      t := Apply(b, v, Submit(last.worker, last.parts));
      LeadsOn(b, s, replies[..n], u, [], v, names);
      LeadsOn(b, s, replies[..n] + [], v, [last], t, names);
      assert replies[..n] + [] + [last] == replies;
    }
  }

  /** In the default build, a reply from a worker that is not listed uses a promise that is not there. */
  lemma UnlistedFaults<C(!new), T(!new)>(b: Build<C, T>, s: State<C, T>, replies: seq<Reply<C>>, t: State<C, T>, i: nat)
    requires Fresh(s) && Arrived(s, replies, t) && b.freivalds && i < |replies| && replies[i].worker !in Listed(s)
    ensures Apply(b, t, Verify(i)).fault == Some(NullPromise) && Leads(b, t, [], {}, Apply(b, t, Verify(i)))
  {
    assert t.handlers[|s.handlers| + i].worker !in t.promises;
    LeadsStep(b, t, Verify(i), {});
  }

  /** A reply that is let past its check's start. */
  lemma Admitted<C(!new), T(!new)>(b: Build<C, T>, s: State<C, T>, replies: seq<Reply<C>>, t: State<C, T>, i: nat)
    returns (u: State<C, T>)
    requires Fresh(s) && Arrived(s, replies, t) && i < |replies| && (b.freivalds ==> replies[i].worker in Listed(s))
    ensures u == At(t, i, Writing(0)).(checks := if b.freivalds then [Check(i, Queued)] else [])
    ensures Leads(b, t, [], {}, u)
  {
    assert t.handlers[|s.handlers| + i] == Handler(replies[i].worker, replies[i].parts, Received);
    u := Apply(b, t, Verify(i));
    LeadsStep(b, t, Verify(i), {});
  }

  lemma ShortReplyFaults<C(!new), T(!new)>(
    b: Build<C, T>, s: State<C, T>, replies: seq<Reply<C>>, t: State<C, T>, i: nat)
    returns (v: State<C, T>)
    requires Fresh(s) && Arrived(s, replies, t) && b.freivalds && i < |replies|
    requires replies[i].worker in Listed(s) && b.Verdict(replies[i].worker, replies[i].parts).None?
    ensures v.fault.Some? && v.fault.value.BadRead? && Leads(b, t, [], {}, v)
  {
    assert t.handlers[|s.handlers| + i] == Handler(replies[i].worker, replies[i].parts, Received);
    var u := Admitted(b, s, replies, t, i);
    LeadsFurther(b, t, [], u, RunCheck(0), {});
    v := Apply(b, u, RunCheck(0));
  }

  lemma BodyRuns<C(!new), T(!new)>(b: Build<C, T>, t: State<C, T>, s: State<C, T>, c: nat) returns (v: State<C, T>)
    requires Leads(b, t, [], {}, s) && s.fault.None? && CheckExists(s, c, Queued)
    requires var h := s.handlers[s.checks[c].handler]; b.Verdict(h.worker, h.parts).Some?
    ensures Leads(b, t, [], {}, v) && v.fault.None? && v.handlers == s.handlers && v.promises.Keys == s.promises.Keys
    ensures v.checks == s.checks[c := s.checks[c].(phase := Checked)]
    ensures var w := s.handlers[s.checks[c].handler].worker; v.promises[w].latch == s.promises[w].latch
  {
    LeadsFurther(b, t, [], s, RunCheck(c), {});
    v := Apply(b, s, RunCheck(c));
    assert v.promises.Keys == s.promises.Keys;
  }

  /** A check that finds its latch open, or not. */
  lemma CheckRuns<C(!new), T(!new)>(b: Build<C, T>, t: State<C, T>, s: State<C, T>, c: nat) returns (u: State<C, T>)
    requires Leads(b, t, [], {}, s) && s.fault.None? && CheckExists(s, c, Queued)
    requires var h := s.handlers[s.checks[c].handler]; b.Verdict(h.worker, h.parts).Some?
    ensures Leads(b, t, [], {}, u) && u.handlers == s.handlers && u.promises.Keys == s.promises.Keys
    ensures u.checks == s.checks[c := s.checks[c].(phase := CountedDown)]
    ensures var w := s.handlers[s.checks[c].handler].worker;
      && u.promises[w].latch == s.promises[w].latch - 1
      && u.fault == if s.promises[w].latch <= 0 then Some(LatchBelowZero) else None
  {
    var v := BodyRuns(b, t, s, c);
    assert v.checks[c].handler == s.checks[c].handler;
    LeadsFurther(b, t, [], v, CountDown(c), {});
    u := Apply(b, v, CountDown(c));
    assert v.checks[c := v.checks[c].(phase := CountedDown)] == s.checks[c := s.checks[c].(phase := CountedDown)];
  }

  /** Two replies of one worker count its latch of one down twice. */
  lemma SecondReplyFaults<C(!new), T(!new)>(
    b: Build<C, T>, s: State<C, T>, replies: seq<Reply<C>>, t: State<C, T>, i: nat, j: nat) returns (v: State<C, T>)
    requires Fresh(s) && Arrived(s, replies, t) && b.freivalds && i < j < |replies|
    requires replies[i].worker == replies[j].worker && Checkable(b, s, replies[i]) && Checkable(b, s, replies[j])
    ensures v.fault == Some(LatchBelowZero) && Leads(b, t, [], {}, v)
  {
    assert t.handlers[|s.handlers| + i] == Handler(replies[i].worker, replies[i].parts, Received);
    assert t.handlers[|s.handlers| + j] == Handler(replies[j].worker, replies[j].parts, Received);
    var u := Admitted(b, s, replies, t, i);
    LeadsFurther(b, t, [], u, Verify(j), {});
    var both := Apply(b, u, Verify(j));
    assert both.checks == [Check(i, Queued), Check(j, Queued)];
    var once := CheckRuns(b, t, both, 0);
    v := CheckRuns(b, t, once, 1);
  }

  lemma {:induction false} WritesUpTo<C(!new), T(!new)>(b: Build<C, T>, t: State<C, T>, s: State<C, T>, h: nat, k: nat)
    returns (u: State<C, T>)
    requires Leads(b, t, [], {}, s) && s.fault.None? && h < |s.handlers| && s.handlers[h].phase == Writing(0)
    requires k <= |s.handlers[h].parts| && AllFit(b.embed, s.partial, s.handlers[h].parts[..k])
    ensures Leads(b, t, [], {}, u) && u.fault.None? && SameShape(s.partial, u.partial) && |u.handlers| == |s.handlers|
    ensures u.handlers[h] == s.handlers[h].(phase := Writing(k))
    decreases k
  {
    if k == 0 {
      u := s;
    } else {
      assert forall i | 0 <= i < k - 1 :: s.handlers[h].parts[..k - 1][i] == s.handlers[h].parts[..k][i];
      var v := WritesUpTo(b, t, s, h, k - 1);
      assert s.handlers[h].parts[..k][k - 1] == s.handlers[h].parts[k - 1];
      FitsByShape(b.embed, s.partial, v.partial, s.handlers[h].parts[k - 1]);
      LeadsFurther(b, t, [], v, Write(h), {});
      u := Apply(b, v, Write(h));
      OneWrite(b, v, h, k - 1);
      ShapesJoin(s.partial, v.partial, u.partial);
    }
  }

  lemma OneWrite<C, T>(b: Build<C, T>, s: State<C, T>, h: nat, k: nat)
    requires Enabled(s, Write(h)) && s.handlers[h].phase == Writing(k)
        && Fits(b.embed, s.partial, s.handlers[h].parts[k])
    ensures var u := Apply(b, s, Write(h));
      && u.fault.None? && SameShape(s.partial, u.partial) && |u.handlers| == |s.handlers|
      && u.handlers[h] == s.handlers[h].(phase := Writing(k + 1))
  {
  }

  lemma {:induction false} FirstMisfit<C, T>(embed: C -> seq<T>, partial: map<nat, MatrixValue<T>>, parts: seq<Part<C>>)
    returns (k: nat)
    requires !AllFit(embed, partial, parts)
    ensures k < |parts| && AllFit(embed, partial, parts[..k]) && !Fits(embed, partial, parts[k])
    decreases |parts|
  {
    var n := |parts| - 1;
    if AllFit(embed, partial, parts[..n]) {
      k := n;
    } else {
      k := FirstMisfit(embed, partial, parts[..n]);
      assert parts[..n][..k] == parts[..k];
    }
  }

  /** In either build, a part without a place. */
  lemma MisfitFaults<C(!new), T(!new)>(b: Build<C, T>, s: State<C, T>, replies: seq<Reply<C>>, t: State<C, T>, i: nat)
    returns (v: State<C, T>)
    requires Fresh(s) && Arrived(s, replies, t) && i < |replies| && (b.freivalds ==> replies[i].worker in Listed(s))
    requires !AllFit(b.embed, s.partial, replies[i].parts)
    ensures v.fault == Some(NoSuchPlace) && Leads(b, t, [], {}, v)
  {
    assert t.handlers[|s.handlers| + i] == Handler(replies[i].worker, replies[i].parts, Received);
    var u := Admitted(b, s, replies, t, i);
    var k := FirstMisfit(b.embed, s.partial, replies[i].parts);
    var w := WritesUpTo(b, t, u, i, k);
    MisfitByShape(b.embed, s.partial, w.partial, replies[i].parts[k]);
    LeadsFurther(b, t, [], w, Write(i), {});
    v := Apply(b, w, Write(i));
  }

  lemma ShapeIsMutual<T>(p: map<nat, MatrixValue<T>>, q: map<nat, MatrixValue<T>>)
    requires SameShape(p, q) && forall c | c in p :: p[c].Valid()
    ensures SameShape(q, p)
  {
    assert forall c | c in q :: c in p.Keys;
  }

  lemma MisfitByShape<C, T>(
    embed: C -> seq<T>, p: map<nat, MatrixValue<T>>, q: map<nat, MatrixValue<T>>, part: Part<C>)
    requires SameShape(p, q) && (forall c | c in p :: p[c].Valid()) && !Fits(embed, p, part)
    ensures !Fits(embed, q, part)
  {
    ShapeIsMutual(p, q);
    if Fits(embed, q, part) { FitsByShape(embed, q, p, part); }
  }

  /** In the default build, a reply that its check refuses to start on or reads past the end of. */
  lemma UncheckableFaults<C(!new), T(!new)>(
    b: Build<C, T>, s: State<C, T>, replies: seq<Reply<C>>, t: State<C, T>, i: nat)
    returns (v: State<C, T>)
    requires Fresh(s) && Arrived(s, replies, t) && b.freivalds && i < |replies| && !Checkable(b, s, replies[i])
    ensures v.fault.Some? && Leads(b, t, [], {}, v)
  {
    if replies[i].worker in Listed(s) {
      v := ShortReplyFaults(b, s, replies, t, i);
    } else {
      UnlistedFaults(b, s, replies, t, i);
      v := Apply(b, t, Verify(i));
    }
  }

  lemma FaultsOnceArrived<C(!new), T(!new)>(b: Build<C, T>, s: State<C, T>, replies: seq<Reply<C>>, t: State<C, T>)
    returns (v: State<C, T>)
    requires Fresh(s) && Arrived(s, replies, t) && !Safe(b, s, replies)
    ensures v.fault.Some? && Leads(b, t, [], {}, v)
  {
    if b.freivalds && exists i :: 0 <= i < |replies| && !Checkable(b, s, replies[i]) {
      var i :| 0 <= i < |replies| && !Checkable(b, s, replies[i]);
      v := UncheckableFaults(b, s, replies, t, i);
    } else if b.freivalds && exists i, j :: 0 <= i < j < |replies| && replies[i].worker == replies[j].worker {
      var i, j :| 0 <= i < j < |replies| && replies[i].worker == replies[j].worker;
      v := SecondReplyFaults(b, s, replies, t, i, j);
    } else {
      var i :| 0 <= i < |replies| && !AllFit(b.embed, s.partial, replies[i].parts);
      assert b.freivalds ==> Checkable(b, s, replies[i]);
      v := MisfitFaults(b, s, replies, t, i);
    }
  }

  lemma UnsafeFaults<C(!new), T(!new)>(b: Build<C, T>, s: State<C, T>, replies: seq<Reply<C>>)
    returns (v: State<C, T>)
    requires Fresh(s) && !Safe(b, s, replies)
    ensures v.fault.Some? && Leads(b, s, replies, Workers(replies), v)
  {
    var t := AllArrive(b, s, replies);
    v := FaultsOnceArrived(b, s, replies, t);
    LeadsMore(b, t, [], {}, Workers(replies), v);
    LeadsOn(b, s, replies, t, [], v, Workers(replies));
    assert replies + [] == replies;
  }

  /** No run that brings in these replies has a fault if and only if the replies are safe. */
  lemma SafetyCondition<C(!new), T(!new)>(b: Build<C, T>, s: State<C, T>, replies: seq<Reply<C>>)
    requires Fresh(s)
    ensures (forall steps, end | Reaches(b, s, steps, end) && Submissions(steps) == replies :: end.fault.None?)
            <==> Safe(b, s, replies)
  {
    if Safe(b, s, replies) {
      FreshFollows(b, s, replies);
      forall steps, end | Reaches(b, s, steps, end) && Submissions(steps) == replies ensures end.fault.None? {
        RunsFollow(b, s, replies, s, steps, end);
      }
    } else {
      UnsafeRun(b, s, replies);
    }
  }

  lemma UnsafeRun<C(!new), T(!new)>(b: Build<C, T>, s: State<C, T>, replies: seq<Reply<C>>)
    requires Fresh(s) && !Safe(b, s, replies)
    ensures exists steps, end :: Reaches(b, s, steps, end) && Submissions(steps) == replies && end.fault.Some?
  {
    var v := UnsafeFaults(b, s, replies);
    var steps :| Reaches(b, s, steps, v) && Submissions(steps) == replies && Registrations(steps) <= Workers(replies);
  }

  /**
   The same for the latches, in the pool that runs the checks: with a latch of one for every listed
   worker and one task on it for each of its replies, no schedule counts one below zero if and only if
   no listed worker replied twice.
   */
  lemma PoolLatchesAreSafe<V(!new)>(
    tasks: seq<ThreadPool.Task<V>>, n: nat, init: seq<nat>, memory: seq<V>, latchOf: map<string, nat>,
    workers: seq<string>)
    requires n > 0 && ThreadPool.TasksFit(tasks, |init|, |memory|)
    requires forall w | w in latchOf ::
      && latchOf[w] < |init| && init[latchOf[w]] == 1
      && |ThreadPool.TasksOn(tasks, |tasks|, latchOf[w])| == multiset(workers)[w]
    ensures (forall w | w in latchOf :: ThreadPool.NeverOverrun(tasks, n, init, memory, latchOf[w]))
            <==> forall w | w in latchOf :: multiset(workers)[w] <= 1
  {
    forall w | w in latchOf
      ensures ThreadPool.NeverOverrun(tasks, n, init, memory, latchOf[w]) <==> multiset(workers)[w] <= 1
    {
      ThreadPool.LatchCondition(tasks, n, init, memory, latchOf[w]);
    }
  }
}
