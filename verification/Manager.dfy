/** The manager as an object, its methods the steps of the ledger's transition system. */
module Manager {
  import opened Arith
  import opened Matrices
  import opened WorkerStrategy
  import opened Ledger
  import opened Checks
  import ReplyReader

  // ----- a handler on its own

  /** The handler's writes, up to the end of its reply or a fault. */
  ghost function WriteAll<C, T>(b: Build<C, T>, s: State<C, T>, h: nat): (t: State<C, T>)
    requires h < |s.handlers| && s.handlers[h].phase.Writing?
    decreases |s.handlers[h].parts| - s.handlers[h].phase.next
  {
    if s.fault.Some? || s.handlers[h].phase.next >= |s.handlers[h].parts| then s
    else
      var t := Apply(b, s, Write(h));
      if t.fault.Some? then t else WriteAll(b, t, h)
  }

  /** A handler that has just been made, run to its end, or to a fault, with nothing in between. */
  ghost function RunHandler<C, T>(b: Build<C, T>, s: State<C, T>, h: nat): State<C, T>
    requires Enabled(s, Verify(h))
  {
    var verified := Apply(b, s, Verify(h));
    if verified.fault.Some? then verified
    else
      var written := WriteAll(b, verified, h);
      if written.fault.Some? || !Enabled(written, Contribute(h)) then written
      else Apply(b, Apply(b, written, Contribute(h)), Signal(h))
  }

  lemma {:induction false} WriteAllIsRun<C(!new), T(!new)>(b: Build<C, T>, s: State<C, T>, t: State<C, T>, h: nat)
    requires h < |t.handlers| && t.handlers[h].phase.Writing? && t.handlers[h].phase.next <= |t.handlers[h].parts|
    requires Leads(b, s, [], {}, t)
    ensures var u := WriteAll(b, t, h);
      Leads(b, s, [], {}, u) && (u.fault.None? ==> Enabled(u, Contribute(h)))
    decreases |t.handlers[h].parts| - t.handlers[h].phase.next
  {
    if t.fault.None? && t.handlers[h].phase.next < |t.handlers[h].parts| {
      LeadsFurther(b, s, [], t, Write(h), {});
      var u := Apply(b, t, Write(h));
      if u.fault.None? { WriteAllIsRun(b, s, u, h); }
    }
  }

  /** That is a run of the transition system, which stops early only for a fault. */
  lemma HandlerIsRun<C(!new), T(!new)>(b: Build<C, T>, s: State<C, T>, h: nat)
    requires Enabled(s, Verify(h))
    ensures var u := RunHandler(b, s, h);
      && Leads(b, s, [], {}, u)
      && (u.fault.None? ==> h < |u.handlers| && u.handlers[h].phase == Finished)
  {
    LeadsStep(b, s, Verify(h), {});
    var verified := Apply(b, s, Verify(h));
    if verified.fault.None? {
      WriteAllIsRun(b, s, verified, h);
      var written := WriteAll(b, verified, h);
      if written.fault.None? {
        LeadsFurther(b, s, [], written, Contribute(h), {});
        LeadsFurther(b, s, [], Apply(b, written, Contribute(h)), Signal(h), {});
      }
    }
  }

  datatype Error = InvalidVerification

  class Manager<C, T> {
    const freivalds: bool
    const embed: C -> seq<T>
    const checker: Checker<T, C>
    var registered: set<string>
    var workerList: seq<string>
    var promises: map<string, Verification>
    var partial: map<nat, MatrixValue<T>>
    var contributed: set<string>
    var done: bool
    var handlers: seq<Handler<C>>
    var checks: seq<Check>
    var fault: Option<Fault>

    ghost function Compiled(): Build<C, T> {
      BuildOf(freivalds, embed, checker)
    }

    ghost function Value(): State<C, T>
      reads this
    {
      State(registered, workerList, promises, partial, contributed, done, handlers, checks, fault)
    }

    ghost predicate Valid()
      reads this
    {
      forall client | client in partial :: partial[client].Valid()
    }

    /** A ledger for the workers registered so far, with a promise for each. */
    constructor NewLedger(
      freivalds: bool, embed: C -> seq<T>, checker: Checker<T, C>, workers: seq<string>,
      partial: map<nat, MatrixValue<T>>)
      requires forall i, j | 0 <= i < j < |workers| :: workers[i] != workers[j]
      requires forall client | client in partial :: partial[client].Valid()
      ensures Compiled() == BuildOf(freivalds, embed, checker) && this.partial == partial && workerList == workers
      ensures Fresh(Value()) && Valid()
    {
      this.freivalds, this.embed, this.checker := freivalds, embed, checker;
      this.partial, this.workerList := partial, workers;
      registered, contributed, done := set w | w in workers, {}, false;
      promises := map w | w in workers :: Verification(1, None);
      handlers, checks, fault := [], [], None;
      new;
      DistinctCount(workers);
      assert promises == map w | w in registered :: Verification(1, None);
    }

    /** In the build without the checks there is no such call, and the handler just goes on. */
    method AsyncVerifyWorker(h: nat)
      requires Enabled(Value(), Verify(h))
      modifies this
      ensures Value() == Apply(Compiled(), old(Value()), Verify(h))
    {
      if freivalds {
        if handlers[h].worker !in promises {
          fault := Some(NullPromise);
          return;
        }
        checks := checks + [Check(h, Queued)];
      }
      handlers := handlers[h := handlers[h].(phase := Writing(0))];
    }

    /** The check's body, in the pool. */
    method RunCheck(c: nat)
      requires Enabled(Value(), Step.RunCheck(c))
      modifies this
      ensures Value() == Apply(Compiled(), old(Value()), Step.RunCheck(c))
    {
      var handler := handlers[checks[c].handler];
      var verdict := checker.Run(handler.worker, handler.parts);
      if verdict.Failure? {
        fault := Some(BadRead(verdict.error));
        return;
      }
      var promise := promises[handler.worker];
      if promise.latch != 0 {
        promises := promises[handler.worker := promise.(value := Some(verdict.value))];
      }
      checks := checks[c := checks[c].(phase := Checked)];
    }

    /** The pool's count-down once the body has run. */
    method CountDown(c: nat)
      requires Enabled(Value(), Step.CountDown(c))
      modifies this
      ensures Value() == Apply(Compiled(), old(Value()), Step.CountDown(c))
    {
      var worker := handlers[checks[c].handler].worker;
      var promise := promises[worker];
      promises := promises[worker := promise.(latch := promise.latch - 1)];
      checks := checks[c := checks[c].(phase := CountedDown)];
      if promise.latch <= 0 {
        fault := Some(LatchBelowZero);
      }
    }

    /** Once every promise is kept, whether to go on to the final answers. */
    method WaitOnVerification() returns (res: Result<(), Error>)
      requires AllKept(promises)
      ensures res == if AllAccepted(promises) then Success(()) else Failure(InvalidVerification)
    {
      var rest := promises.Keys;
      while rest != {}
        invariant rest <= promises.Keys
        invariant forall w | w in promises && w !in rest :: promises[w].value == Some(true)
        decreases |rest|
      {
        var worker :| worker in rest;
        var isValid := promises[worker].value.value;
        if !isValid {
          return Failure(InvalidVerification);
        }
        rest := rest - {worker};
      }
      return Success(());
    }

    /** The plaintexts of one part, one by one; None when one has no place in the data vector. */
    method PutRow(mat: MatrixValue<T>, row: nat, embedded: seq<T>) returns (r: Option<MatrixValue<T>>)
      requires mat.Valid()
      ensures r.Some? <==> InBounds(mat, row, |embedded|)
      ensures r.Some? ==> r.value == WithRow(mat, row, embedded)
    {
      var data := mat.data;
      for j := 0 to |embedded|
        invariant |data| == |mat.data| && InBounds(mat, row, j)
        invariant forall p | 0 <= p < |data| :: data[p] == Written(mat, row, embedded[..j], p)
      {
        PosGrows(mat.rows, row, j, |embedded| - 1);
        if Pos(mat.rows, row, j) >= |data| {
          return None;
        }
        data := data[Pos(mat.rows, row, j) := embedded[j]];
        forall p | 0 <= p < |data| ensures data[p] == Written(mat, row, embedded[..j + 1], p) {
          OneMoreEntry(mat, row, embedded, j, p);
        }
      }
      assert embedded[..|embedded|] == embedded;
      r := Some(Mat(mat.rows, mat.cols, data));
    }

    method PutPart(h: nat)
      requires Valid() && Enabled(Value(), Step.Write(h))
      modifies this`partial, this`handlers, this`fault
      ensures Valid() && Value() == Apply(Compiled(), old(Value()), Step.Write(h))
    {
      var part := handlers[h].parts[handlers[h].phase.next];
      if part.col !in partial {
        fault := Some(NoSuchPlace);
        return;
      }
      var mat := PutRow(partial[part.col], part.row, embed(part.ctx));
      if mat.None? {
        fault := Some(NoSuchPlace);
        return;
      }
      partial := partial[part.col := mat.value];
      handlers := handlers[h := handlers[h].(phase := Writing(handlers[h].phase.next + 1))];
    }

    method PutInResultMatrix(h: nat)
      requires Valid() && fault.None? && h < |handlers| && handlers[h].phase == Writing(0)
      modifies this
      ensures Valid() && Value() == WriteAll(Compiled(), old(Value()), h)
      ensures fault.None? ==> Enabled(Value(), Step.Contribute(h))
    {
      ghost var goal := WriteAll(Compiled(), Value(), h);
      var size := |handlers[h].parts|;
      for i := 0 to size
        invariant Valid() && fault.None? && h < |handlers| && |handlers[h].parts| == size
        invariant handlers[h].phase == Writing(i) && WriteAll(Compiled(), Value(), h) == goal
      {
        PutPart(h);
        if fault.Some? {
          return;
        }
      }
    }

    method Contribute(h: nat)
      requires Enabled(Value(), Step.Contribute(h))
      modifies this`contributed, this`handlers
      ensures Value() == Apply(Compiled(), old(Value()), Step.Contribute(h))
    {
      contributed := contributed + {handlers[h].worker};
      var nContributions := |contributed|;
      handlers := handlers[h := handlers[h].(phase := Counted(nContributions))];
    }

    method Signal(h: nat)
      requires Enabled(Value(), Step.Signal(h))
      modifies this`done, this`handlers
      ensures Value() == Apply(Compiled(), old(Value()), Step.Signal(h))
    {
      if handlers[h].phase.n == |workerList| {
        done := true;
      }
      handlers := handlers[h := handlers[h].(phase := Finished)];
    }

    method HandleReply(h: nat)
      requires Valid() && Enabled(Value(), Verify(h))
      modifies this
      ensures Valid() && Value() == RunHandler(Compiled(), old(Value()), h)
    {
      AsyncVerifyWorker(h);
      if fault.Some? {
        return;
      }
      PutInResultMatrix(h);
      if fault.Some? {
        return;
      }
      Contribute(h);
      Signal(h);
    }

    /**
     One worker's reply with no other handler, and no task, in between: refused if the worker is not
     registered, else read into a vector of its own and handled to the end or to a fault. Its check is left
     to the pool.
     */
    method ReturnLocalWork(worker: string, stream: seq<Part<C>>) returns (accepted: bool)
      requires Valid() && fault.None?
      modifies this
      ensures Valid() && (accepted <==> worker in old(registered))
      ensures !accepted ==> Value() == old(Value())
      ensures accepted ==>
        Value() == RunHandler(Compiled(), Apply(Compiled(), old(Value()), Submit(worker, stream)), |old(handlers)|)
    {
      if worker !in registered {
        return false;
      }
      var parts := ReadReply(stream);
      handlers := handlers + [Handler(worker, parts, Received)];
      HandleReply(|handlers| - 1);
      return true;
    }

    method ReadReply(stream: seq<Part<C>>) returns (parts: seq<Part<C>>)
      ensures parts == stream
    {
      var reader := new ReplyReader.Reader(ReplyReader.Doubled, 0);
      reader.ReadAll(stream);
      assert [] + stream == stream;
      parts := reader.parts;
    }
  }

  lemma OneMoreEntry<T>(m: MatrixValue<T>, row: nat, entries: seq<T>, j: nat, p: nat)
    requires m.Valid() && j < |entries| && p < |m.data| && Pos(m.rows, row, j) < |m.data|
    ensures Written(m, row, entries[..j + 1], p)
            == if p == Pos(m.rows, row, j) then entries[j] else Written(m, row, entries[..j], p)
  {
    EveryPosIsACell(m.rows, m.cols, p);
    var now, before := Landing(m.rows, row, j + 1, p), Landing(m.rows, row, j, p);
    if now.Some? && now.value < j { SamePlace(m.rows, row, now.value, j); }
    if now.Some? && before.Some? { SamePlace(m.rows, row, now.value, before.value); }
  }

  /** Different entries land on different positions. */
  lemma SamePlace(rows: nat, row: nat, j: nat, k: nat)
    requires rows > 0
    ensures Pos(rows, row, j) == Pos(rows, row, k) <==> j == k
  {
    if j < k { MultiplesApart(j, k, rows); }
    if k < j { MultiplesApart(k, j, rows); }
  }

  lemma {:induction false} DistinctCount(s: seq<string>)
    requires forall i, j | 0 <= i < j < |s| :: s[i] != s[j]
    ensures |set w | w in s| == |s|
  {
    if s != [] {
      var n := |s| - 1;
      DistinctCount(s[..n]);
      assert (set w | w in s) == (set w | w in s[..n]) + {s[n]};
    }
  }
}
