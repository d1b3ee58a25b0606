/** Transaction ids, and what becomes of a storage whose current transaction is not
    cleared: commits of ids that do not exist and transactions that could not start. */
module StorageTxns {
  import opened Wrappers
  import opened StorageSpec
  import opened StorageRuns
  import opened StorageCommits

  // ----- ids -----

  /** The ids handed out by the begins among the completed tasks. */
  function IdsReturned(ds: seq<Done>): seq<nat> {
    if ds == [] then []
    else
      (if ds[0].msg.Begin? && ds[0].outcome.Succeeded? && ds[0].outcome.payload.Number?
       then [ds[0].outcome.payload.n] else [])
      + IdsReturned(ds[1..])
  }

  function BeginCount(ms: seq<Msg>): nat {
    if ms == [] then 0 else (if ms[0].Begin? then 1 else 0) + BeginCount(ms[1..])
  }

  function CountUp(from: nat, n: nat): (ids: seq<nat>)
    ensures |ids| == n
    ensures forall i :: 0 <= i < n ==> ids[i] == from + i
    decreases n
  {
    if n == 0 then [] else [from] + CountUp(from + 1, n - 1)
  }

  lemma CountUpSplit(from: nat, m: nat, n: nat)
    ensures CountUp(from, m + n) == CountUp(from, m) + CountUp(from + m, n)
  {}

  lemma {:induction false} IdsReturnedAppend(a: seq<Done>, b: seq<Done>)
    ensures IdsReturned(a + b) == IdsReturned(a) + IdsReturned(b)
  {
    if a == [] {
      assert a + b == b;
    } else {
      assert (a + b)[1..] == a[1..] + b;
      IdsReturnedAppend(a[1..], b);
    }
  }

  lemma {:induction false} NoIdsWithoutBegin(ds: seq<Done>)
    requires NoBegin(ds)
    ensures IdsReturned(ds) == []
  {
    if ds != [] {
      NoIdsWithoutBegin(ds[1..]);
    }
  }

  lemma NoIdsAtAll(from: nat)
    ensures IdsReturned([]) == [] == CountUp(from, 0) && CountUp(from, 1) == [from]
  {}

  lemma IdsChain(from: nat, a: Result, b: Result)
    requires IdsReturned(a.done) == CountUp(from, |IdsReturned(a.done)|)
    requires IdsReturned(b.done) == CountUp(from + |IdsReturned(a.done)|, |IdsReturned(b.done)|)
    ensures var ids := IdsReturned(Then(a, b).done);
      |ids| == |IdsReturned(a.done)| + |IdsReturned(b.done)| && ids == CountUp(from, |ids|)
  {
    IdsReturnedAppend(a.done, b.done);
    CountUpSplit(from, |IdsReturned(a.done)|, |IdsReturned(b.done)|);
  }

  /** Every entry is at most `txnSeq`, and its list holds sets that carry its id. */
  predicate TableInOrder(s: St) {
    forall t :: t in s.txns ==> 1 <= t <= s.txnSeq && AllCarry(s.txns[t].writes, t)
  }

  predicate NoBegin(ds: seq<Done>) {
    forall i :: 0 <= i < |ds| ==> !ds[i].msg.Begin?
  }

  lemma CommitOneKeepsTable(env: Env, s: St, m: CommitTask)
    requires TableInOrder(s) && m.txn in s.txns
    ensures var r := CommitOne(env, s, m);
      TableInOrder(r.st) && r.st.txnSeq == s.txnSeq && NoBegin(r.done)
  {
    var p := s.txns[m.txn];
    ReplayCompletesSets(env, s.db, s.calls + 1, p.writes, p.error);
    hide Replay, AllCarry;
  }

  lemma {:induction false} CommitKeepsTable(env: Env, s: St, m: CommitTask)
    requires TableInOrder(s)
    ensures var r := CommitStep(env, s, m);
      TableInOrder(r.st) && r.st.txnSeq == s.txnSeq && NoBegin(r.done)
    decreases |s.queue|
  {
    hide AllCarry;
    if Runs(env, s, m) {
      CommitOneKeepsTable(env, s, m);
      hide CommitOne;
      if s.queue != [] {
        CommitKeepsTable(env, CommitOne(env, s, m).st.(queue := s.queue[1..]), s.queue[0]);
      }
    }
  }

  lemma StepKeepsTable(env: Env, s: St, m: Msg)
    requires TableInOrder(s) && (m.Begin? ==> s.txnSeq as int + 1 < TXN_ID_LIMIT)
    ensures var r := Step(env, s, m);
      && TableInOrder(r.st)
      && r.st.txnSeq == s.txnSeq + |IdsReturned(r.done)|
      && IdsReturned(r.done) == if m.Begin? && s.open then [s.txnSeq + 1] else []
  {
    var r := Step(env, s, m);
    if m.Commit? {
      CommitKeepsTable(env, s, m.commit);
      NoIdsWithoutBegin(r.done);
    } else if m.Set? {
      SetKeepsTable(env, s, m.write);
      NoIdsWithoutBegin(r.done);
    } else if r.done != [] {
      assert r.done[1..] == [];
    }
    hide SetStep, CommitStep, AllCarry;
  }

  lemma CarryAppend(ws: seq<SetTask>, w: SetTask, t: TxnId)
    requires AllCarry(ws, t) && w.txn == t
    ensures AllCarry(ws + [w], t)
  {
    assert (ws + [w])[..|ws|] == ws;
  }

  lemma SetKeepsTable(env: Env, s: St, w: SetTask)
    requires TableInOrder(s)
    ensures var r := SetStep(env, s, w);
      TableInOrder(r.st) && r.st.txnSeq == s.txnSeq && NoBegin(r.done)
  {
    if w.txn in s.txns {
      CarryAppend(s.txns[w.txn].writes, w, w.txn);
    }
    hide AllCarry, WriteOne, Replay, FormOf;
  }

  /** With fewer than 2^32 begins, the ids handed out over a whole run, through any
      number of closes and reopens, are 1, 2, 3, ...: never 0 and never the same twice;
      and every live transaction is kept under one of them, with its own sets only. */
  lemma {:induction false} IdsAreFresh(env: Env, s: St, ms: seq<Msg>)
    requires TableInOrder(s) && s.txnSeq as int + BeginCount(ms) < TXN_ID_LIMIT
    ensures var r := Run(env, s, ms);
      && TableInOrder(r.st)
      && r.st.txnSeq == s.txnSeq + |IdsReturned(r.done)|
      && |IdsReturned(r.done)| <= BeginCount(ms)
      && IdsReturned(r.done) == CountUp(s.txnSeq + 1, |IdsReturned(r.done)|)
    decreases |ms|
  {
    hide Step, TableInOrder, IdsReturned, CountUp;
    if ms == [] {
      NoIdsAtAll(s.txnSeq + 1);
    } else {
      StepKeepsTable(env, s, ms[0]);
      var one := Step(env, s, ms[0]);
      NoIdsAtAll(s.txnSeq + 1);
      IdsAreFresh(env, one.st, ms[1..]);
      IdsChain(s.txnSeq + 1, one, Run(env, one.st, ms[1..]));
    }
  }

  // ----- when the current transaction stays set -----

  predicate Idle(s: St) {
    s.open && s.txn == 0 && s.queue == []
  }

  /** From an idle storage, the only thing that leaves a current transaction behind is a
      commit of an id that does not exist or whose TDB transaction does not start. */
  lemma IdleExactly(env: Env, s: St, m: Msg)
    requires Idle(s)
    ensures Step(env, s, m).st.txn == 0 <==>
      !(m.Commit? && m.commit.txn != 0 && (m.commit.txn !in s.txns || !env.tdb(s.calls)))
    ensures Step(env, s, m).st.queue == []
  {}

  /** Every commit of the run names a live transaction, and its TDB transaction starts. */
  ghost predicate CleanRun(env: Env, s: St, ms: seq<Msg>)
    decreases |ms|
  {
    ms == [] ||
    (&& (ms[0].Commit? && s.open ==> ms[0].commit.txn in s.txns && env.tdb(s.calls))
     && CleanRun(env, Step(env, s, ms[0]).st, ms[1..]))
  }

  /** In such runs there is no current transaction between messages, and no commit is
      ever deferred. */
  lemma {:induction false} CleanRunsStayIdle(env: Env, s: St, ms: seq<Msg>)
    requires s.txn == 0 && s.queue == [] && CleanRun(env, s, ms)
    ensures Run(env, s, ms).st.txn == 0 && Run(env, s, ms).st.queue == []
    decreases |ms|
  {
    hide Step;
    if ms != [] {
      CleanStepStaysIdle(env, s, ms[0]);
      CleanRunsStayIdle(env, Step(env, s, ms[0]).st, ms[1..]);
    }
  }

  lemma CleanStepStaysIdle(env: Env, s: St, m: Msg)
    requires s.txn == 0 && s.queue == []
    requires m.Commit? && s.open ==> m.commit.txn in s.txns && env.tdb(s.calls)
    ensures Step(env, s, m).st.txn == 0 && Step(env, s, m).st.queue == []
  {
    if s.open {
      IdleExactly(env, s, m);
    }
  }

  /** A live transaction that carries an error is the current one. */
  predicate ErrorIsCurrent(s: St) {
    forall t :: t in s.txns && t != 0 && s.txns[t].error.Some? ==> t == s.txn
  }

  lemma {:induction false} CommitKeepsErrorCurrent(env: Env, s: St, m: CommitTask)
    requires ErrorIsCurrent(s) && ClosedIsEmpty(s)
    ensures ErrorIsCurrent(CommitStep(env, s, m).st)
    decreases |s.queue|
  {
    if Runs(env, s, m) && s.queue != [] {
      var one := CommitOne(env, s, m);
      assert ErrorIsCurrent(one.st.(queue := s.queue[1..]));
      CommitKeepsErrorCurrent(env, one.st.(queue := s.queue[1..]), s.queue[0]);
    }
  }

  lemma StepKeepsErrorCurrent(env: Env, s: St, m: Msg)
    requires ErrorIsCurrent(s) && ClosedIsEmpty(s)
    ensures ErrorIsCurrent(Step(env, s, m).st)
  {
    if m.Commit? {
      CommitKeepsErrorCurrent(env, s, m.commit);
    }
  }

  /** In every run, whatever ids clients use, errors are only found in the current
      transaction: a failed replay takes its transaction with it, so what carries an
      error is a transaction that could not start. */
  lemma {:induction false} RunKeepsErrorCurrent(env: Env, s: St, ms: seq<Msg>)
    requires ErrorIsCurrent(s) && ClosedIsEmpty(s)
    ensures ErrorIsCurrent(Run(env, s, ms).st)
    decreases |ms|
  {
    hide Step, ErrorIsCurrent, ClosedIsEmpty;
    if ms != [] {
      StepKeepsErrorCurrent(env, s, ms[0]);
      StepKeepsClosedEmpty(env, s, ms[0]);
      RunKeepsErrorCurrent(env, Step(env, s, ms[0]).st, ms[1..]);
    }
  }

  /** A live transaction carries an error exactly when it is the current one. */
  predicate ErrorMeansStuck(s: St) {
    forall t :: t in s.txns && t != 0 ==> (s.txns[t].error.Some? <==> t == s.txn)
  }

  /** This begin hands out the id of the current transaction. */
  predicate BeginsCurrent(s: St, m: Msg) {
    m.Begin? && s.open && s.txn != 0 && NextId(s.txnSeq) == s.txn
  }

  lemma {:induction false} CommitKeepsStuck(env: Env, s: St, m: CommitTask)
    requires ErrorMeansStuck(s) && ClosedIsEmpty(s)
    ensures ErrorMeansStuck(CommitStep(env, s, m).st)
    decreases |s.queue|
  {
    if Runs(env, s, m) && s.queue != [] {
      var one := CommitOne(env, s, m);
      assert ErrorMeansStuck(one.st.(queue := s.queue[1..]));
      CommitKeepsStuck(env, one.st.(queue := s.queue[1..]), s.queue[0]);
    }
  }

  lemma StuckStepExactly(env: Env, s: St, m: Msg)
    requires ErrorMeansStuck(s) && ClosedIsEmpty(s)
    ensures ErrorMeansStuck(Step(env, s, m).st) <==> !BeginsCurrent(s, m)
  {
    if m.Commit? {
      CommitKeepsStuck(env, s, m.commit);
    } else if BeginsCurrent(s, m) {
      assert s.txn in Step(env, s, m).st.txns;
    }
  }

  ghost predicate StuckThroughout(env: Env, s: St, ms: seq<Msg>)
    decreases |ms|
  {
    ErrorMeansStuck(s) && (ms == [] || StuckThroughout(env, Step(env, s, ms[0]).st, ms[1..]))
  }

  ghost predicate NeverBeginsCurrent(env: Env, s: St, ms: seq<Msg>)
    decreases |ms|
  {
    ms == [] || (!BeginsCurrent(s, ms[0]) && NeverBeginsCurrent(env, Step(env, s, ms[0]).st, ms[1..]))
  }

  /** Over any run, the transactions that carry an error are all along exactly those that
      are current because they could not start, unless a begin hands out the id of the
      current transaction, which makes a new one current before anyone commits it. */
  lemma {:induction false} StuckExactly(env: Env, s: St, ms: seq<Msg>)
    requires ErrorMeansStuck(s) && ClosedIsEmpty(s)
    ensures StuckThroughout(env, s, ms) <==> NeverBeginsCurrent(env, s, ms)
    decreases |ms|
  {
    hide Step, ErrorMeansStuck, ClosedIsEmpty, BeginsCurrent;
    if ms != [] {
      StuckStepExactly(env, s, ms[0]);
      StepKeepsClosedEmpty(env, s, ms[0]);
      if !BeginsCurrent(s, ms[0]) {
        StuckExactly(env, Step(env, s, ms[0]).st, ms[1..]);
      } else {
        NotThroughout(env, Step(env, s, ms[0]).st, ms[1..]);
      }
    }
  }

  lemma NotThroughout(env: Env, s: St, ms: seq<Msg>)
    requires !ErrorMeansStuck(s)
    ensures !StuckThroughout(env, s, ms)
  {}

  predicate IdsKnown(s: St) {
    s.txn <= s.txnSeq && forall i :: 0 <= i < |s.queue| ==> s.queue[i].txn <= s.txnSeq
  }

  /** Clients only commit ids that have been handed out. */
  ghost predicate CommitsKnown(env: Env, s: St, ms: seq<Msg>)
    decreases |ms|
  {
    ms == [] ||
    (&& (ms[0].Commit? ==> ms[0].commit.txn <= s.txnSeq)
     && CommitsKnown(env, Step(env, s, ms[0]).st, ms[1..]))
  }

  lemma {:induction false} CommitKeepsKnown(env: Env, s: St, m: CommitTask)
    requires IdsKnown(s) && m.txn <= s.txnSeq
    ensures IdsKnown(CommitStep(env, s, m).st)
    decreases |s.queue|
  {
    if Runs(env, s, m) && s.queue != [] {
      var one := CommitOne(env, s, m);
      CommitKeepsKnown(env, one.st.(queue := s.queue[1..]), s.queue[0]);
    }
  }

  lemma StepKeepsKnown(env: Env, s: St, m: Msg)
    requires IdsKnown(s) && (m.Commit? ==> m.commit.txn <= s.txnSeq)
    requires m.Begin? ==> s.txnSeq as int + 1 < TXN_ID_LIMIT
    ensures IdsKnown(Step(env, s, m).st)
  {
    if m.Commit? {
      CommitKeepsKnown(env, s, m.commit);
    }
  }

  /** Clients that only commit ids they have been handed keep clear of that, as long as
      there are fewer than 2^32 begins. */
  lemma {:induction false} KnownIdsAreNotBegun(env: Env, s: St, ms: seq<Msg>)
    requires IdsKnown(s) && CommitsKnown(env, s, ms) && TableInOrder(s)
    requires s.txnSeq as int + BeginCount(ms) < TXN_ID_LIMIT
    ensures NeverBeginsCurrent(env, s, ms)
    decreases |ms|
  {
    hide Step, TableInOrder;
    if ms != [] {
      StepKeepsKnown(env, s, ms[0]);
      StepKeepsTable(env, s, ms[0]);
      KnownIdsAreNotBegun(env, Step(env, s, ms[0]).st, ms[1..]);
    }
  }

  // ----- a transaction that could not start -----

  /** It has sets but also an error, or it is gone. */
  predicate Spoiled(s: St, t: TxnId) {
    && 0 < t <= s.txnSeq
    && (t in s.txns ==> s.txns[t].error.Some? && s.txns[t].writes != [])
  }

  predicate NoCommitOf(ds: seq<Done>, t: TxnId) {
    forall i :: 0 <= i < |ds| ==> ds[i].msg.Commit? && ds[i].msg.commit.txn == t ==> ds[i].outcome.Failed?
  }

  lemma SpoiledCommitOne(env: Env, s: St, m: CommitTask, t: TxnId)
    requires Spoiled(s, t) && m.txn in s.txns
    ensures Spoiled(CommitOne(env, s, m).st, t) && NoCommitOf(CommitOne(env, s, m).done, t)
  {
    var p := s.txns[m.txn];
    ReplayCompletesSets(env, s.db, s.calls + 1, p.writes, p.error);
    CommitAllOrNothing(env, s, m);
    hide Replay, AllGoThrough, ApplyAll;
  }

  lemma {:induction false} SpoiledCommit(env: Env, s: St, m: CommitTask, t: TxnId)
    requires Spoiled(s, t)
    ensures Spoiled(CommitStep(env, s, m).st, t) && NoCommitOf(CommitStep(env, s, m).done, t)
    decreases |s.queue|
  {
    if Runs(env, s, m) {
      SpoiledCommitOne(env, s, m, t);
      hide CommitOne;
      if s.queue != [] {
        SpoiledCommit(env, CommitOne(env, s, m).st.(queue := s.queue[1..]), s.queue[0], t);
      }
    }
  }

  lemma SpoiledStep(env: Env, s: St, m: Msg, t: TxnId)
    requires Spoiled(s, t) && (m.Begin? ==> s.txnSeq as int + 1 < TXN_ID_LIMIT)
    ensures Spoiled(Step(env, s, m).st, t) && NoCommitOf(Step(env, s, m).done, t)
    ensures Step(env, s, m).st.txnSeq <= s.txnSeq + if m.Begin? then 1 else 0
  {
    if m.Commit? {
      SpoiledCommit(env, s, m.commit, t);
      CommitKeepsSeq(env, s, m.commit);
    }
    hide CommitStep;
  }

  lemma {:induction false} CommitKeepsSeq(env: Env, s: St, m: CommitTask)
    ensures CommitStep(env, s, m).st.txnSeq == s.txnSeq
    decreases |s.queue|
  {
    if Runs(env, s, m) && s.queue != [] {
      CommitKeepsSeq(env, CommitOne(env, s, m).st.(queue := s.queue[1..]), s.queue[0]);
    }
  }

  /** A transaction with sets whose commit once failed, for whatever reason, never commits
      after that: over any run, retried or not, no commit of it ever completes with
      success. */
  lemma {:induction false} FailedTxnNeverCommits(env: Env, s: St, t: TxnId, ms: seq<Msg>)
    requires Spoiled(s, t) && s.txnSeq as int + BeginCount(ms) < TXN_ID_LIMIT
    ensures Spoiled(Run(env, s, ms).st, t) && NoCommitOf(Run(env, s, ms).done, t)
    decreases |ms|
  {
    hide Step;
    if ms != [] {
      SpoiledStep(env, s, ms[0], t);
      FailedTxnNeverCommits(env, Step(env, s, ms[0]).st, t, ms[1..]);
      hide Spoiled;
    }
  }

  /** So a transaction with sets is decided by its first commit that is not deferred: from
      then on it is gone, or carries the error of its failed start. */
  lemma FirstCommitDecides(env: Env, s: St, m: CommitTask)
    requires TableInOrder(s) && s.open && !Deferred(s, m)
    requires m.txn in s.txns && s.txns[m.txn].writes != []
    ensures Spoiled(CommitStep(env, s, m).st, m.txn)
  {
    if Runs(env, s, m) && s.queue != [] {
      SpoiledCommit(env, CommitOne(env, s, m).st.(queue := s.queue[1..]), s.queue[0], m.txn);
    }
  }

  /** Retrying the commit of a transaction that could not start, whatever is queued behind
      it: if TDB starts now, its first set is replayed, the old error is met, everything is
      rolled back, and the transaction is gone; only an empty one succeeds.  Then the
      deferred commits are served as if it had never been there.  If TDB does not start
      again, all stays as it was. */
  lemma StuckTxnCannotCommit(env: Env, s: St, m: CommitTask)
    requires s.open && s.txn == m.txn && m.txn in s.txns && s.txns[m.txn].error.Some?
    ensures env.tdb(s.calls) ==>
      var one := CommitOne(env, s, m);
      var rest := one.st.(queue := if s.queue == [] then [] else s.queue[1..]);
      && one.st == s.(calls := one.st.calls, txn := 0, txns := s.txns - {m.txn})
      && |one.done| > 0 && one.done[|one.done| - 1].msg == Commit(m)
      && (one.done[|one.done| - 1].outcome.Succeeded? ==> s.txns[m.txn].writes == [])
      && CommitStep(env, s, m) == if s.queue == [] then one else Then(one, CommitStep(env, rest, s.queue[0]))
    ensures !env.tdb(s.calls) ==>
      var r := CommitStep(env, s, m);
      && r.done == [Done(Commit(m), Failed(Some(StartFailed)))]
      && r.st == s.(calls := s.calls + 1, txns := r.st.txns) && r.st.txns.Keys == s.txns.Keys
      && r.st.txns[m.txn].error.Some? && r.st.txns[m.txn].writes == s.txns[m.txn].writes
  {
    if env.tdb(s.calls) {
      CommitAllOrNothing(env, s, m);
      assert ApplyAll(env.transform, s.db, []) == s.db;
      hide CommitOne;
    } else {
      assert m.txn != 0 ==> CommitStep(env, s, m).st.txns[m.txn].error == Some(StartFailed);
      assert CommitStep(env, s, m).st.txns.Keys == s.txns.Keys;
    }
  }

  function SetMsgs(ws: seq<SetTask>): (ms: seq<Msg>)
    ensures |ms| == |ws|
  {
    if ws == [] then [] else SetMsgs(ws[..|ws| - 1]) + [Set(ws[|ws| - 1])]
  }

  /** A transaction that could not start, after the sets `ws` that were posted since: they
      are in the records, and were not added to the ones it holds. */
  ghost predicate WrittenThrough(env: Env, s: St, ws: seq<SetTask>, r: St) {
    r == s.(db := ApplyAll(env.transform, s.db, ws), calls := s.calls + |ws|)
  }

  lemma {:induction false} StuckTxnWritesThrough(env: Env, s: St, t: TxnId, ws: seq<SetTask>)
    requires s.open && s.txn == t && t in s.txns
    requires AllCarry(ws, t) && AllGoThrough(env, s.calls, ws)
    ensures WrittenThrough(env, s, ws, Run(env, s, SetMsgs(ws)).st)
    decreases |ws|
  {
    hide Step, AllGoThrough;
    if ws != [] {
      var n := |ws| - 1;
      ButLastGoThrough(env, s.calls, ws);
      StuckTxnWritesThrough(env, s, t, ws[..n]);
      var mid := Run(env, s, SetMsgs(ws[..n])).st;
      RunAppend(env, s, SetMsgs(ws[..n]), [Set(ws[n])]);
      RunOne(env, mid, Set(ws[n]));
      hide Run;
      StuckSetStep(env, s, mid, ws);
    }
  }

  lemma ButLastGoThrough(env: Env, calls: nat, ws: seq<SetTask>)
    requires ws != [] && AllGoThrough(env, calls, ws)
    ensures var n := |ws| - 1;
      AllGoThrough(env, calls, ws[..n]) && FormOf(env.transform, ws[n].data).Stored? && env.tdb(calls + n)
  {
    var init := ws[..|ws| - 1];
    assert WriteGoesThrough(env, calls, ws, |ws| - 1);
    forall i | 0 <= i < |init| ensures WriteGoesThrough(env, calls, init, i) {
      assert WriteGoesThrough(env, calls, ws, i);
    }
  }

  lemma StuckSetStep(env: Env, s: St, mid: St, ws: seq<SetTask>)
    requires s.open && ws != [] && ws[|ws| - 1].txn == s.txn
    requires WrittenThrough(env, s, ws[..|ws| - 1], mid)
    requires FormOf(env.transform, ws[|ws| - 1].data).Stored? && env.tdb(s.calls + |ws| - 1)
    ensures WrittenThrough(env, s, ws, Step(env, mid, Set(ws[|ws| - 1])).st)
  {}

  /** So such a transaction is not atomic: the sets posted before its commit could not start
      are lost, those posted after it stay in the records when it is cancelled, and also
      when its commit is retried and fails. */
  lemma StuckTxnIsNotAtomic(env: Env, s: St, t: TxnId, ws: seq<SetTask>, id: nat)
    requires s.open && s.txn == t && t in s.txns && s.txns[t].error.Some? && s.txns[t].writes != []
    requires AllCarry(ws, t) && AllGoThrough(env, s.calls, ws)
    ensures var mid := Run(env, s, SetMsgs(ws)).st;
      var now := ApplyAll(env.transform, s.db, ws);
      && mid.db == now
      && (var r := CancelStep(mid, Cancel(id, t));
          r.st.db == now && t !in r.st.txns && r.lost == WriteIds(s.txns[t].writes))
      && (var r := CommitOne(env, mid, CommitTask(id, t));
          |r.done| > 0 && r.done[|r.done| - 1].outcome.Failed? && r.st.db == now && t !in r.st.txns)
  {
    StuckTxnWritesThrough(env, s, t, ws);
    var mid := Run(env, s, SetMsgs(ws)).st;
    hide Run, ApplyAll, WriteIds;
    CommitAllOrNothing(env, mid, CommitTask(id, t));
    hide CommitOne;
  }

  // ----- a storage whose current transaction does not exist -----

  predicate Wedged(s: St) {
    s.open && s.txn != 0 && s.txn !in s.txns
  }

  /** From idle, exactly the commits of ids that do not exist lead there. */
  lemma WedgedExactly(env: Env, s: St, m: Msg)
    requires Idle(s)
    ensures Wedged(Step(env, s, m).st) <==> m.Commit? && m.commit.txn != 0 && m.commit.txn !in s.txns
  {}

  /** From a live current transaction, one that could not start, exactly its cancel does so
      among the messages that do not commit, although this is what a refused close asks for. */
  lemma CancelWedges(env: Env, s: St, m: Msg)
    requires s.open && s.txn != 0 && s.txn in s.txns && !m.Commit?
    ensures Wedged(Step(env, s, m).st) <==> m.Cancel? && m.txn == s.txn
  {}

  /** How many begins it takes to hand out the id `t` after `last`. */
  function Ahead(last: TxnId, t: TxnId): nat {
    if t > last then t - last else t + TXN_ID_LIMIT - last
  }

  /** How many it takes to hand out the id of the current transaction. */
  function Distance(s: St): nat {
    Ahead(s.txnSeq, s.txn)
  }

  /** What a wedged storage can still answer: plain sets get no answer at all. */
  ghost predicate WedgedAnswer(s: St, d: Done) {
    match d.msg
    case Open(_) => d.outcome == Failed(Some(StateError))
    case Close(_) => d.outcome == Failed(Some(StateError))
    case Set(w) => w.txn != 0 && (w.txn == s.txn || d.outcome == Failed(Some(NoSuchTxn)))
    case Commit(c) => c.txn == s.txn && d.outcome == Failed(Some(StateError))
    case _ => true
  }

  /** What a message `m` may do to a wedged storage. */
  ghost predicate WedgedResult(s: St, m: Msg, r: Result) {
    && (Wedged(r.st) <==> !(m.Begin? && Distance(s) == 1))
    && r.st.txn == s.txn && s.queue <= r.st.queue
    && (Wedged(r.st) ==> Distance(r.st) == Distance(s) - if m.Begin? then 1 else 0)
    && (r.st.db != s.db ==> m.Set? && m.write.txn == s.txn)
    && (m.Set? && m.write.txn == 0 ==> r == Result(s, [], multiset{m.write.id}))
    && forall i :: 0 <= i < |r.done| ==> WedgedAnswer(s, r.done[i])
  }

  lemma WedgedSet(env: Env, s: St, w: SetTask)
    requires Wedged(s)
    ensures WedgedResult(s, Set(w), SetStep(env, s, w))
  {
    hide WriteOne;
  }

  lemma WedgedCommit(env: Env, s: St, c: CommitTask)
    requires Wedged(s)
    ensures WedgedResult(s, Commit(c), CommitStep(env, s, c))
  {
    assert CommitStep(env, s, c) ==
      if c.txn == s.txn then Result(s, [Done(Commit(c), Failed(Some(StateError)))], multiset{})
      else Result(s.(queue := s.queue + [c]), [], multiset{});
    hide CommitStep;
  }

  lemma WedgedTable(s: St, m: Msg)
    requires Wedged(s) && (m.Begin? || m.Cancel?)
    ensures WedgedResult(s, m, if m.Begin? then BeginStep(s, m) else CancelStep(s, m))
  {
    hide WriteIds;
  }

  /** One message on a wedged storage: exactly a begin that hands out the id changes that. */
  lemma WedgedStep(env: Env, s: St, m: Msg)
    requires Wedged(s)
    ensures WedgedResult(s, m, Step(env, s, m))
  {
    if m.Set? {
      WedgedSet(env, s, m.write);
    } else if m.Commit? {
      WedgedCommit(env, s, m.commit);
    } else if m.Begin? || m.Cancel? {
      WedgedTable(s, m);
    }
    hide SetStep, CommitStep, BeginStep, CancelStep, WriteIds, Held;
  }

  ghost predicate WedgedThroughout(env: Env, s: St, ms: seq<Msg>)
    decreases |ms|
  {
    Wedged(s) && (ms == [] || WedgedThroughout(env, Step(env, s, ms[0]).st, ms[1..]))
  }

  /** How long a storage stays wedged: exactly until a begin hands out the id. */
  lemma {:induction false} WedgedExactlyWhile(env: Env, s: St, ms: seq<Msg>)
    requires Wedged(s)
    ensures WedgedThroughout(env, s, ms) <==> BeginCount(ms) < Distance(s)
    decreases |ms|
  {
    hide Step, Wedged;
    if ms != [] {
      WedgedStep(env, s, ms[0]);
      if Wedged(Step(env, s, ms[0]).st) {
        WedgedExactlyWhile(env, Step(env, s, ms[0]).st, ms[1..]);
      } else {
        NotWedgedThroughout(env, Step(env, s, ms[0]).st, ms[1..]);
      }
    }
  }

  lemma NotWedgedThroughout(env: Env, s: St, ms: seq<Msg>)
    requires !Wedged(s)
    ensures !WedgedThroughout(env, s, ms)
  {}

  /** As long as that takes, the storage cannot be closed, no deferred commit is served, no
      other transaction can commit, plain sets vanish without an answer, and the records
      only change through sets that carry the id that does not exist. */
  lemma {:induction false} WhileWedged(env: Env, s: St, ms: seq<Msg>)
    requires Wedged(s) && BeginCount(ms) < Distance(s)
    ensures var r := Run(env, s, ms);
      && Wedged(r.st) && r.st.txn == s.txn && s.queue <= r.st.queue
      && ((forall i :: 0 <= i < |ms| ==> ms[i].Set? ==> ms[i].write.txn != s.txn) ==> r.st.db == s.db)
      && forall i :: 0 <= i < |r.done| ==> WedgedAnswer(s, r.done[i])
    decreases |ms|
  {
    if ms != [] {
      WedgedStep(env, s, ms[0]);
      WhileWedged(env, Step(env, s, ms[0]).st, ms[1..]);
      hide Step;
    }
  }

  /** And then the new transaction can be committed, and the queue is drained. */
  lemma BeginEndsWedge(env: Env, s: St, id: nat, c: CommitTask)
    requires Wedged(s) && Distance(s) == 1 && c.txn == s.txn
    requires env.tdb(s.calls) && env.tdb(s.calls + 1)
    ensures var begun := Step(env, s, Begin(id));
      var r := CommitStep(env, begun.st, c);
      && begun.done == [Done(Begin(id), Succeeded(Number(s.txn)))]
      && |r.done| > 0 && r.done[0] == Done(Commit(c), Succeeded(NoData))
      && (s.queue == [] ==> Idle(r.st))
      && (s.queue != [] ==> s.queue[0] in CommitsDone(r.done))
  {
    var begun := Step(env, s, Begin(id)).st;
    assert env.tdb(begun.calls + 1 + |begun.txns[c.txn].writes|);
    CommitSucceeds(env, begun, c);
    assert SetsDone([]) == [];
    hide CommitOne, CommitsDone, ApplyAll;
    DrainIsFifo(env, begun, c);
    if s.queue != [] {
      DrainGoesOn(env, begun, c);
    }
  }

  /** After a commit that runs, the first deferred one is not deferred again. */
  lemma DrainGoesOn(env: Env, s: St, m: CommitTask)
    requires Runs(env, s, m) && s.queue != []
    ensures s.queue[0] in CommitsDone(CommitStep(env, s, m).done)
  {
    hide CommitOne, CommitsDone;
    var one := CommitOne(env, s, m);
    CommitOneSettles(env, s, m);
    var s' := one.st.(queue := s.queue[1..]);
    DrainIsFifo(env, s', s.queue[0]);
    CommitsDoneAppend(one.done, CommitStep(env, s', s.queue[0]).done);
    assert CommitsDone(CommitStep(env, s', s.queue[0]).done)[0] == s.queue[0];
  }
}
