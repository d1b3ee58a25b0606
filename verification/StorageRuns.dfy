/** Runs, and what every run keeps about the queue of deferred commits: when it can only be
    non-empty behind a current transaction, and that a closed storage holds nothing. */
module StorageRuns {
  import opened Wrappers
  import opened StorageSpec

  // ----- runs -----

  lemma {:induction false} RunAppend(env: Env, s: St, a: seq<Msg>, b: seq<Msg>)
    ensures Run(env, s, a + b) == Then(Run(env, s, a), Run(env, Run(env, s, a).st, b))
    decreases |a|
  {
    hide Step;
    if a == [] {
      assert a + b == b;
    } else {
      assert (a + b)[1..] == a[1..] + b;
      RunAppend(env, Step(env, s, a[0]).st, a[1..], b);
    }
  }

  lemma RunOne(env: Env, s: St, m: Msg)
    ensures Run(env, s, [m]) == Step(env, s, m)
  {
    hide Step;
    var r := Step(env, s, m);
    assert r.done + [] == r.done;
  }

  // ----- a closed storage -----

  predicate ClosedIsEmpty(s: St) {
    !s.open ==> s.txn == 0 && s.txns == map[]
  }

  lemma {:induction false} CommitKeepsOpen(env: Env, s: St, m: CommitTask)
    ensures CommitStep(env, s, m).st.open == s.open
    decreases |s.queue|
  {
    if Runs(env, s, m) && s.queue != [] {
      CommitKeepsOpen(env, CommitOne(env, s, m).st.(queue := s.queue[1..]), s.queue[0]);
    }
  }

  lemma StepKeepsClosedEmpty(env: Env, s: St, m: Msg)
    requires ClosedIsEmpty(s)
    ensures ClosedIsEmpty(Step(env, s, m).st)
  {
    if m.Commit? {
      CommitKeepsOpen(env, s, m.commit);
    }
  }

  lemma {:induction false} RunKeepsClosedEmpty(env: Env, s: St, ms: seq<Msg>)
    requires ClosedIsEmpty(s)
    ensures ClosedIsEmpty(Run(env, s, ms).st)
    decreases |ms|
  {
    if ms != [] {
      StepKeepsClosedEmpty(env, s, ms[0]);
      RunKeepsClosedEmpty(env, Step(env, s, ms[0]).st, ms[1..]);
    }
  }

  // ----- the queue of deferred commits -----

  predicate QueueNeedsTxn(s: St) {
    s.txn == 0 ==> s.queue == []
  }

  predicate NoZeroQueued(s: St) {
    forall i :: 0 <= i < |s.queue| ==> s.queue[i].txn != 0
  }

  predicate NoZeroCommit(ms: seq<Msg>) {
    forall i :: 0 <= i < |ms| ==> ms[i].Commit? ==> ms[i].commit.txn != 0
  }

  /** Every commit in the run names an id of `ids`. */
  ghost predicate CommitsWithin(ms: seq<Msg>, ids: iset<TxnId>) {
    forall i :: 0 <= i < |ms| ==> ms[i].Commit? ==> ms[i].commit.txn in ids
  }

  lemma {:induction false} CommitKeepsQueue(env: Env, s: St, m: CommitTask)
    requires s.open && NoZeroQueued(s) && m.txn != 0
    ensures QueueNeedsTxn(CommitStep(env, s, m).st) && NoZeroQueued(CommitStep(env, s, m).st)
    decreases |s.queue|
  {
    if Runs(env, s, m) && s.queue != [] {
      CommitKeepsQueue(env, CommitOne(env, s, m).st.(queue := s.queue[1..]), s.queue[0]);
    }
  }

  lemma StepKeepsQueue(env: Env, s: St, m: Msg)
    requires QueueNeedsTxn(s) && NoZeroQueued(s)
    requires m.Commit? ==> m.commit.txn != 0
    ensures QueueNeedsTxn(Step(env, s, m).st) && NoZeroQueued(Step(env, s, m).st)
  {
    if m.Commit? && s.open {
      CommitKeepsQueue(env, s, m.commit);
    }
  }

  lemma {:induction false} RunKeepsQueue(env: Env, s: St, ms: seq<Msg>)
    requires QueueNeedsTxn(s) && NoZeroQueued(s) && NoZeroCommit(ms)
    ensures QueueNeedsTxn(Run(env, s, ms).st) && NoZeroQueued(Run(env, s, ms).st)
    decreases |ms|
  {
    if ms != [] {
      StepKeepsQueue(env, s, ms[0]);
      RunKeepsQueue(env, Step(env, s, ms[0]).st, ms[1..]);
    }
  }

  /** As long as nobody commits the id 0, which no transaction has, a storage without a
      current transaction has no deferred commit, and a closed one holds nothing. */
  lemma NothingPendingWithoutTxn(env: Env, db: Db, ms: seq<Msg>)
    requires NoZeroCommit(ms)
    ensures var s := Run(env, Init(db), ms).st;
      && (s.txn == 0 ==> s.queue == [])
      && (!s.open ==> s.txn == 0 && s.txns == map[] && s.queue == [])
  {
    RunKeepsQueue(env, Init(db), ms);
    RunKeepsClosedEmpty(env, Init(db), ms);
  }

  /** So a close that succeeds loses no buffered write and no deferred commit, and the
      clean-up at the next open finds nothing to throw away. */
  lemma CloseLosesNothing(env: Env, db: Db, ms: seq<Msg>, id: nat)
    requires NoZeroCommit(ms)
    ensures var r := Step(env, Run(env, Init(db), ms).st, Close(id));
      r.done == [Done(Close(id), Succeeded(NoData))] ==>
        Run(env, Init(db), ms).st.txns == map[] && Run(env, Init(db), ms).st.queue == []
    ensures var r := Step(env, Run(env, Init(db), ms).st, Open(id));
      r.lost == multiset{}
  {
    NothingPendingWithoutTxn(env, db, ms);
  }

  // ----- why the id 0 has to be excluded -----

  const ALL_SUCCEED := Env((i: nat) => true, NoTransform)

  /** `n` begins in a row, all posted under `id`. */
  function Begins(n: nat, id: nat): (ms: seq<Msg>)
    ensures |ms| == n
    ensures forall i :: 0 <= i < n ==> ms[i] == Begin(id)
  {
    if n == 0 then [] else Begins(n - 1, id) + [Begin(id)]
  }

  lemma BeginsNext(env: Env, s: St, n: nat, id: nat)
    requires n > 0
    ensures Run(env, s, Begins(n, id)).st == BeginStep(Run(env, s, Begins(n - 1, id)).st, Begin(id)).st
  {
    hide BeginStep;
    RunAppend(env, s, Begins(n - 1, id), [Begin(id)]);
    RunOne(env, Run(env, s, Begins(n - 1, id)).st, Begin(id));
  }

  /** `r` is `s` after n begins. */
  ghost predicate BegunTimes(s: St, n: nat, r: St) {
    && s.txnSeq as int + n < TXN_ID_LIMIT
    && r == s.(txnSeq := s.txnSeq + n, txns := r.txns)
    && (0 !in s.txns ==> 0 !in r.txns)
    && (n > 0 ==> s.txnSeq + n in r.txns && r.txns[s.txnSeq + n] == Pending([], None))
  }

  lemma BegunOnceMore(s: St, n: nat, r: St)
    requires s.open && BegunTimes(s, n, r) && s.txnSeq as int + n + 1 < TXN_ID_LIMIT
    ensures BegunTimes(s, n + 1, BeginStep(r, Begin(0)).st)
  {}

  lemma {:induction false} BeginsCount(env: Env, s: St, n: nat)
    requires s.open && s.txnSeq as int + n < TXN_ID_LIMIT
    ensures BegunTimes(s, n, Run(env, s, Begins(n, 0)).st)
  {
    if n > 0 {
      hide *;
      BeginsCount(env, s, n - 1);
      BeginsNext(env, s, n, 0);
      BegunOnceMore(s, n - 1, Run(env, s, Begins(n - 1, 0)).st);
    }
  }

  function ZeroCommitRun(t: TxnId): seq<Msg> {
    [Open(0), Commit(CommitTask(1, t)), Commit(CommitTask(2, 0)), Commit(CommitTask(3, 0))]
    + Begins(t, 0) + [Commit(CommitTask(4, t))]
  }

  /** Two commits of the id 0 wait behind a commit of the unknown id `t`.  Once `t` exists
      and commits, the first of them stops the drain and leaves the second one behind in
      the queue of a storage that has no current transaction. */
  lemma ZeroCommitBreaks(t: TxnId)
    requires t != 0
    ensures CommitsWithin(ZeroCommitRun(t), iset{0, t})
    ensures !QueueNeedsTxn(Run(ALL_SUCCEED, Init(map[]), ZeroCommitRun(t)).st)
  {
    var env := ALL_SUCCEED;
    var head := [Open(0), Commit(CommitTask(1, t)), Commit(CommitTask(2, 0)), Commit(CommitTask(3, 0))];
    var s := St(true, map[], 1, 0, t, [CommitTask(2, 0), CommitTask(3, 0)], map[]);
    ZeroCommitHead(t);
    BeginsCount(env, s, t);
    var b := Run(env, s, Begins(t, 0)).st;
    var last := CommitTask(4, t);
    assert CommitStep(env, b, last).st.txn == 0;
    assert CommitStep(env, b, last).st.queue == [CommitTask(3, 0)];
    hide Step, Run;
    RunOne(env, b, Commit(last));
    RunAppend(env, Init(map[]), head, Begins(t, 0));
    RunAppend(env, Init(map[]), head + Begins(t, 0), [Commit(last)]);
    StepCommit(env, b, last);
  }

  lemma StepCommit(env: Env, s: St, m: CommitTask)
    ensures Step(env, s, Commit(m)) == CommitStep(env, s, m)
  {}

  lemma ZeroCommitHead(t: TxnId)
    requires t != 0
    ensures Run(ALL_SUCCEED, Init(map[]),
        [Open(0), Commit(CommitTask(1, t)), Commit(CommitTask(2, 0)), Commit(CommitTask(3, 0))]).st ==
      St(true, map[], 1, 0, t, [CommitTask(2, 0), CommitTask(3, 0)], map[])
  {
    var env := ALL_SUCCEED;
    var s0 := Init(map[]);
    var m0, m1, m2, m3 := Open(0), Commit(CommitTask(1, t)), Commit(CommitTask(2, 0)), Commit(CommitTask(3, 0));
    var s1 := Step(env, s0, m0).st;
    var s2 := Step(env, s1, m1).st;
    var s3 := Step(env, s2, m2).st;
    assert Step(env, s3, m3).st == St(true, map[], 1, 0, t, [CommitTask(2, 0), CommitTask(3, 0)], map[]);
    hide Step, Run;
    RunOne(env, s0, m0);
    RunOne(env, s1, m1);
    RunOne(env, s2, m2);
    RunOne(env, s3, m3);
    RunAppend(env, s0, [m0], [m1]);
    RunAppend(env, s0, [m0] + [m1], [m2]);
    RunAppend(env, s0, [m0] + [m1] + [m2], [m3]);
    assert [m0, m1, m2, m3] == [m0] + [m1] + [m2] + [m3];
  }

  lemma {:induction false} OnlyZeroCommits(env: Env, s: St, ms: seq<Msg>)
    requires s.txn == 0 && s.queue == [] && CommitsWithin(ms, iset{0})
    ensures QueueNeedsTxn(Run(env, s, ms).st)
    decreases |ms|
  {
    if ms != [] {
      OnlyZeroCommits(env, Step(env, s, ms[0]).st, ms[1..]);
    }
  }

  ghost predicate QueueHoldsFor(ids: iset<TxnId>) {
    forall env, db, ms :: CommitsWithin(ms, ids) ==> QueueNeedsTxn(Run(env, Init(db), ms).st)
  }

  /** Which ids clients may commit for the queue invariant to hold in all their runs. */
  lemma QueueHoldsExactly(ids: iset<TxnId>)
    ensures QueueHoldsFor(ids) <==> 0 !in ids || ids == iset{0}
  {
    if 0 !in ids {
      forall env, db, ms | CommitsWithin(ms, ids) ensures QueueNeedsTxn(Run(env, Init(db), ms).st) {
        RunKeepsQueue(env, Init(db), ms);
      }
    } else if ids == iset{0} {
      forall env, db, ms | CommitsWithin(ms, ids) ensures QueueNeedsTxn(Run(env, Init(db), ms).st) {
        OnlyZeroCommits(env, Init(db), ms);
      }
    } else {
      var t :| t in ids && t != 0;
      ZeroCommitBreaks(t);
      assert CommitsWithin(ZeroCommitRun(t), ids);
    }
  }
}
