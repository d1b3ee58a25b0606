/** Cancelled transactions leave no trace: the sets of a transaction that nobody commits
    can be deleted from the run without anybody else noticing. */
module StorageErasure {
  import opened StorageSpec
  import opened StorageRuns

  predicate IsSetOf(m: Msg, t: TxnId) {
    m.Set? && m.write.txn == t
  }

  /** The run without the sets of `t`. */
  function Erase(ms: seq<Msg>, t: TxnId): seq<Msg> {
    if ms == [] then []
    else if IsSetOf(ms[0], t) then Erase(ms[1..], t)
    else [ms[0]] + Erase(ms[1..], t)
  }

  /** The completions of everybody but the sets of `t`. */
  function DoneByOthers(ds: seq<Done>, t: TxnId): seq<Done> {
    if ds == [] then []
    else (if IsSetOf(ds[0].msg, t) then [] else [ds[0]]) + DoneByOthers(ds[1..], t)
  }

  /** No commit of `t` completes: those that were posted wait in the queue. */
  predicate NoneServed(ds: seq<Done>, t: TxnId) {
    forall i :: 0 <= i < |ds| ==> ds[i].msg.Commit? ==> ds[i].msg.commit.txn != t
  }

  lemma NoneServedSplit(a: seq<Done>, b: seq<Done>, t: TxnId)
    requires NoneServed(a + b, t)
    ensures NoneServed(a, t) && NoneServed(b, t)
  {
    forall i | 0 <= i < |a| ensures a[i].msg.Commit? ==> a[i].msg.commit.txn != t {
      assert (a + b)[i] == a[i];
    }
    forall i | 0 <= i < |b| ensures b[i].msg.Commit? ==> b[i].msg.commit.txn != t {
      assert (a + b)[|a| + i] == b[i];
    }
  }

  predicate SamePending(a: Pending, b: Pending, writesToo: bool) {
    a.error == b.error && (writesToo ==> a.writes == b.writes)
  }

  /** Two states that differ at most in what `t` has buffered. */
  ghost predicate AlikeBut(a: St, b: St, t: TxnId) {
    && a == b.(txns := a.txns)
    && (forall u :: u in a.txns <==> u in b.txns)
    && (forall u :: u in a.txns ==> SamePending(a.txns[u], b.txns[u], u != t))
  }

  lemma AlikeCommitOne(env: Env, a: St, b: St, t: TxnId, m: CommitTask)
    requires AlikeBut(a, b, t) && m.txn != t && m.txn in a.txns
    ensures AlikeBut(CommitOne(env, a, m).st, CommitOne(env, b, m).st, t)
    ensures CommitOne(env, a, m).done == CommitOne(env, b, m).done
  {
    assert SamePending(a.txns[m.txn], b.txns[m.txn], true);
    hide Replay;
  }

  lemma AlikeFail(a: St, b: St, t: TxnId, a': St, b': St, m: Msg, u: TxnId, e: Error)
    requires AlikeBut(a, b, t)
    requires a' == a.(txn := a'.txn, calls := a'.calls) && b' == b.(txn := a'.txn, calls := a'.calls)
    ensures AlikeBut(Fail(a', m, u, e).st, Fail(b', m, u, e).st, t)
    ensures Fail(a', m, u, e).done == Fail(b', m, u, e).done
  {}

  lemma AlikeEarly(env: Env, a: St, b: St, t: TxnId, m: CommitTask)
    requires AlikeBut(a, b, t) && a.txn != t && !Runs(env, a, m)
    requires NoneServed(CommitStep(env, a, m).done, t)
    ensures AlikeBut(CommitStep(env, a, m).st, CommitStep(env, b, m).st, t)
    ensures CommitStep(env, a, m).done == CommitStep(env, b, m).done
    ensures CommitStep(env, a, m).st.txn != t
  {
    if !Deferred(a, m) {
      assert CommitStep(env, a, m).done[0].msg == Commit(m);
    }
    AlikeFail(a, b, t, a, b, Commit(m), m.txn, StateError);
    AlikeFail(a, b, t, a.(txn := m.txn), b.(txn := m.txn), Commit(m), m.txn, StateError);
    AlikeFail(a, b, t, a.(txn := m.txn, calls := a.calls + 1), b.(txn := m.txn, calls := a.calls + 1),
              Commit(m), m.txn, StartFailed);
    hide Fail;
  }

  lemma {:induction false} AlikeCommit(env: Env, a: St, b: St, t: TxnId, m: CommitTask)
    requires AlikeBut(a, b, t) && a.txn != t && t != 0
    requires NoneServed(CommitStep(env, a, m).done, t)
    ensures AlikeBut(CommitStep(env, a, m).st, CommitStep(env, b, m).st, t)
    ensures CommitStep(env, a, m).done == CommitStep(env, b, m).done
    ensures CommitStep(env, a, m).st.txn != t
    decreases |a.queue|
  {
    if !Runs(env, a, m) {
      AlikeEarly(env, a, b, t, m);
    } else {
      var one := CommitOne(env, a, m);
      CommitOneFrame(env, a, m);
      CommitOneFrame(env, b, m);
      hide CommitOne, AlikeBut, NoneServed;
      if a.queue == [] {
        OwnCommitIsOther(env, a, m, t);
        AlikeCommitOne(env, a, b, t, m);
      } else {
        var a' := one.st.(queue := a.queue[1..]);
        var b' := CommitOne(env, b, m).st.(queue := a.queue[1..]);
        NoneServedSplit(one.done, CommitStep(env, a', a.queue[0]).done, t);
        OwnCommitIsOther(env, a, m, t);
        AlikeCommitOne(env, a, b, t, m);
        AlikeQueue(one.st, CommitOne(env, b, m).st, a.queue[1..], t);
        AlikeCommit(env, a', b', t, a.queue[0]);
      }
      AlikeRuns(env, a, b, t, m);
    }
  }

  lemma AlikeRuns(env: Env, a: St, b: St, t: TxnId, m: CommitTask)
    requires AlikeBut(a, b, t)
    ensures Runs(env, a, m) == Runs(env, b, m) && a.queue == b.queue
  {}

  lemma AlikeQueue(a: St, b: St, queue: seq<CommitTask>, t: TxnId)
    requires AlikeBut(a, b, t)
    ensures AlikeBut(a.(queue := queue), b.(queue := queue), t)
  {}

  /** A commit that runs completes, so it is not one of `t`. */
  lemma OwnCommitIsOther(env: Env, s: St, m: CommitTask, t: TxnId)
    requires m.txn in s.txns && NoneServed(CommitOne(env, s, m).done, t)
    ensures m.txn != t
  {
    hide Replay;
    var ds := CommitOne(env, s, m).done;
    assert ds[|ds| - 1].msg == Commit(m);
  }

  lemma CommitOneFrame(env: Env, s: St, m: CommitTask)
    requires m.txn in s.txns
    ensures CommitOne(env, s, m).st.queue == s.queue && CommitOne(env, s, m).st.txn == 0
  {}

  lemma AlikeSet(env: Env, a: St, b: St, t: TxnId, w: SetTask)
    requires AlikeBut(a, b, t) && a.txn != t && t != 0 && w.txn != t
    ensures AlikeBut(SetStep(env, a, w).st, SetStep(env, b, w).st, t)
    ensures SetStep(env, a, w).done == SetStep(env, b, w).done
    ensures SetStep(env, a, w).st.txn != t
  {
    assert w.txn in a.txns ==> SamePending(a.txns[w.txn], b.txns[w.txn], true);
  }

  lemma AlikeEmpty(a: St, b: St, t: TxnId)
    requires AlikeBut(a, b, t)
    ensures a.txns == map[] <==> b.txns == map[]
  {
    if a.txns != map[] {
      var u :| u in a.txns;
      assert u in b.txns;
    }
    if b.txns != map[] {
      var u :| u in b.txns;
      assert u in a.txns;
    }
  }

  lemma AlikeTable(env: Env, a: St, b: St, t: TxnId, m: Msg)
    requires AlikeBut(a, b, t) && a.txn != t && t != 0
    requires m.Begin? || m.Cancel?
    ensures AlikeBut(Step(env, a, m).st, Step(env, b, m).st, t)
    ensures Step(env, a, m).done == Step(env, b, m).done
    ensures Step(env, a, m).st.txn != t
  {
    hide WriteIds, SetStep, CommitStep, OpenStep, CloseStep;
  }

  lemma AlikeOpen(env: Env, a: St, b: St, t: TxnId, m: Msg)
    requires AlikeBut(a, b, t) && a.txn != t && t != 0 && m.Open?
    ensures AlikeBut(OpenStep(env, a, m).st, OpenStep(env, b, m).st, t)
    ensures OpenStep(env, a, m).done == OpenStep(env, b, m).done
    ensures OpenStep(env, a, m).st.txn != t
  {
    hide Held;
  }

  lemma AlikeClose(env: Env, a: St, b: St, t: TxnId, m: Msg)
    requires AlikeBut(a, b, t) && a.txn != t && t != 0 && m.Close?
    ensures AlikeBut(CloseStep(env, a, m).st, CloseStep(env, b, m).st, t)
    ensures CloseStep(env, a, m).done == CloseStep(env, b, m).done
    ensures CloseStep(env, a, m).st.txn != t
  {
    AlikeEmpty(a, b, t);
  }

  lemma AlikeRead(env: Env, a: St, b: St, t: TxnId, m: Msg)
    requires AlikeBut(a, b, t) && (m.Get? || m.CountKeys?)
    ensures Step(env, a, m).st == a && Step(env, b, m).st == b
    ensures Step(env, a, m).done == Step(env, b, m).done
  {
    hide SetStep, CommitStep, BeginStep, CancelStep, OpenStep, CloseStep;
    assert a.db == b.db && a.open == b.open;
  }

  /** Every message that is not a set of `t` and serves no commit of it does the same in both
      states. */
  lemma AlikeStep(env: Env, a: St, b: St, t: TxnId, m: Msg)
    requires AlikeBut(a, b, t) && a.txn != t && t != 0
    requires !IsSetOf(m, t) && NoneServed(Step(env, a, m).done, t)
    ensures AlikeBut(Step(env, a, m).st, Step(env, b, m).st, t)
    ensures Step(env, a, m).done == Step(env, b, m).done
    ensures Step(env, a, m).st.txn != t
  {
    hide SetStep, CommitStep, OpenStep, CloseStep, BeginStep, CancelStep, AlikeBut;
    if m.Commit? {
      AlikeCommit(env, a, b, t, m.commit);
    } else if m.Set? {
      AlikeSet(env, a, b, t, m.write);
    } else if m.Begin? || m.Cancel? {
      AlikeTable(env, a, b, t, m);
    } else if m.Get? || m.CountKeys? {
      AlikeRead(env, a, b, t, m);
    } else if m.Open? {
      AlikeOpen(env, a, b, t, m);
    } else {
      AlikeClose(env, a, b, t, m);
    }
  }

  /** A set of `t` itself is buffered or refused, and nobody else is told. */
  lemma ErasedStep(env: Env, a: St, b: St, t: TxnId, w: SetTask)
    requires AlikeBut(a, b, t) && a.txn != t && t != 0 && w.txn == t
    requires ClosedIsEmpty(a)
    ensures AlikeBut(SetStep(env, a, w).st, b, t) && SetStep(env, a, w).st.txn != t
    ensures DoneByOthers(SetStep(env, a, w).done, t) == []
  {
    var r := SetStep(env, a, w);
    if r.done != [] {
      assert r.done[1..] == [];
    }
  }

  lemma {:induction false} DoneByOthersAppend(x: seq<Done>, y: seq<Done>, t: TxnId)
    ensures DoneByOthers(x + y, t) == DoneByOthers(x, t) + DoneByOthers(y, t)
  {
    if x == [] {
      assert x + y == y;
    } else {
      assert (x + y)[1..] == x[1..] + y;
      DoneByOthersAppend(x[1..], y, t);
    }
  }

  lemma {:induction false} ErasureRun(env: Env, a: St, b: St, t: TxnId, ms: seq<Msg>)
    requires AlikeBut(a, b, t) && a.txn != t && t != 0 && NoneServed(Run(env, a, ms).done, t)
    requires ClosedIsEmpty(a)
    ensures AlikeBut(Run(env, a, ms).st, Run(env, b, Erase(ms, t)).st, t)
    ensures DoneByOthers(Run(env, a, ms).done, t) == DoneByOthers(Run(env, b, Erase(ms, t)).done, t)
    decreases |ms|
  {
    hide Step, AlikeBut, NoneServed, DoneByOthers, ClosedIsEmpty;
    if ms != [] {
      var ra := Step(env, a, ms[0]);
      StepKeepsClosedEmpty(env, a, ms[0]);
      NoneServedSplit(ra.done, Run(env, ra.st, ms[1..]).done, t);
      if IsSetOf(ms[0], t) {
        ErasedStep(env, a, b, t, ms[0].write);
        StepSet(env, a, ms[0].write);
        ErasureRun(env, ra.st, b, t, ms[1..]);
      } else {
        var rb := Step(env, b, ms[0]);
        AlikeStep(env, a, b, t, ms[0]);
        ErasureRun(env, ra.st, rb.st, t, ms[1..]);
        assert Erase(ms, t)[1..] == Erase(ms[1..], t);
        DoneByOthersAppend(rb.done, Run(env, rb.st, Erase(ms[1..], t)).done, t);
      }
      DoneByOthersAppend(ra.done, Run(env, ra.st, ms[1..]).done, t);
    }
  }

  lemma StepSet(env: Env, s: St, w: SetTask)
    ensures Step(env, s, Set(w)) == SetStep(env, s, w)
  {}

  lemma AlikeCancel(env: Env, a: St, b: St, t: TxnId, id: nat)
    requires AlikeBut(a, b, t) && ClosedIsEmpty(a)
    ensures Step(env, a, Cancel(id, t)).st == Step(env, b, Cancel(id, t)).st
    ensures Step(env, a, Cancel(id, t)).done == Step(env, b, Cancel(id, t)).done
  {
    AlikeEmpty(a, b, t);
    assert a.txns - {t} == b.txns - {t} by {
      forall u | u in a.txns && u != t ensures a.txns[u] == b.txns[u] {
        assert SamePending(a.txns[u], b.txns[u], true);
      }
    }
    assert t !in a.txns ==> a.txns == a.txns - {t} && b.txns == b.txns - {t};
    hide WriteIds;
  }

  /** A transaction that is cancelled before a commit of it is served, none having been posted or
      all still waiting in the queue, might as well have had no sets: the run without them
      ends in the same state, and every other task completes with the same outcome, in
      the same order, also when the deferred commits are served later. */
  lemma CancelledTxnLeavesNoTrace(env: Env, s: St, t: TxnId, ms: seq<Msg>, id: nat, rest: seq<Msg>)
    requires ClosedIsEmpty(s) && s.txn != t && t != 0 && NoneServed(Run(env, s, ms).done, t)
    ensures var with := Run(env, s, ms + [Cancel(id, t)] + rest);
      var without := Run(env, s, Erase(ms, t) + [Cancel(id, t)] + rest);
      with.st == without.st && DoneByOthers(with.done, t) == DoneByOthers(without.done, t)
  {
    var c := Cancel(id, t);
    var a, b := Run(env, s, ms), Run(env, s, Erase(ms, t));
    assert AlikeBut(s, s, t);
    ErasureRun(env, s, s, t, ms);
    RunKeepsClosedEmpty(env, s, ms);
    AlikeCancel(env, a.st, b.st, t, id);
    hide Step, Run, AlikeBut, DoneByOthers, Erase;
    CancelThen(env, s, ms, c, rest, t);
    CancelThen(env, s, Erase(ms, t), c, rest, t);
  }

  lemma CancelThen(env: Env, s: St, ms: seq<Msg>, c: Msg, rest: seq<Msg>, t: TxnId)
    ensures var r := Run(env, s, ms + [c] + rest);
      var mid := Step(env, Run(env, s, ms).st, c);
      var last := Run(env, mid.st, rest);
      && r.st == last.st
      && DoneByOthers(r.done, t) ==
           DoneByOthers(Run(env, s, ms).done, t) + DoneByOthers(mid.done, t) + DoneByOthers(last.done, t)
  {
    hide Step, Run, DoneByOthers;
    var first := Run(env, s, ms);
    var mid := Step(env, first.st, c);
    RunAppend(env, s, ms + [c], rest);
    RunAppend(env, s, ms, [c]);
    RunOne(env, first.st, c);
    DoneByOthersAppend(first.done, mid.done, t);
    DoneByOthersAppend(first.done + mid.done, Run(env, mid.st, rest).done, t);
  }
}
