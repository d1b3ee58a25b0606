/** Where tasks go: every posted task is completed once, or still buffered in one
    transaction, or still queued for commit, or has been let go of, and never two of these. */
module StorageTasks {
  import opened Wrappers
  import opened StorageSpec

  function DoneIds(ds: seq<Done>): multiset<nat> {
    if ds == [] then multiset{} else multiset{Id(ds[0].msg)} + DoneIds(ds[1..])
  }

  function PostedIds(ms: seq<Msg>): multiset<nat> {
    if ms == [] then multiset{} else multiset{Id(ms[0])} + PostedIds(ms[1..])
  }

  lemma {:induction false} DoneIdsAppend(a: seq<Done>, b: seq<Done>)
    ensures DoneIds(a + b) == DoneIds(a) + DoneIds(b)
  {
    if a == [] {
      assert a + b == b;
    } else {
      assert (a + b)[1..] == a[1..] + b;
      DoneIdsAppend(a[1..], b);
    }
  }

  lemma DoneIdsOne(d: Done)
    ensures DoneIds([d]) == multiset{Id(d.msg)}
  {
    assert [d][1..] == [];
  }

  lemma {:induction false} WriteIdsAppend(a: seq<SetTask>, w: SetTask)
    ensures WriteIds(a + [w]) == WriteIds(a) + multiset{w.id}
  {
    if a == [] {
      assert a + [w] == [w] && [w][1..] == [];
    } else {
      assert (a + [w])[1..] == a[1..] + [w];
      WriteIdsAppend(a[1..], w);
    }
  }

  lemma {:induction false} CommitIdsAppend(a: seq<CommitTask>, m: CommitTask)
    ensures CommitIds(a + [m]) == CommitIds(a) + multiset{m.id}
  {
    if a == [] {
      assert a + [m] == [m] && [m][1..] == [];
    } else {
      assert (a + [m])[1..] == a[1..] + [m];
      CommitIdsAppend(a[1..], m);
    }
  }

  // ----- sums -----

  lemma Same(a: multiset<nat>, b: multiset<nat>)
    requires forall x :: a[x] == b[x]
    ensures a == b
  {}

  lemma Cancels(a: multiset<nat>, b: multiset<nat>, c: multiset<nat>)
    requires a + c == b + c
    ensures a == b
  {
    forall x ensures a[x] == b[x] {
      assert (a + c)[x] == (b + c)[x];
    }
    Same(a, b);
  }

  /** Two steps in a row: the second starts from what the first one still holds. */
  lemma Telescope(p1: multiset<nat>, h0: multiset<nat>, d1: multiset<nat>, l1: multiset<nat>, h1: multiset<nat>,
                  p2: multiset<nat>, d2: multiset<nat>, l2: multiset<nat>, h2: multiset<nat>)
    requires p1 + h0 == d1 + l1 + h1 && p2 + h1 == d2 + l2 + h2
    ensures p1 + p2 + h0 == d1 + d2 + (l1 + l2) + h2
  {
    forall x ensures (p1 + p2 + h0)[x] == (d1 + d2 + (l1 + l2) + h2)[x] {
      assert (p1 + h0)[x] == (d1 + l1 + h1)[x] && (p2 + h1)[x] == (d2 + l2 + h2)[x];
    }
    Same(p1 + p2 + h0, d1 + d2 + (l1 + l2) + h2);
  }

  // ----- the table -----

  /** The order in which Buffered visits the table does not matter. */
  lemma {:induction false} BufferedWithout(txns: map<TxnId, Pending>, t: TxnId)
    requires t in txns
    ensures Buffered(txns) == WriteIds(txns[t].writes) + Buffered(txns - {t})
    decreases |txns|
  {
    hide WriteIds;
    var u :| u in txns && Buffered(txns) == WriteIds(txns[u].writes) + Buffered(txns - {u});
    if u != t {
      assert |txns - {u}| == |txns| - 1 && |txns - {t}| == |txns| - 1 by {
        assert (txns - {u}).Keys == txns.Keys - {u} && (txns - {t}).Keys == txns.Keys - {t};
      }
      BufferedWithout(txns - {u}, t);
      BufferedWithout(txns - {t}, u);
      assert txns - {u} - {t} == txns - {t} - {u};
    }
  }

  lemma BufferedUpdate(txns: map<TxnId, Pending>, t: TxnId, p: Pending)
    ensures Buffered(txns[t := p]) + (if t in txns then WriteIds(txns[t].writes) else multiset{})
      == Buffered(txns) + WriteIds(p.writes)
  {
    hide WriteIds, Buffered;
    BufferedWithout(txns[t := p], t);
    assert txns[t := p] - {t} == txns - {t};
    if t in txns {
      BufferedWithout(txns, t);
    } else {
      assert txns - {t} == txns;
    }
  }

  lemma BufferedNoteError(txns: map<TxnId, Pending>, t: TxnId, e: Error)
    ensures Buffered(NoteError(txns, t, e)) == Buffered(txns)
  {
    hide WriteIds, Buffered;
    if t != 0 && t in txns {
      BufferedUpdate(txns, t, txns[t].(error := Some(e)));
      Cancels(Buffered(NoteError(txns, t, e)), Buffered(txns), WriteIds(txns[t].writes));
    }
  }

  // ----- steps -----

  /** The step accounts for the message `id` and for everything held before. */
  ghost predicate Accounts(s: St, id: nat, r: Result) {
    multiset{id} + Held(s) == DoneIds(r.done) + r.lost + Held(r.st)
  }

  lemma FailAccounts(s: St, s': St, m: Msg, t: TxnId, e: Error)
    requires s'.txns == s.txns && s'.queue == s.queue
    ensures Accounts(s, Id(m), Fail(s', m, t, e))
  {
    hide Buffered, CommitIds, DoneIds;
    BufferedNoteError(s.txns, t, e);
    DoneIdsOne(Done(m, Failed(Some(e))));
  }

  lemma CompleteAccounts(s: St, s': St, m: Msg, o: Outcome)
    requires s'.txns == s.txns && s'.queue == s.queue
    ensures Accounts(s, Id(m), Complete(s', m, o))
  {
    hide Buffered, CommitIds, DoneIds;
    DoneIdsOne(Done(m, o));
  }

  lemma SetAccounts(env: Env, s: St, m: SetTask)
    ensures Accounts(s, m.id, SetStep(env, s, m))
  {
    hide Accounts, Fail, Complete, Held;
    if !s.open {
      FailAccounts(s, s, Set(m), m.txn, StateError);
    } else if m.txn != 0 && s.txn != m.txn {
      if m.txn !in s.txns {
        FailAccounts(s, s, Set(m), m.txn, NoSuchTxn);
      } else {
        BufferAccounts(env, s, m);
      }
    } else if s.txn != 0 && s.txn != m.txn {
      NothingDone(s, m.id);
    } else {
      var w := WriteOne(env, s.db, s.calls, m);
      var s' := s.(db := w.db, calls := w.calls);
      if w.error.Some? {
        FailAccounts(s, s', Set(m), m.txn, w.error.value);
      } else {
        CompleteAccounts(s, s', Set(m), Succeeded(NoData));
      }
    }
  }

  lemma NothingDone(s: St, id: nat)
    ensures Accounts(s, id, Result(s, [], multiset{id}))
  {
    hide Held;
  }

  lemma BufferAccounts(env: Env, s: St, m: SetTask)
    requires s.open && m.txn != 0 && s.txn != m.txn && m.txn in s.txns
    ensures Accounts(s, m.id, SetStep(env, s, m))
  {
    hide Buffered, CommitIds, WriteIds;
    var p := s.txns[m.txn];
    BufferedUpdate(s.txns, m.txn, p.(writes := p.writes + [m]));
    WriteIdsAppend(p.writes, m);
    Cancels(Buffered(SetStep(env, s, m).st.txns), Buffered(s.txns) + multiset{m.id}, WriteIds(p.writes));
  }

  /** A replay completes or lets go of each write once. */
  lemma {:induction false} ReplayAccounts(env: Env, db: Db, calls: nat, ws: seq<SetTask>, stale: Option<Error>)
    ensures var r := Replay(env, db, calls, ws, stale);
      DoneIds(r.done) + r.lost == WriteIds(ws)
    decreases |ws|
  {
    if ws != [] {
      var w := WriteOne(env, db, calls, ws[0]);
      var d := Done(Set(ws[0]), WriteOutcome(w));
      ReplayAccounts(env, w.db, w.calls, ws[1..], None);
      DoneIdsOne(d);
      DoneIdsAppend([d], Replay(env, w.db, w.calls, ws[1..], None).done);
    }
  }

  lemma CommitOneAccounts(env: Env, s: St, m: CommitTask)
    requires m.txn in s.txns
    ensures Accounts(s, m.id, CommitOne(env, s, m))
  {
    hide Buffered, CommitIds, WriteIds, DoneIds, Replay;
    var p := s.txns[m.txn];
    var r := CommitOne(env, s, m);
    var sets := Replay(env, s.db, s.calls + 1, p.writes, p.error);
    ReplayAccounts(env, s.db, s.calls + 1, p.writes, p.error);
    DoneIdsAppend(sets.done, [r.done[|r.done| - 1]]);
    assert r.done == sets.done + [r.done[|r.done| - 1]];
    DoneIdsOne(r.done[|r.done| - 1]);
    BufferedWithout(s.txns, m.txn);
  }

  lemma ThenAccounts(s: St, id: nat, a: Result, id2: nat, s': St, b: Result)
    requires Accounts(s, id, a) && Accounts(s', id2, b) && Held(a.st) == multiset{id2} + Held(s')
    ensures Accounts(s, id, Then(a, b))
  {
    hide Held;
    DoneIdsAppend(a.done, b.done);
    hide DoneIds;
  }

  lemma {:induction false} CommitAccounts(env: Env, s: St, m: CommitTask)
    ensures Accounts(s, m.id, CommitStep(env, s, m))
    decreases |s.queue|
  {
    hide Accounts, Fail, CommitOne, Buffered, WriteIds;
    if !s.open {
      FailAccounts(s, s, Commit(m), m.txn, StateError);
    } else if Deferred(s, m) {
      DeferAccounts(s, m);
    } else if m.txn !in s.txns {
      FailAccounts(s, s.(txn := m.txn), Commit(m), m.txn, StateError);
    } else if !env.tdb(s.calls) {
      FailAccounts(s, s.(txn := m.txn, calls := s.calls + 1), Commit(m), m.txn, StartFailed);
    } else {
      CommitOneAccounts(env, s, m);
      CommitOneQueue(env, s, m);
      var one := CommitOne(env, s, m);
      if s.queue != [] {
        var s' := one.st.(queue := s.queue[1..]);
        CommitAccounts(env, s', s.queue[0]);
        ThenAccounts(s, m.id, one, s.queue[0].id, s', CommitStep(env, s', s.queue[0]));
      }
    }
  }

  lemma CommitOneQueue(env: Env, s: St, m: CommitTask)
    requires m.txn in s.txns
    ensures CommitOne(env, s, m).st.queue == s.queue
  {}

  lemma DeferAccounts(s: St, m: CommitTask)
    ensures Accounts(s, m.id, Result(s.(queue := s.queue + [m]), [], multiset{}))
  {
    hide Buffered, CommitIds;
    CommitIdsAppend(s.queue, m);
  }

  lemma TableAccounts(s: St, m: Msg)
    requires m.Begin? || m.Cancel?
    ensures Accounts(s, Id(m), if m.Begin? then BeginStep(s, m) else CancelStep(s, m))
  {
    hide Buffered, CommitIds, WriteIds, DoneIds;
    if m.Begin? {
      if s.open {
        BufferedUpdate(s.txns, NextId(s.txnSeq), Pending([], None));
        NoWrites();
        var r := BeginStep(s, m);
        DoneIdsOne(r.done[0]);
        forall x ensures (multiset{Id(m)} + Held(s))[x] == (DoneIds(r.done) + r.lost + Held(r.st))[x] {
          assert (Buffered(r.st.txns) + r.lost)[x] == (Buffered(s.txns) + multiset{})[x];
        }
        Same(multiset{Id(m)} + Held(s), DoneIds(r.done) + r.lost + Held(r.st));
      } else {
        CompleteAccounts(s, s, m, Failed(None));
      }
    } else if s.open && m.txn in s.txns {
      BufferedWithout(s.txns, m.txn);
      DoneIdsOne(Done(m, Succeeded(NoData)));
    } else {
      CompleteAccounts(s, s, m, if s.open then Succeeded(NoData) else Failed(None));
    }
  }

  lemma NoWrites()
    ensures WriteIds([]) == multiset{} && CommitIds([]) == multiset{} && Buffered(map[]) == multiset{}
  {}

  lemma OpenAccounts(env: Env, s: St, m: Msg)
    ensures Accounts(s, Id(m), OpenStep(env, s, m))
  {
    if s.open {
      FailAccounts(s, s, m, 0, StateError);
    } else {
      NoWrites();
      DoneIdsOne(OpenStep(env, s, m).done[0]);
    }
    hide Buffered, CommitIds, DoneIds, Fail;
  }

  lemma CloseAccounts(env: Env, s: St, m: Msg)
    ensures Accounts(s, Id(m), CloseStep(env, s, m))
  {
    hide Accounts, Fail, Complete;
    FailAccounts(s, s, m, 0, StateError);
    FailAccounts(s, s.(calls := s.calls + 1), m, 0, StateError);
    CompleteAccounts(s, s.(open := false, calls := s.calls + 1), m, Succeeded(NoData));
  }

  lemma StepAccounts(env: Env, s: St, m: Msg)
    ensures Accounts(s, Id(m), Step(env, s, m))
  {
    hide Accounts, SetStep, CommitStep, OpenStep, CloseStep, BeginStep, CancelStep, Complete, Held;
    match m
    case Set(t) => SetAccounts(env, s, t);
    case Commit(t) => CommitAccounts(env, s, t);
    case Open(_) => OpenAccounts(env, s, m);
    case Close(_) => CloseAccounts(env, s, m);
    case Begin(_) => TableAccounts(s, m);
    case Cancel(_, _) => TableAccounts(s, m);
    case Get(_, key) => CompleteAccounts(s, s, m, GetOutcome(env.transform, s, key));
    case CountKeys(_) => CompleteAccounts(s, s, m, CountOutcome(s));
  }

  // ----- runs -----

  /** Conservation: over any run, what was posted is what was completed, what was let go
      of, and what is still held. */
  lemma {:induction false} RunAccounts(env: Env, s: St, ms: seq<Msg>)
    ensures var r := Run(env, s, ms);
      PostedIds(ms) + Held(s) == DoneIds(r.done) + r.lost + Held(r.st)
    decreases |ms|
  {
    hide Step, Held;
    if ms != [] {
      var one := Step(env, s, ms[0]);
      StepAccounts(env, s, ms[0]);
      RunAccounts(env, one.st, ms[1..]);
      var rest := Run(env, one.st, ms[1..]);
      DoneIdsAppend(one.done, rest.done);
      Telescope(multiset{Id(ms[0])}, Held(s), DoneIds(one.done), one.lost, Held(one.st),
                PostedIds(ms[1..]), DoneIds(rest.done), rest.lost, Held(rest.st));
    }
  }

  /** So a task that is posted once is in exactly one place, and completes at most once. */
  lemma ExactlyOnePlace(env: Env, db: Db, ms: seq<Msg>, id: nat)
    requires PostedIds(ms)[id] == 1
    ensures var r := Run(env, Init(db), ms);
      DoneIds(r.done)[id] + r.lost[id] + Buffered(r.st.txns)[id] + CommitIds(r.st.queue)[id] == 1
  {
    RunAccounts(env, Init(db), ms);
    NoWrites();
    hide Run, DoneIds, PostedIds, Buffered, CommitIds;
    var r := Run(env, Init(db), ms);
    assert (PostedIds(ms) + Held(Init(db)))[id] == (DoneIds(r.done) + r.lost + Held(r.st))[id];
  }
}
