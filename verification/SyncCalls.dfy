/** Synchronous calls on a storage: which of them return.  The handshake lets a worker complete
    any task, but the engine does not complete every task it is given. */
module SyncCalls {
  import opened Wrappers
  import opened StorageSpec
  import opened StorageCommits
  import opened StorageRuns
  import opened StorageTasks
  import opened StorageTxns
  import H = Handshake

  // ----- a call returns when its task is completed -----

  /** One of these completions is that of the task `id`, with this `success`. */
  predicate Delivered(ds: seq<Done>, id: nat, ok: bool) {
    exists j :: 0 <= j < |ds| && Id(ds[j].msg) == id && ds[j].outcome.Succeeded? == ok
  }

  /** Workers complete a task only when its handler does. */
  predicate Delivers(es: seq<H.Event>, ds: seq<Done>) {
    forall k :: 0 <= k < |es| && es[k].action.Decide? ==> Delivered(ds, es[k].call, es[k].action.outcome)
  }

  lemma {:induction false} DeliveredIsDone(ds: seq<Done>, id: nat)
    ensures DoneIds(ds)[id] > 0 <==> Delivered(ds, id, true) || Delivered(ds, id, false)
  {
    if ds != [] {
      var rest := ds[1..];
      DeliveredIsDone(rest, id);
      if Id(ds[0].msg) == id {
        assert Delivered(ds, id, ds[0].outcome.Succeeded?);
      }
      forall ok | Delivered(rest, id, ok) ensures Delivered(ds, id, ok) {
        var j :| 0 <= j < |rest| && Id(rest[j].msg) == id && rest[j].outcome.Succeeded? == ok;
        assert ds[j + 1] == rest[j];
      }
      forall ok | Delivered(ds, id, ok) && Id(ds[0].msg) != id ensures Delivered(rest, id, ok) {
        var j :| 0 <= j < |ds| && Id(ds[j].msg) == id && ds[j].outcome.Succeeded? == ok;
        assert rest[j - 1] == ds[j];
      }
    }
  }

  /** What `success` holds was set by a worker of this call. */
  lemma {:induction false} SuccessWasDecided(s: H.System, es: seq<H.Event>, i: nat)
    requires H.IsRun(s, es) && H.At(H.After(s, es), i).success.Some?
    ensures var ok := H.At(H.After(s, es), i).success;
      H.At(s, i).success == ok || exists k :: 0 <= k < |es| && es[k] == H.Event(i, H.Decide(ok.value))
    decreases |es|
  {
    if es != [] {
      var rest := es[1..];
      SuccessWasDecided(H.Happens(s, es[0]), rest, i);
      var ok := H.At(H.After(s, es), i).success;
      if k :| 0 <= k < |rest| && rest[k] == H.Event(i, H.Decide(ok.value)) {
        assert es[k + 1] == rest[k];
      } else if es[0].call == i && es[0].action.Decide? {
        assert es[0] == H.Event(i, H.Decide(ok.value));
      }
    }
  }

  /** Nothing can happen in this call any more, unless its caller wakes up unasked. */
  ghost predicate AtRest(c: H.Call, ds: seq<Done>, i: nat) {
    forall a :: H.Enabled(c, a) ==> a.Spurious? || (a.Decide? && !Delivered(ds, i, a.outcome))
  }

  /** A synchronous call returns only if the engine completed its task, and then with the outcome
      of that completion; and when nothing can happen any more, exactly the calls whose
      tasks the engine completed have returned, and the others wait. */
  lemma CallsReturnExactly(es: seq<H.Event>, ds: seq<Done>, i: nat)
    requires H.IsRun(map[], es) && Delivers(es, ds)
    ensures var c := H.At(H.After(map[], es), i);
      && (c.caller.Returned? || c.caller.Gone? ==>
            DoneIds(ds)[i] > 0 && c.success.Some? && Delivered(ds, i, c.success.value))
      && (AtRest(c, ds, i) ==> (if DoneIds(ds)[i] > 0 then c.caller.Gone? else H.Unserved(c)))
  {
    var c := H.At(H.After(map[], es), i);
    H.Reachable(es, i);
    DeliveredIsDone(ds, i);
    if c.success.Some? {
      SuccessWasDecided(map[], es, i);
    }
    if AtRest(c, ds, i) {
      assert !c.caller.Gone? && !H.Unserved(c) ==> H.Enabled(c, H.SomeStep(c)) && !H.SomeStep(c).Decide?;
      assert H.Unserved(c) ==> H.Enabled(c, H.Decide(true)) && H.Enabled(c, H.Decide(false));
    }
  }

  // ----- tasks that are never completed -----

  /** Whatever is posted from now on, and whatever TDB does, this task is not completed. */
  ghost predicate NeverDone(x: Transform, s: St, id: nat) {
    forall tdb: nat -> bool, ms: seq<Msg> ::
      PostedIds(ms)[id] == 0 ==> DoneIds(Run(Env(tdb, x), s, ms).done)[id] == 0
  }

  lemma NotHeldNeverDone(x: Transform, s: St, id: nat)
    requires Held(s)[id] == 0
    ensures NeverDone(x, s, id)
  {
    forall tdb: nat -> bool, ms: seq<Msg> | PostedIds(ms)[id] == 0
      ensures DoneIds(Run(Env(tdb, x), s, ms).done)[id] == 0
    {
      hide Held;
      var r := Run(Env(tdb, x), s, ms);
      RunAccounts(Env(tdb, x), s, ms);
      assert (PostedIds(ms) + Held(s))[id] == (DoneIds(r.done) + r.lost + Held(r.st))[id];
    }
  }

  /** A synchronous call whose task the engine has let go of never returns, whatever comes. */
  lemma LostCallsHang(env: Env, db: Db, ms: seq<Msg>, more: seq<Msg>, es: seq<H.Event>, id: nat)
    requires PostedIds(ms)[id] == 1 && Run(env, Init(db), ms).lost[id] > 0 && PostedIds(more)[id] == 0
    requires H.IsRun(map[], es) && Delivers(es, Run(env, Init(db), ms + more).done)
    ensures var c := H.At(H.After(map[], es), id);
      !c.caller.Returned? && !c.caller.Gone?
  {
    hide Run, Held, Delivers;
    var r := Run(env, Init(db), ms);
    var rest := Run(env, r.st, more);
    HeldAfter(env, db, ms, id);
    NotHeldNeverDone(env.transform, r.st, id);
    assert Env(env.tdb, env.transform) == env;
    RunAppend(env, Init(db), ms, more);
    DoneIdsAppend(r.done, rest.done);
    assert DoneIds(rest.done)[id] == 0 by {
      assert DoneIds(Run(Env(env.tdb, env.transform), r.st, more).done)[id] == 0;
    }
    CallsReturnExactly(es, Run(env, Init(db), ms + more).done, id);
  }

  /** What a run from the start has done with a task that was posted once. */
  lemma HeldAfter(env: Env, db: Db, ms: seq<Msg>, id: nat)
    requires PostedIds(ms)[id] == 1
    ensures var r := Run(env, Init(db), ms);
      DoneIds(r.done)[id] + r.lost[id] + Held(r.st)[id] == 1
  {
    ExactlyOnePlace(env, db, ms, id);
    hide Run;
  }

  // ----- sets that the engine holds but never gets to -----

  /** The i-th set of the list is behind an error: one that is noted already, or that of
      an earlier set that the transform rejects. */
  ghost predicate Blocked(x: Transform, p: Pending, i: nat) {
    && 0 < i < |p.writes|
    && (p.error.Some? || exists j :: 0 <= j < i && FormOf(x, p.writes[j].data).Rejected?)
  }

  /** The task `id` is the i-th set that waits in `t`. */
  predicate WaitsAt(s: St, id: nat, t: TxnId, i: nat) {
    t in s.txns && i < |s.txns[t].writes| && s.txns[t].writes[i].id == id
  }

  /** The storage is wedged, and the begins that it takes to end this hand out the id of
      this live transaction again before. */
  predicate Overtaken(s: St, t: TxnId) {
    Wedged(s) && Ahead(s.txnSeq, t) < Distance(s)
  }

  ghost predicate Hopeless(x: Transform, s: St, id: nat, t: TxnId, i: nat) {
    WaitsAt(s, id, t, i) && (Blocked(x, s.txns[t], i) || Overtaken(s, t))
  }

  lemma {:induction false} WriteIdsAt(ws: seq<SetTask>, i: nat)
    requires i < |ws|
    ensures WriteIds(ws)[ws[i].id] > 0
  {
    if i > 0 {
      assert ws[1..][i - 1] == ws[i];
      WriteIdsAt(ws[1..], i - 1);
    }
  }

  lemma WaitingIsHeld(s: St, id: nat, t: TxnId, i: nat)
    requires WaitsAt(s, id, t, i)
    ensures Buffered(s.txns)[id] > 0
  {
    WriteIdsAt(s.txns[t].writes, i);
    BufferedWithout(s.txns, t);
    hide Buffered, WriteIds;
  }

  /** A replay never gets to a blocked set. */
  lemma {:induction false} ReplayLoses(env: Env, db: Db, calls: nat, p: Pending, i: nat)
    requires Blocked(env.transform, p, i)
    ensures Replay(env, db, calls, p.writes, p.error).lost[p.writes[i].id] > 0
    decreases i
  {
    hide WriteIds;
    var ws := p.writes;
    var w := WriteOne(env, db, calls, ws[0]);
    if w.error.Some? || p.error.Some? {
      assert ws[1..][i - 1] == ws[i];
      WriteIdsAt(ws[1..], i - 1);
    } else {
      var j :| 0 <= j < i && FormOf(env.transform, ws[j].data).Rejected?;
      assert j > 0;
      assert FormOf(env.transform, ws[1..][j - 1].data).Rejected?;
      ReplayLoses(env, w.db, w.calls, Pending(ws[1..], None), i - 1);
    }
  }

  /** The task is still hopeless, or has been let go of. */
  ghost predicate StaysUndone(x: Transform, id: nat, t: TxnId, i: nat, r: Result) {
    && DoneIds(r.done)[id] == 0
    && (Held(r.st)[id] == 0 || (Held(r.st)[id] == 1 && Hopeless(x, r.st, id, t, i)))
  }

  /** By conservation it is enough that the task is hopeless after the step, or let go of
      by it. */
  lemma UndoneBecause(x: Transform, s: St, mid: nat, r: Result, id: nat, t: TxnId, i: nat)
    requires Accounts(s, mid, r) && mid != id && Held(s)[id] == 1
    requires Hopeless(x, r.st, id, t, i) || r.lost[id] > 0
    ensures StaysUndone(x, id, t, i, r)
  {
    hide Buffered, CommitIds, Blocked, Overtaken;
    assert (multiset{mid} + Held(s))[id] == (DoneIds(r.done) + r.lost + Held(r.st))[id];
    if r.lost[id] == 0 {
      WaitingIsHeld(r.st, id, t, i);
    }
  }

  lemma {:induction false} CommitUndone(env: Env, s: St, m: CommitTask, id: nat, t: TxnId, i: nat)
    requires Hopeless(env.transform, s, id, t, i) && Held(s)[id] == 1 && m.id != id
    ensures StaysUndone(env.transform, id, t, i, CommitStep(env, s, m))
    decreases |s.queue|
  {
    hide Buffered, CommitOne, CommitIds, StaysUndone, Blocked, Hopeless;
    if !Runs(env, s, m) {
      CommitAccounts(env, s, m);
      EarlyKeepsHopeless(env, s, m, id, t, i);
      UndoneBecause(env.transform, s, m.id, CommitStep(env, s, m), id, t, i);
    } else {
      CommitOneUndone(env, s, m, id, t, i);
      if s.queue != [] {
        DrainUndone(env, s, m, id, t, i);
      }
    }
  }

  lemma EarlyKeepsHopeless(env: Env, s: St, m: CommitTask, id: nat, t: TxnId, i: nat)
    requires Hopeless(env.transform, s, id, t, i) && !Runs(env, s, m)
    ensures Hopeless(env.transform, CommitStep(env, s, m).st, id, t, i)
  {}

  lemma CommitOneUndone(env: Env, s: St, m: CommitTask, id: nat, t: TxnId, i: nat)
    requires Hopeless(env.transform, s, id, t, i) && Held(s)[id] == 1 && m.id != id && Runs(env, s, m)
    ensures StaysUndone(env.transform, id, t, i, CommitOne(env, s, m))
  {
    hide Buffered, CommitIds, StaysUndone, Held, Accounts, Replay, Blocked;
    CommitOneAccounts(env, s, m);
    if m.txn == t {
      ReplayLoses(env, s.db, s.calls + 1, s.txns[t], i);
    }
    UndoneBecause(env.transform, s, m.id, CommitOne(env, s, m), id, t, i);
  }

  lemma {:induction false} DrainUndone(env: Env, s: St, m: CommitTask, id: nat, t: TxnId, i: nat)
    requires Hopeless(env.transform, s, id, t, i) && Held(s)[id] == 1 && m.id != id
    requires Runs(env, s, m) && s.queue != []
    requires StaysUndone(env.transform, id, t, i, CommitOne(env, s, m))
    ensures StaysUndone(env.transform, id, t, i, CommitStep(env, s, m))
    decreases |s.queue|, 0
  {
    hide Buffered, CommitOne, CommitIds, Hopeless, WriteIds;
    var one := CommitOne(env, s, m);
    var s' := one.st.(queue := s.queue[1..]);
    CommitOneQueue(env, s, m);
    QueueHeadIsOther(env.transform, s, id, t, i);
    QueueHeadOut(s.queue, id);
    assert Held(s')[id] == Held(one.st)[id];
    DoneIdsAppend(one.done, CommitStep(env, s', s.queue[0]).done);
    if Held(s')[id] == 0 {
      NotHeldCommit(env, s', s.queue[0], id);
    } else {
      HopelessIgnoresQueue(env.transform, one.st, s', id, t, i);
      CommitUndone(env, s', s.queue[0], id, t, i);
    }
    hide Held, DoneIds, CommitStep;
  }

  lemma NotHeldCommit(env: Env, s: St, m: CommitTask, id: nat)
    requires Held(s)[id] == 0 && m.id != id
    ensures DoneIds(CommitStep(env, s, m).done)[id] == 0 && Held(CommitStep(env, s, m).st)[id] == 0
  {
    CommitAccounts(env, s, m);
    hide Held, DoneIds, CommitStep;
    var r := CommitStep(env, s, m);
    assert (multiset{m.id} + Held(s))[id] == (DoneIds(r.done) + r.lost + Held(r.st))[id];
  }

  lemma HopelessIgnoresQueue(x: Transform, a: St, b: St, id: nat, t: TxnId, i: nat)
    requires Hopeless(x, a, id, t, i) && b == a.(queue := b.queue)
    ensures Hopeless(x, b, id, t, i)
  {}

  lemma QueueHeadOut(queue: seq<CommitTask>, id: nat)
    requires queue != [] && CommitIds(queue)[id] == 0
    ensures queue[0].id != id && CommitIds(queue[1..])[id] == 0
  {}

  lemma QueueHeadIsOther(x: Transform, s: St, id: nat, t: TxnId, i: nat)
    requires Hopeless(x, s, id, t, i) && Held(s)[id] == 1
    ensures CommitIds(s.queue)[id] == 0
  {
    hide Buffered, CommitIds, Blocked;
    WaitingIsHeld(s, id, t, i);
  }

  lemma StepUndone(env: Env, s: St, m: Msg, id: nat, t: TxnId, i: nat)
    requires Hopeless(env.transform, s, id, t, i) && Held(s)[id] == 1 && Id(m) != id
    ensures StaysUndone(env.transform, id, t, i, Step(env, s, m))
  {
    if m.Commit? {
      CommitUndone(env, s, m.commit, id, t, i);
    } else {
      StepAccounts(env, s, m);
      HopelessOrLost(env, s, m, id, t, i);
      hide Step, Hopeless, Held, Accounts;
      UndoneBecause(env.transform, s, Id(m), Step(env, s, m), id, t, i);
    }
  }

  lemma HopelessOrLost(env: Env, s: St, m: Msg, id: nat, t: TxnId, i: nat)
    requires Hopeless(env.transform, s, id, t, i) && Held(s)[id] == 1 && !m.Commit?
    ensures Hopeless(env.transform, Step(env, s, m).st, id, t, i) || Step(env, s, m).lost[id] > 0
  {
    hide CommitStep, WriteIds, Held, SetStep, BeginStep, Blocked;
    WriteIdsAt(s.txns[t].writes, i);
    if m.Set? {
      SetKeepsHopeless(env, s, m.write, id, t, i);
    } else if m.Begin? {
      BeginKeepsHopeless(env.transform, s, m, id, t, i);
    }
  }

  lemma BeginKeepsHopeless(x: Transform, s: St, m: Msg, id: nat, t: TxnId, i: nat)
    requires Hopeless(x, s, id, t, i) && m.Begin? && WriteIds(s.txns[t].writes)[id] > 0
    ensures Hopeless(x, BeginStep(s, m).st, id, t, i) || BeginStep(s, m).lost[id] > 0
  {
    hide WriteIds, Blocked;
  }

  lemma SetKeepsHopeless(env: Env, s: St, w: SetTask, id: nat, t: TxnId, i: nat)
    requires Hopeless(env.transform, s, id, t, i)
    ensures Hopeless(env.transform, SetStep(env, s, w).st, id, t, i)
  {
    var p, p' := s.txns[t], SetStep(env, s, w).st.txns[t];
    assert p.writes <= p'.writes && (p.error.Some? ==> p'.error.Some?);
    assert Overtaken(s, t) ==> Overtaken(SetStep(env, s, w).st, t);
    hide SetStep;
    if p.error.None? && !Overtaken(s, t) {
      var j :| 0 <= j < i && FormOf(env.transform, p.writes[j].data).Rejected?;
      assert FormOf(env.transform, p'.writes[j].data).Rejected?;
    }
  }

  lemma {:induction false} RunUndone(env: Env, s: St, ms: seq<Msg>, id: nat, t: TxnId, i: nat)
    requires Hopeless(env.transform, s, id, t, i) && Held(s)[id] == 1 && PostedIds(ms)[id] == 0
    ensures DoneIds(Run(env, s, ms).done)[id] == 0
    decreases |ms|
  {
    hide Step, Held, Hopeless;
    if ms != [] {
      var one := Step(env, s, ms[0]);
      var rest := Run(env, one.st, ms[1..]);
      StepUndone(env, s, ms[0], id, t, i);
      DoneIdsAppend(one.done, rest.done);
      if Held(one.st)[id] == 0 {
        RunAccounts(env, one.st, ms[1..]);
        assert (PostedIds(ms[1..]) + Held(one.st))[id] == (DoneIds(rest.done) + rest.lost + Held(rest.st))[id];
      } else {
        RunUndone(env, one.st, ms[1..], id, t, i);
      }
    }
  }

  /** A set behind an error, or in a transaction that will be overtaken, is never completed,
      although the engine still holds it. */
  lemma HopelessNeverDone(x: Transform, s: St, id: nat, t: TxnId, i: nat)
    requires Hopeless(x, s, id, t, i) && Held(s)[id] == 1
    ensures NeverDone(x, s, id)
  {
    forall tdb: nat -> bool, ms: seq<Msg> | PostedIds(ms)[id] == 0
      ensures DoneIds(Run(Env(tdb, x), s, ms).done)[id] == 0
    {
      RunUndone(Env(tdb, x), s, ms, id, t, i);
    }
  }

  // ----- sets that can still be completed -----

  const ALL_WELL: nat -> bool := (i: nat) => true

  /** Some messages complete the task when TDB does its part. */
  ghost predicate Doable(x: Transform, s: St, id: nat) {
    exists ms: seq<Msg> :: PostedIds(ms)[id] == 0 && DoneIds(Run(Env(ALL_WELL, x), s, ms).done)[id] > 0
  }

  lemma {:induction false} PostedIdsAppend(a: seq<Msg>, b: seq<Msg>)
    ensures PostedIds(a + b) == PostedIds(a) + PostedIds(b)
  {
    if a == [] {
      assert a + b == b;
    } else {
      assert (a + b)[1..] == a[1..] + b;
      PostedIdsAppend(a[1..], b);
    }
  }

  lemma DoableLater(x: Transform, s: St, ms: seq<Msg>, id: nat)
    requires PostedIds(ms)[id] == 0 && Doable(x, Run(Env(ALL_WELL, x), s, ms).st, id)
    ensures Doable(x, s, id)
  {
    hide Run, DoneIds, PostedIds;
    var env := Env(ALL_WELL, x);
    var mid := Run(env, s, ms);
    var more :| PostedIds(more)[id] == 0 && DoneIds(Run(env, mid.st, more).done)[id] > 0;
    RunAppend(env, s, ms, more);
    PostedIdsAppend(ms, more);
    DoneIdsAppend(mid.done, Run(env, mid.st, more).done);
    assert PostedIds(ms + more)[id] == 0 && DoneIds(Run(env, s, ms + more).done)[id] > 0;
  }

  lemma PostsOther(m: Msg, id: nat)
    requires Id(m) != id
    ensures PostedIds([m])[id] == 0
  {
    assert [m][1..] == [];
  }

  lemma {:induction false} WriteIdsIndex(ws: seq<SetTask>, id: nat) returns (i: nat)
    requires WriteIds(ws)[id] > 0
    ensures i < |ws| && ws[i].id == id
  {
    if ws[0].id == id {
      i := 0;
    } else {
      var k := WriteIdsIndex(ws[1..], id);
      i := k + 1;
    }
  }

  lemma {:induction false} BufferedIn(txns: map<TxnId, Pending>, id: nat) returns (t: TxnId)
    requires Buffered(txns)[id] > 0
    ensures t in txns && WriteIds(txns[t].writes)[id] > 0
    decreases |txns|
  {
    hide WriteIds;
    var u :| u in txns && Buffered(txns) == WriteIds(txns[u].writes) + Buffered(txns - {u});
    if WriteIds(txns[u].writes)[id] > 0 {
      t := u;
    } else {
      assert (txns - {u}).Keys == txns.Keys - {u};
      t := BufferedIn(txns - {u}, id);
      assert (txns - {u})[t] == txns[t];
    }
  }

  /** A replay for which TDB does its part completes every set that is not blocked. */
  lemma {:induction false} ReplayReaches(x: Transform, db: Db, calls: nat, ws: seq<SetTask>,
                                         stale: Option<Error>, i: nat)
    requires i < |ws| && (i > 0 ==> stale.None?)
    requires forall j :: 0 <= j < i ==> FormOf(x, ws[j].data).Stored?
    ensures DoneIds(Replay(Env(ALL_WELL, x), db, calls, ws, stale).done)[ws[i].id] > 0
    decreases i
  {
    var env := Env(ALL_WELL, x);
    hide *;
    var w := WriteOne(env, db, calls, ws[0]);
    ReplayDone(env, db, calls, ws, stale);
    if i > 0 {
      GoesThrough(x, db, calls, ws[0]);
      assert ws[1..][i - 1] == ws[i];
      ReplayReaches(x, w.db, w.calls, ws[1..], None, i - 1);
    }
  }

  lemma GoesThrough(x: Transform, db: Db, calls: nat, w: SetTask)
    requires FormOf(x, w.data).Stored?
    ensures WriteOne(Env(ALL_WELL, x), db, calls, w).error.None?
  {}

  lemma NotBlocked(x: Transform, p: Pending, i: nat)
    requires i < |p.writes| && !Blocked(x, p, i)
    ensures i > 0 ==> p.error.None?
    ensures forall j :: 0 <= j < i ==> FormOf(x, p.writes[j].data).Stored?
  {}

  lemma ReplayDone(env: Env, db: Db, calls: nat, ws: seq<SetTask>, stale: Option<Error>)
    requires ws != []
    ensures var w := WriteOne(env, db, calls, ws[0]);
      DoneIds(Replay(env, db, calls, ws, stale).done) == multiset{ws[0].id} +
        if w.error.Some? || stale.Some? then multiset{}
        else DoneIds(Replay(env, w.db, w.calls, ws[1..], None).done)
  {
    var w := WriteOne(env, db, calls, ws[0]);
    var d := Done(Set(ws[0]), WriteOutcome(w));
    DoneIdsOne(d);
    DoneIdsAppend([d], Replay(env, w.db, w.calls, ws[1..], None).done);
    hide WriteOne, DoneIds;
  }

  lemma CommitReaches(x: Transform, s: St, m: CommitTask, id: nat, i: nat)
    requires s.open && s.queue == [] && !Deferred(s, m) && m.id != id
    requires WaitsAt(s, id, m.txn, i) && !Blocked(x, s.txns[m.txn], i)
    ensures Doable(x, s, id)
  {
    var env := Env(ALL_WELL, x);
    var p := s.txns[m.txn];
    NotBlocked(x, p, i);
    hide Replay, DoneIds, PostedIds, Run, CommitStep, CommitOne, Step, Blocked;
    ReplayReaches(x, s.db, s.calls + 1, p.writes, p.error, i);
    RunOne(env, s, Commit(m));
    CommitWithoutQueue(env, s, m);
    PostsOther(Commit(m), id);
    CommitOneDone(env, s, m);
    assert DoneIds(Run(env, s, [Commit(m)]).done)[id] > 0;
  }

  lemma CommitOneDone(env: Env, s: St, m: CommitTask)
    requires m.txn in s.txns
    ensures var p := s.txns[m.txn];
      DoneIds(CommitOne(env, s, m).done) ==
        DoneIds(Replay(env, s.db, s.calls + 1, p.writes, p.error).done) + multiset{m.id}
  {
    hide Replay, DoneIds;
    var p := s.txns[m.txn];
    var r := CommitOne(env, s, m);
    var sets := Replay(env, s.db, s.calls + 1, p.writes, p.error).done;
    var last := r.done[|r.done| - 1];
    assert r.done == sets + [last] && last.msg == Commit(m);
    hide CommitOne;
    DoneIdsOne(last);
    DoneIdsAppend(sets, [last]);
  }

  lemma CommitWithoutQueue(env: Env, s: St, m: CommitTask)
    requires s.open && s.queue == [] && !Deferred(s, m) && m.txn in s.txns && env.tdb(s.calls)
    ensures Step(env, s, Commit(m)) == CommitOne(env, s, m)
  {
    hide CommitOne;
  }

  /** Another transaction is current: it is committed first. */
  lemma OtherReaches(x: Transform, s: St, id: nat, t: TxnId, i: nat)
    requires s.open && s.queue == [] && s.txn in s.txns && t != s.txn
    requires WaitsAt(s, id, t, i) && !Blocked(x, s.txns[t], i)
    ensures Doable(x, s, id)
  {
    var env := Env(ALL_WELL, x);
    var c := CommitTask(id + 1, s.txn);
    CommitWithoutQueue(env, s, c);
    CommitOneSettles(env, s, c);
    var now := CommitOne(env, s, c).st;
    assert now.txns == s.txns - {s.txn};
    RunOne(env, s, Commit(c));
    PostsOther(Commit(c), id);
    hide Run, CommitOne, Step, Blocked;
    CommitReaches(x, now, CommitTask(id + 1, t), id, i);
    DoableLater(x, s, [Commit(c)], id);
  }

  /** Begins that do not reach `t` leave it alone; the last one makes a new transaction. */
  ghost predicate BegunPast(s: St, n: nat, t: TxnId, r: St) {
    && r == s.(txnSeq := (s.txnSeq + n) % TXN_ID_LIMIT, txns := r.txns)
    && (n > 0 ==> r.txnSeq in r.txns)
    && (t in s.txns ==> t in r.txns && r.txns[t] == s.txns[t])
  }

  lemma {:induction false} BeginsPast(env: Env, s: St, n: nat, id: nat, t: TxnId)
    requires s.open && n < Ahead(s.txnSeq, t)
    ensures BegunPast(s, n, t, Run(env, s, Begins(n, id)).st)
  {
    if n > 0 {
      hide Run, BeginStep, BegunPast;
      BeginsPast(env, s, n - 1, id, t);
      BeginsNext(env, s, n, id);
      OneBeginPast(s, n - 1, t, Run(env, s, Begins(n - 1, id)).st, id);
    }
  }

  lemma OneBeginPast(s: St, n: nat, t: TxnId, r: St, id: nat)
    requires s.open && BegunPast(s, n, t, r) && n + 1 < Ahead(s.txnSeq, t)
    ensures BegunPast(s, n + 1, t, BeginStep(r, Begin(id)).st)
  {
    assert NextId(r.txnSeq) == (s.txnSeq + n + 1) % TXN_ID_LIMIT != t;
  }

  lemma {:induction false} BeginsPostOther(n: nat, mid: nat, id: nat)
    requires mid != id
    ensures PostedIds(Begins(n, mid))[id] == 0
  {
    if n > 0 {
      BeginsPostOther(n - 1, mid, id);
      PostsOther(Begin(mid), id);
      hide PostedIds;
      PostedIdsAppend(Begins(n - 1, mid), [Begin(mid)]);
    }
  }

  /** The storage is wedged, but not for as long as to overtake `t`: begins hand out the
      missing id first. */
  lemma WedgedReaches(x: Transform, s: St, id: nat, t: TxnId, i: nat)
    requires Wedged(s) && s.queue == []
    requires WaitsAt(s, id, t, i) && !Blocked(x, s.txns[t], i) && !Overtaken(s, t)
    ensures Doable(x, s, id)
  {
    var env := Env(ALL_WELL, x);
    var n := Distance(s);
    assert (s.txnSeq + n) % TXN_ID_LIMIT == s.txn && n < Ahead(s.txnSeq, t);
    BeginsPast(env, s, n, id + 1, t);
    BeginsPostOther(n, id + 1, id);
    hide Run, Blocked, PostedIds, Doable;
    var now := Run(env, s, Begins(n, id + 1)).st;
    OtherReaches(x, now, id, t, i);
    DoableLater(x, s, Begins(n, id + 1), id);
  }

  /** Which synchronous calls are stuck for good.  In an open storage without deferred
      commits, whatever its current transaction, a task that was posted and is not
      completed can never be completed exactly when the engine has let go of it, or holds
      it behind an error or in a transaction that will be overtaken. */
  lemma StuckForGoodExactly(env: Env, db: Db, ms: seq<Msg>, id: nat)
    requires PostedIds(ms)[id] == 1
    requires Run(env, Init(db), ms).st.open && Run(env, Init(db), ms).st.queue == []
    requires DoneIds(Run(env, Init(db), ms).done)[id] == 0
    ensures var r := Run(env, Init(db), ms);
      NeverDone(env.transform, r.st, id) <==>
        r.lost[id] > 0 || exists t, i :: Hopeless(env.transform, r.st, id, t, i)
  {
    var x := env.transform;
    var r := Run(env, Init(db), ms);
    var s := r.st;
    HeldAfter(env, db, ms, id);
    hide Run, Buffered, Hopeless, NeverDone, DoneIds, PostedIds;
    if r.lost[id] > 0 {
      NotHeldNeverDone(x, s, id);
    } else if t, i :| Hopeless(x, s, id, t, i) {
      HopelessNeverDone(x, s, id, t, i);
    } else {
      CanBeDone(x, s, id);
    }
  }

  lemma CanBeDone(x: Transform, s: St, id: nat)
    requires s.open && s.queue == [] && Held(s)[id] == 1
    requires !exists t, i :: Hopeless(x, s, id, t, i)
    ensures !NeverDone(x, s, id)
  {
    hide Buffered, Run, DoneIds, Blocked, Doable;
    NoWrites();
    var t := BufferedIn(s.txns, id);
    var i := WriteIdsIndex(s.txns[t].writes, id);
    assert !Hopeless(x, s, id, t, i);
    if Wedged(s) {
      WedgedReaches(x, s, id, t, i);
    } else if s.txn == 0 || s.txn == t {
      CommitReaches(x, s, CommitTask(id + 1, t), id, i);
    } else {
      OtherReaches(x, s, id, t, i);
    }
    DoableIsNotNever(x, s, id);
  }

  lemma DoableIsNotNever(x: Transform, s: St, id: nat)
    requires Doable(x, s, id)
    ensures !NeverDone(x, s, id)
  {
    hide Run, DoneIds, PostedIds;
    var ms :| PostedIds(ms)[id] == 0 && DoneIds(Run(Env(ALL_WELL, x), s, ms).done)[id] > 0;
  }
}
