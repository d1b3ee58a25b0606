/** How a set reaches the records: at once, or from its transaction when that commits, also if
    the commit was deferred or sets off the commits of others. */
module StorageRecords {
  import opened Wrappers
  import opened StorageSpec
  import opened StorageCommits
  import opened StorageRuns
  import opened StorageSerial
  import opened StorageTxns

  /** The record of `k` is what a set of `data` stores. */
  predicate Holds(x: Transform, db: Db, k: Bytes, data: Bytes) {
    k in db && FormOf(x, data) == Stored(db[k])
  }

  lemma SparedHolds(x: Transform, a: Db, b: Db, k: Bytes, data: Bytes)
    requires Holds(x, a, k, data) && SameAt(a, b, k)
    ensures Holds(x, b, k, data)
  {}

  /** A set that completes with success in its own step is stored. */
  lemma SetStores(env: Env, s: St, w: SetTask)
    requires SetStep(env, s, w).done == [Done(Set(w), Succeeded(NoData))]
    ensures s.open && SetStep(env, s, w).st.open
    ensures Holds(env.transform, SetStep(env, s, w).st.db, w.key, w.data)
  {}

  // ----- sets that wait in a transaction -----

  /** `w` is in the list, and no later set of the list has its key. */
  ghost predicate LastOnKey(ws: seq<SetTask>, w: SetTask) {
    exists i :: 0 <= i < |ws| && ws[i] == w && forall j :: i < j < |ws| ==> ws[j].key != w.key
  }

  /** The last set on a key decides its record. */
  lemma {:induction false} LastSetStores(x: Transform, db: Db, ws: seq<SetTask>, i: nat)
    requires i < |ws| && FormOf(x, ws[i].data).Stored?
    requires forall j :: i < j < |ws| ==> ws[j].key != ws[i].key
    ensures Holds(x, ApplyAll(x, db, ws), ws[i].key, ws[i].data)
  {
    if i < |ws| - 1 {
      LastSetStores(x, db, ws[..|ws| - 1], i);
    }
  }

  /** `t` is over, or `w` is the last set on its key in it. */
  ghost predicate Waits(s: St, t: TxnId, w: SetTask) {
    0 < t <= s.txnSeq && (t in s.txns ==> LastOnKey(s.txns[t].writes, w))
  }

  predicate IsSetOn(m: Msg, t: TxnId, k: Bytes) {
    m.Set? && m.write.txn == t && m.write.key == k
  }

  lemma {:induction false} CommitKeepsWaiting(env: Env, s: St, m: CommitTask, t: TxnId, w: SetTask)
    requires Waits(s, t, w)
    ensures Waits(CommitStep(env, s, m).st, t, w)
    decreases |s.queue|
  {
    hide LastOnKey;
    if Runs(env, s, m) && s.queue != [] {
      CommitKeepsWaiting(env, CommitOne(env, s, m).st.(queue := s.queue[1..]), s.queue[0], t, w);
    }
  }

  lemma LaterOnOtherKey(ws: seq<SetTask>, w: SetTask, later: SetTask)
    requires LastOnKey(ws, w) && later.key != w.key
    ensures LastOnKey(ws + [later], w)
  {
    var i :| 0 <= i < |ws| && ws[i] == w && forall j :: i < j < |ws| ==> ws[j].key != w.key;
    var now := ws + [later];
    assert now[i] == w && forall j :: i < j < |now| ==> now[j].key != w.key;
  }

  lemma StepKeepsWaiting(env: Env, s: St, m: Msg, t: TxnId, w: SetTask)
    requires Waits(s, t, w) && !IsSetOn(m, t, w.key)
    requires m.Begin? ==> s.txnSeq as int + 1 < TXN_ID_LIMIT
    ensures Waits(Step(env, s, m).st, t, w)
    ensures Step(env, s, m).st.txnSeq <= s.txnSeq + if m.Begin? then 1 else 0
  {
    if m.Commit? {
      CommitKeepsWaiting(env, s, m.commit, t, w);
      CommitKeepsSeq(env, s, m.commit);
    } else if m.Set? && m.write.txn == t && t in s.txns {
      LaterOnOtherKey(s.txns[t].writes, w, m.write);
    }
    hide CommitStep, LastOnKey;
  }

  lemma {:induction false} RunKeepsWaiting(env: Env, s: St, ms: seq<Msg>, t: TxnId, w: SetTask)
    requires Waits(s, t, w) && s.txnSeq as int + BeginCount(ms) < TXN_ID_LIMIT
    requires forall i :: 0 <= i < |ms| ==> !IsSetOn(ms[i], t, w.key)
    ensures Waits(Run(env, s, ms).st, t, w)
    decreases |ms|
  {
    hide Step, Waits, IsSetOn;
    if ms != [] {
      StepKeepsWaiting(env, s, ms[0], t, w);
      RunKeepsWaiting(env, Step(env, s, ms[0]).st, ms[1..], t, w);
    }
  }

  /** A set that is neither completed nor let go of waits in its transaction. */
  lemma BufferedWaits(env: Env, s: St, w: SetTask)
    requires TableInOrder(s) && SetStep(env, s, w).done == [] && SetStep(env, s, w).lost == multiset{}
    ensures Waits(SetStep(env, s, w).st, w.txn, w)
  {
    var ws := s.txns[w.txn].writes + [w];
    assert ws[|ws| - 1] == w;
    hide AllCarry;
  }

  /** The same after any run from the start, and the storage is sane all along. */
  lemma BufferedFromStart(env: Env, db: Db, before: seq<Msg>, w: SetTask)
    requires BeginCount(before) < TXN_ID_LIMIT
    requires var put := SetStep(env, Run(env, Init(db), before).st, w);
      put.done == [] && put.lost == multiset{}
    ensures var now := SetStep(env, Run(env, Init(db), before).st, w).st;
      Sane(now) && Waits(now, w.txn, w) && now.txnSeq <= BeginCount(before)
  {
    var s := Run(env, Init(db), before).st;
    SaneFromStart(env, db, before, w);
    IdsAreFresh(env, Init(db), before);
    hide Run, SetStep, Waits, TableInOrder, Sane, IdsReturned, CountUp, BeginCount;
    BufferedWaits(env, s, w);
    SetKeepsTable(env, s, w);
  }

  lemma SaneFromStart(env: Env, db: Db, before: seq<Msg>, w: SetTask)
    ensures Sane(SetStep(env, Run(env, Init(db), before).st, w).st)
  {
    var s := Run(env, Init(db), before).st;
    RunKeepsSane(env, Init(db), before);
    StepIsSetStep(env, s, w);
    hide Run, Sane, SetStep, Step;
    StepKeepsSane(env, s, Set(w));
  }

  lemma StepIsSetStep(env: Env, s: St, w: SetTask)
    ensures Step(env, s, Set(w)) == SetStep(env, s, w)
  {}

  // ----- its commit -----

  predicate IsSuccessOf(d: Done, t: TxnId) {
    d.msg.Commit? && d.msg.commit.txn == t && d.outcome.Succeeded?
  }

  /** One commit that succeeds stores what waits in its transaction. */
  lemma CommitOneStores(env: Env, s: St, m: CommitTask, w: SetTask)
    requires Waits(s, m.txn, w) && m.txn in s.txns
    requires var r := CommitOne(env, s, m); |r.done| > 0 && r.done[|r.done| - 1].outcome.Succeeded?
    ensures Holds(env.transform, CommitOne(env, s, m).st.db, w.key, w.data)
  {
    var p := s.txns[m.txn];
    var i :| 0 <= i < |p.writes| && p.writes[i] == w && forall j :: i < j < |p.writes| ==> p.writes[j].key != w.key;
    CommitAllOrNothing(env, s, m);
    assert WriteGoesThrough(env, s.calls + 1, p.writes, i);
    LastSetStores(env.transform, s.db, p.writes, i);
    hide CommitOne, ApplyAll, AllGoThrough;
  }

  /** Completions of a commit: only the last one is that of a commit, its own. */
  lemma OnlyItsOwn(env: Env, s: St, m: CommitTask, t: TxnId, j: nat)
    requires m.txn in s.txns
    requires var ds := CommitOne(env, s, m).done; j < |ds| && IsSuccessOf(ds[j], t)
    ensures j == |CommitOne(env, s, m).done| - 1 && m.txn == t
  {
    var p := s.txns[m.txn];
    ReplayCompletesSets(env, s.db, s.calls + 1, p.writes, p.error);
    hide Replay;
  }

  /** Among the completions `ds` that the handling of `m` delivers in a storage seen as `v`,
      the j-th one is a successful commit of `t`, and those behind it leave `k` alone. */
  predicate CommittedAt(x: Transform, v: View, m: Msg, ds: seq<Done>, j: nat, t: TxnId, k: Bytes) {
    && j < |ds| && IsSuccessOf(ds[j], t)
    && AllDoneSpare(x, SeeAllDone(x, v, m, ds[..j + 1]), m, ds[j + 1..], k)
  }

  lemma CommittedInRest(x: Transform, v: View, m: Msg, a: seq<Done>, b: seq<Done>, j: nat, t: TxnId, k: Bytes)
    requires CommittedAt(x, v, m, a + b, j, t, k) && j >= |a|
    ensures CommittedAt(x, SeeAllDone(x, v, m, a), m, b, j - |a|, t, k)
  {
    hide AllDoneSpare, SeeAllDone;
    assert (a + b)[..j + 1] == a + b[..j + 1 - |a|];
    assert (a + b)[j + 1..] == b[j + 1 - |a|..];
    SeeAllDoneAppend(x, v, m, a, b[..j + 1 - |a|]);
  }

  /** A step in which some commit of `t` succeeds, at once or out of the queue, before or after
      others, leaves what waited in `t` in the records. */
  lemma {:induction false} DrainStores(env: Env, s: St, m: CommitTask, j: nat, t: TxnId, w: SetTask, msg: Msg)
    requires Sane(s) && Waits(s, t, w) && !msg.Set?
    requires CommittedAt(env.transform, ViewOf(s), msg, CommitStep(env, s, m).done, j, t, w.key)
    ensures CommitStep(env, s, m).st.open
    ensures Holds(env.transform, CommitStep(env, s, m).st.db, w.key, w.data)
    decreases |s.queue|
  {
    hide CommitOne, Waits, Holds, Sane, SeeAllDone, AllDoneSpare, ViewOf;
    CommitKeepsOpen(env, s, m);
    if Runs(env, s, m) {
      var one := CommitOne(env, s, m);
      CommitOneKeepsSane(env, s, m);
      CommitOneSettles(env, s, m);
      if s.queue == [] {
        OnlyItsOwn(env, s, m, t, j);
        CommitOneStores(env, s, m, w);
      } else {
        var s' := one.st.(queue := s.queue[1..]);
        var rest := CommitStep(env, s', s.queue[0]);
        SaneIgnoresQueue(one.st, s');
        SeeCommitOne(env, s, m, msg);
        if j < |one.done| {
          assert (one.done + rest.done)[j] == one.done[j];
          OnlyItsOwn(env, s, m, t, j);
          CommitOneStores(env, s, m, w);
          DrainSpares(env, s, m, w.key, msg);
          SparedHolds(env.transform, one.st.db, rest.st.db, w.key, w.data);
        } else {
          CommittedInRest(env.transform, ViewOf(s), msg, one.done, rest.done, j, t, w.key);
          CommitOneKeepsWaiting(env, s, m, t, w);
          DrainStores(env, s', s.queue[0], j - |one.done|, t, w, msg);
        }
      }
    }
  }

  lemma SaneIgnoresQueue(a: St, b: St)
    requires Sane(a) && b == a.(queue := b.queue)
    ensures Sane(b) && ViewOf(b) == ViewOf(a)
  {}

  lemma CommitOneKeepsWaiting(env: Env, s: St, m: CommitTask, t: TxnId, w: SetTask)
    requires Waits(s, t, w) && m.txn in s.txns
    ensures Waits(CommitOne(env, s, m).st.(queue := if s.queue == [] then [] else s.queue[1..]), t, w)
  {
    hide LastOnKey;
  }

  lemma DrainSpares(env: Env, s: St, m: CommitTask, k: Bytes, msg: Msg)
    requires Sane(s) && !msg.Set? && Runs(env, s, m) && s.queue != []
    requires var one := CommitOne(env, s, m);
      var ds := CommitStep(env, s, m).done;
      && |one.done| <= |ds|
      && AllDoneSpare(env.transform, SeeAllDone(env.transform, ViewOf(s), msg, ds[..|one.done|]), msg,
                      ds[|one.done|..], k)
    ensures SameAt(CommitOne(env, s, m).st.db, CommitStep(env, s, m).st.db, k)
  {
    hide CommitOne, SeeAllDone, AllDoneSpare, Sane, SameAt;
    var one := CommitOne(env, s, m);
    var s' := one.st.(queue := s.queue[1..]);
    var rest := CommitStep(env, s', s.queue[0]);
    assert (one.done + rest.done)[..|one.done|] == one.done && (one.done + rest.done)[|one.done|..] == rest.done;
    CommitOneKeepsSane(env, s, m);
    SaneIgnoresQueue(one.st, s');
    SeeCommitOne(env, s, m, msg);
    SeeCommit(env, s', s.queue[0], msg);
    SeeAllDoneSpares(env.transform, ViewOf(s'), msg, rest.done, k);
  }
}
