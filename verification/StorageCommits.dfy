/** Commits: all or nothing, first error first, deferred ones in arrival order. */
module StorageCommits {
  import opened Wrappers
  import opened StorageSpec

  // ----- one commit -----

  /** The records after all these sets, in order. */
  function ApplyAll(x: Transform, db: Db, ws: seq<SetTask>): Db {
    if ws == [] then db
    else
      var d := ApplyAll(x, db, ws[..|ws| - 1]);
      var w := ws[|ws| - 1];
      match FormOf(x, w.data)
      case Stored(b) => d[w.key := b]
      case Rejected(_) => d
  }

  /** Neither the transform nor TDB gets in the way of the i-th write. */
  predicate WriteGoesThrough(env: Env, calls: nat, ws: seq<SetTask>, i: nat)
    requires i < |ws|
  {
    FormOf(env.transform, ws[i].data).Stored? && env.tdb(calls + i)
  }

  predicate AllGoThrough(env: Env, calls: nat, ws: seq<SetTask>) {
    forall i :: 0 <= i < |ws| ==> WriteGoesThrough(env, calls, ws, i)
  }

  /** The commit of a transaction `p` whose TDB transaction started with call `calls`. */
  predicate CommitGoesThrough(env: Env, calls: nat, p: Pending) {
    && (p.writes == [] || p.error.None?)
    && AllGoThrough(env, calls + 1, p.writes)
    && env.tdb(calls + 1 + |p.writes|)
  }

  function SetsDone(ws: seq<SetTask>): (ds: seq<Done>)
    ensures |ds| == |ws|
    ensures forall i :: 0 <= i < |ws| ==> ds[i] == Done(Set(ws[i]), Succeeded(NoData))
  {
    if ws == [] then [] else [Done(Set(ws[0]), Succeeded(NoData))] + SetsDone(ws[1..])
  }

  lemma {:induction false} ApplyFirst(x: Transform, db: Db, ws: seq<SetTask>)
    requires ws != []
    ensures ApplyAll(x, db, ws) == ApplyAll(x, ApplyAll(x, db, ws[..1]), ws[1..])
  {
    if |ws| == 1 {
      assert ws[..1] == ws;
    } else {
      var init := ws[..|ws| - 1];
      ApplyFirst(x, db, init);
      assert init[..1] == ws[..1];
      assert ws[1..][..|ws[1..]| - 1] == init[1..];
    }
  }

  lemma AllButFirst(env: Env, calls: nat, ws: seq<SetTask>)
    requires ws != []
    ensures AllGoThrough(env, calls, ws) <==>
      WriteGoesThrough(env, calls, ws, 0) && AllGoThrough(env, calls + 1, ws[1..])
  {
    var c, rest := calls + 1, ws[1..];
    if AllGoThrough(env, calls, ws) {
      forall i | 0 <= i < |rest| ensures WriteGoesThrough(env, c, rest, i) {
        assert WriteGoesThrough(env, calls, ws, i + 1);
      }
    } else {
      var i :| 0 <= i < |ws| && !WriteGoesThrough(env, calls, ws, i);
      assert i > 0 ==> !WriteGoesThrough(env, c, rest, i - 1);
    }
  }

  /** A replay that meets no error stores every write, in submission order. */
  lemma {:induction false} ReplayAll(env: Env, db: Db, calls: nat, ws: seq<SetTask>, stale: Option<Error>)
    requires AllGoThrough(env, calls, ws) && (ws == [] || stale.None?)
    ensures Replay(env, db, calls, ws, stale) ==
      Replayed(ApplyAll(env.transform, db, ws), calls + |ws|, SetsDone(ws), multiset{}, None)
    decreases |ws|
  {
    if ws != [] {
      assert WriteGoesThrough(env, calls, ws, 0);
      AllButFirst(env, calls, ws);
      var w := WriteOne(env, db, calls, ws[0]);
      ReplayAll(env, w.db, w.calls, ws[1..], None);
      ApplyFirst(env.transform, db, ws);
      assert ws[..1][..0] == [] && ApplyAll(env.transform, db, ws[..1]) == w.db;
    }
  }

  /** The error noted by the replay is the stale one, or belongs to the last completion
      it delivered; every completion before that one is a success; the rest are lost. */
  predicate StopsAt(r: Replayed, ws: seq<SetTask>, stale: Option<Error>) {
    && 0 < |r.done| <= |ws|
    && (forall i :: 0 <= i < |r.done| ==> r.done[i].msg == Set(ws[i]))
    && (forall i :: 0 <= i < |r.done| - 1 ==> r.done[i].outcome == Succeeded(NoData))
    && r.lost == WriteIds(ws[|r.done|..])
    && (r.done[|r.done| - 1].outcome == Failed(r.error)
        || (|r.done| == 1 && r.done[0].outcome == Succeeded(NoData) && r.error == stale))
  }

  lemma {:induction false} ReplayStops(env: Env, db: Db, calls: nat, ws: seq<SetTask>, stale: Option<Error>)
    requires !(AllGoThrough(env, calls, ws) && (ws == [] || stale.None?))
    ensures var r := Replay(env, db, calls, ws, stale);
      r.error.Some? && StopsAt(r, ws, stale)
    decreases |ws|
  {
    hide AllGoThrough, StopsAt, WriteIds;
    NoWritesGoThrough(env, calls, ws);
    var w := WriteOne(env, db, calls, ws[0]);
    var e := if w.error.Some? then w.error else stale;
    if e.Some? {
      StopsAtFirst(ws, stale, w, e);
    } else {
      AllButFirst(env, calls, ws);
      assert WriteGoesThrough(env, calls, ws, 0) && w.calls == calls + 1;
      ReplayStops(env, w.db, w.calls, ws[1..], None);
      StopsLater(ws, Replay(env, w.db, w.calls, ws[1..], None));
    }
  }

  lemma NoWritesGoThrough(env: Env, calls: nat, ws: seq<SetTask>)
    ensures ws == [] ==> AllGoThrough(env, calls, ws)
  {}

  lemma StopsAtFirst(ws: seq<SetTask>, stale: Option<Error>, w: Write, e: Option<Error>)
    requires ws != [] && e == if w.error.Some? then w.error else stale
    ensures StopsAt(Replayed(w.db, w.calls, [Done(Set(ws[0]), WriteOutcome(w))], WriteIds(ws[1..]), e), ws, stale)
  {
    hide WriteIds;
  }

  lemma StopsLater(ws: seq<SetTask>, r: Replayed)
    requires ws != [] && r.error.Some? && StopsAt(r, ws[1..], None)
    ensures StopsAt(r.(done := [Done(Set(ws[0]), Succeeded(NoData))] + r.done), ws, None)
  {
    hide WriteIds;
    assert ws[1..][|r.done|..] == ws[|r.done| + 1..];
  }

  /** Whether a replay meets an error, and what it does if not. */
  lemma ReplayVerdict(env: Env, db: Db, calls: nat, ws: seq<SetTask>, stale: Option<Error>)
    ensures var r := Replay(env, db, calls, ws, stale);
      && (r.error.None? <==> AllGoThrough(env, calls, ws) && (ws == [] || stale.None?))
      && (r.error.None? ==>
            r == Replayed(ApplyAll(env.transform, db, ws), calls + |ws|, SetsDone(ws), multiset{}, None))
  {
    hide AllGoThrough, Replay, ApplyAll, SetsDone, StopsAt;
    if AllGoThrough(env, calls, ws) && (ws == [] || stale.None?) {
      ReplayAll(env, db, calls, ws, stale);
    } else {
      ReplayStops(env, db, calls, ws, stale);
    }
  }

  /** What a commit that has started leaves behind in either case. */
  ghost predicate SettlesOnly(s: St, m: CommitTask, r: Result) {
    && |r.done| > 0 && r.done[|r.done| - 1].msg == Commit(m)
    && r.st == s.(db := r.st.db, calls := r.st.calls, txn := 0, txns := s.txns - {m.txn})
  }

  lemma CommitSucceeds(env: Env, s: St, m: CommitTask)
    requires m.txn in s.txns && CommitGoesThrough(env, s.calls, s.txns[m.txn])
    ensures var r := CommitOne(env, s, m);
      var ws := s.txns[m.txn].writes;
      && SettlesOnly(s, m, r)
      && r.st.db == ApplyAll(env.transform, s.db, ws)
      && r.done == SetsDone(ws) + [Done(Commit(m), Succeeded(NoData))]
      && r.lost == multiset{}
  {
    hide Replay, ApplyAll, AllGoThrough, SetsDone;
    ReplayVerdict(env, s.db, s.calls + 1, s.txns[m.txn].writes, s.txns[m.txn].error);
  }

  lemma CommitFails(env: Env, s: St, m: CommitTask)
    requires m.txn in s.txns && !CommitGoesThrough(env, s.calls, s.txns[m.txn])
    ensures var r := CommitOne(env, s, m);
      && SettlesOnly(s, m, r)
      && r.st.db == s.db
      && r.done[|r.done| - 1].outcome.Failed? && r.done[|r.done| - 1].outcome.error.Some?
  {
    hide Replay, ApplyAll, AllGoThrough, SetsDone;
    ReplayVerdict(env, s.db, s.calls + 1, s.txns[m.txn].writes, s.txns[m.txn].error);
  }

  /** The commit of a started transaction is all or nothing, and which of the two is
      decided by the writes, the transform and TDB alone. */
  lemma CommitAllOrNothing(env: Env, s: St, m: CommitTask)
    requires m.txn in s.txns
    ensures var p := s.txns[m.txn];
      var r := CommitOne(env, s, m);
      && SettlesOnly(s, m, r)
      && (r.done[|r.done| - 1].outcome.Succeeded? <==> CommitGoesThrough(env, s.calls, p))
      && r.st.db == if CommitGoesThrough(env, s.calls, p) then ApplyAll(env.transform, s.db, p.writes) else s.db
  {
    if CommitGoesThrough(env, s.calls, s.txns[m.txn]) {
      CommitSucceeds(env, s, m);
    } else {
      CommitFails(env, s, m);
    }
    hide CommitOne, CommitGoesThrough, ApplyAll;
  }

  predicate FirstFailure(env: Env, calls: nat, ws: seq<SetTask>, i: nat) {
    && i < |ws| && !WriteGoesThrough(env, calls, ws, i)
    && forall j :: 0 <= j < i ==> WriteGoesThrough(env, calls, ws, j)
  }

  /** When a write fails, the error of the first failing one reaches the commit's task,
      the writes before it have completed, and the ones after it never will. */
  lemma FirstErrorReachesCommit(env: Env, s: St, m: CommitTask, i: nat)
    requires m.txn in s.txns && s.txns[m.txn].error.None?
    requires FirstFailure(env, s.calls + 1, s.txns[m.txn].writes, i)
    ensures var r := CommitOne(env, s, m);
      var ws := s.txns[m.txn].writes;
      && |r.done| == i + 2
      && (forall j :: 0 <= j < i ==> r.done[j] == Done(Set(ws[j]), Succeeded(NoData)))
      && r.done[i].msg == Set(ws[i]) && r.done[i].outcome.Failed? && r.done[i].outcome.error.Some?
      && r.done[i + 1] == Done(Commit(m), r.done[i].outcome)
      && r.lost == WriteIds(ws[i + 1..])
  {
    hide Replay, WriteIds, FirstFailure;
    FirstError(env, s.db, s.calls + 1, s.txns[m.txn].writes, i);
  }

  lemma {:induction false} FirstError(env: Env, db: Db, calls: nat, ws: seq<SetTask>, i: nat)
    requires FirstFailure(env, calls, ws, i)
    ensures var r := Replay(env, db, calls, ws, None);
      && |r.done| == i + 1 && r.error.Some? && r.lost == WriteIds(ws[i + 1..])
      && (forall j :: 0 <= j < i ==> r.done[j] == Done(Set(ws[j]), Succeeded(NoData)))
      && r.done[i] == Done(Set(ws[i]), Failed(r.error))
    decreases i
  {
    if i > 0 {
      assert WriteGoesThrough(env, calls, ws, 0);
      var w := WriteOne(env, db, calls, ws[0]);
      var c, rest := calls + 1, ws[1..];
      forall j | 0 <= j < i - 1 ensures WriteGoesThrough(env, c, rest, j) {
        assert WriteGoesThrough(env, calls, ws, j + 1);
      }
      FirstError(env, w.db, w.calls, rest, i - 1);
      assert rest[i..] == ws[i + 1..];
    }
  }

  // ----- deferred commits -----

  /** The commits among the completed tasks, in order. */
  function CommitsDone(ds: seq<Done>): seq<CommitTask> {
    if ds == [] then []
    else (if ds[0].msg.Commit? then [ds[0].msg.commit] else []) + CommitsDone(ds[1..])
  }

  lemma {:induction false} CommitsDoneAppend(a: seq<Done>, b: seq<Done>)
    ensures CommitsDone(a + b) == CommitsDone(a) + CommitsDone(b)
  {
    if a == [] {
      assert a + b == b;
    } else {
      var first := if a[0].msg.Commit? then [a[0].msg.commit] else [];
      assert (a + b)[1..] == a[1..] + b;
      assert CommitsDone(a + b) == first + CommitsDone(a[1..] + b);
      assert CommitsDone(a) == first + CommitsDone(a[1..]);
      hide CommitsDone;
      CommitsDoneAppend(a[1..], b);
      assert first + (CommitsDone(a[1..]) + CommitsDone(b)) == first + CommitsDone(a[1..]) + CommitsDone(b);
    }
  }

  lemma {:induction false} ReplayCompletesSets(env: Env, db: Db, calls: nat, ws: seq<SetTask>, stale: Option<Error>)
    ensures var r := Replay(env, db, calls, ws, stale);
      && |r.done| <= |ws| && (forall i :: 0 <= i < |r.done| ==> r.done[i].msg == Set(ws[i]))
    decreases |ws|
  {
    if ws != [] {
      var w := WriteOne(env, db, calls, ws[0]);
      ReplayCompletesSets(env, w.db, w.calls, ws[1..], None);
    }
  }

  lemma {:induction false} NoCommitsAmongSets(ds: seq<Done>)
    requires forall i :: 0 <= i < |ds| ==> ds[i].msg.Set?
    ensures CommitsDone(ds) == []
  {
    if ds != [] {
      NoCommitsAmongSets(ds[1..]);
    }
  }

  lemma CommitOneCompletesOne(env: Env, s: St, m: CommitTask)
    requires m.txn in s.txns
    ensures CommitsDone(CommitOne(env, s, m).done) == [m]
  {
    var p := s.txns[m.txn];
    var r := Replay(env, s.db, s.calls + 1, p.writes, p.error);
    ReplayCompletesSets(env, s.db, s.calls + 1, p.writes, p.error);
    NoCommitsAmongSets(r.done);
    var d := CommitOne(env, s, m).done;
    assert d == d[..|d| - 1] + [d[|d| - 1]] && d[..|d| - 1] == r.done;
    CommitsDoneAppend(r.done, [d[|d| - 1]]);
    assert [d[|d| - 1]][1..] == [];
  }

  /** A commit that is not deferred completes, and after it the deferred ones in the order
      they arrived.  If the drain stops early, it stops at a commit that fails and becomes
      the current transaction, and what it did not reach stays queued in order. */
  lemma {:induction false} DrainIsFifo(env: Env, s: St, m: CommitTask)
    requires s.open && !Deferred(s, m)
    ensures var r := CommitStep(env, s, m);
      var chain := [m] + s.queue;
      var k := |CommitsDone(r.done)|;
      && |r.done| > 0
      && 1 <= k <= |chain| && CommitsDone(r.done) == chain[..k] && r.st.queue == chain[k..]
      && (k < |chain| ==>
            && r.done[|r.done| - 1].msg == Commit(chain[k - 1])
            && r.done[|r.done| - 1].outcome.Failed? && r.st.txn == chain[k - 1].txn)
    decreases |s.queue|
  {
    hide CommitOne, CommitsDone;
    var r := CommitStep(env, s, m);
    var chain := [m] + s.queue;
    if !Runs(env, s, m) {
      CommitsDoneOne(Commit(m), r.done[0].outcome);
      assert chain[1..] == s.queue && chain[..1] == [m];
    } else {
      CommitOneCompletesOne(env, s, m);
      CommitOneSettles(env, s, m);
      var one := CommitOne(env, s, m);
      if s.queue == [] {
        assert chain[1..] == [] && chain[..1] == [m];
      } else {
        var s' := one.st.(queue := s.queue[1..]);
        DrainIsFifo(env, s', s.queue[0]);
        var rest := CommitStep(env, s', s.queue[0]);
        CommitsDoneAppend(one.done, rest.done);
        ChainSplit(m, s.queue, |CommitsDone(rest.done)|);
      }
    }
  }

  lemma CommitsDoneOne(m: Msg, o: Outcome)
    ensures CommitsDone([Done(m, o)]) == if m.Commit? then [m.commit] else []
  {
    assert [Done(m, o)][1..] == [];
  }

  lemma CommitOneSettles(env: Env, s: St, m: CommitTask)
    requires m.txn in s.txns
    ensures CommitOne(env, s, m).st.open == s.open && CommitOne(env, s, m).st.txn == 0
    ensures CommitOne(env, s, m).st.queue == s.queue && |CommitOne(env, s, m).done| > 0
  {}

  lemma ChainSplit(m: CommitTask, queue: seq<CommitTask>, k: nat)
    requires queue != [] && k <= |queue|
    ensures [queue[0]] + queue[1..] == queue
    ensures ([m] + queue)[..k + 1] == [m] + queue[..k]
    ensures ([m] + queue)[k + 1..] == queue[k..]
    ensures k > 0 ==> ([m] + queue)[k] == queue[k - 1]
  {}
}
