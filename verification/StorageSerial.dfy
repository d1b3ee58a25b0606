/** The serial history.  An observer that only sees which messages are posted and
    which complete can say what the database holds: a set acts when it completes in its own
    step, a transaction acts at once when its commit completes with success, with the
    sets buffered since its begin in the order they were posted, and nothing else acts.
    In particular a transaction one of whose commits has failed never acts. */
module StorageSerial {
  import opened Wrappers
  import opened StorageSpec
  import opened StorageRuns
  import opened StorageCommits

  /** What the observer knows: the records, and the sets posted to each live transaction
      none of whose sets and commits has failed. */
  datatype View = View(db: Db, posted: map<TxnId, seq<SetTask>>)

  /** One message and the completions its handling delivered. */
  datatype Event = Event(msg: Msg, done: seq<Done>)

  function SeeDone(x: Transform, v: View, m: Msg, d: Done): View {
    match d.msg
    case Set(w) =>
      if m != d.msg then v
      else if d.outcome.Succeeded? then v.(db := ApplyAll(x, v.db, [w]))
      else v.(posted := v.posted - {w.txn})
    case Begin(_) =>
      if d.outcome.Succeeded? && d.outcome.payload.Number? && 0 < d.outcome.payload.n < TXN_ID_LIMIT
      then v.(posted := v.posted[d.outcome.payload.n := []]) else v
    case Commit(c) =>
      if d.outcome.Succeeded? then
        View(if c.txn in v.posted then ApplyAll(x, v.db, v.posted[c.txn]) else v.db, v.posted - {c.txn})
      else v.(posted := v.posted - {c.txn})
    case Cancel(_, t) => if d.outcome.Succeeded? then v.(posted := v.posted - {t}) else v
    case _ => v
  }

  function SeeAllDone(x: Transform, v: View, m: Msg, ds: seq<Done>): View
    decreases |ds|
  {
    if ds == [] then v else SeeAllDone(x, SeeDone(x, v, m, ds[0]), m, ds[1..])
  }

  /** A set that is posted to a live transaction and does not complete waits for its commit. */
  function See(x: Transform, v: View, e: Event): View {
    var v' := SeeAllDone(x, v, e.msg, e.done);
    if e.msg.Set? && e.done == [] && e.msg.write.txn != 0 && e.msg.write.txn in v'.posted
    then
      var t := e.msg.write.txn;
      v'.(posted := v'.posted[t := v'.posted[t] + [e.msg.write]])
    else v'
  }

  function SeeTrace(x: Transform, v: View, es: seq<Event>): View
    decreases |es|
  {
    if es == [] then v else SeeTrace(x, See(x, v, es[0]), es[1..])
  }

  ghost function Trace(env: Env, s: St, ms: seq<Msg>): seq<Event>
    decreases |ms|
  {
    if ms == [] then []
    else
      var r := Step(env, s, ms[0]);
      [Event(ms[0], r.done)] + Trace(env, r.st, ms[1..])
  }

  // ----- the observer is right -----

  function Posted(txns: map<TxnId, Pending>): map<TxnId, seq<SetTask>> {
    map t | t in txns && t != 0 && txns[t].error.None? :: txns[t].writes
  }

  /** A closed storage is empty, and the id 0, which only appears when the counter wraps
      around, never has sets. */
  predicate Sane(s: St) {
    ClosedIsEmpty(s) && (0 in s.txns ==> s.txns[0].writes == [])
  }

  lemma {:induction false} CommitKeepsSane(env: Env, s: St, c: CommitTask)
    requires Sane(s)
    ensures Sane(CommitStep(env, s, c).st)
    decreases |s.queue|
  {
    if Runs(env, s, c) && s.queue != [] {
      CommitKeepsSane(env, CommitOne(env, s, c).st.(queue := s.queue[1..]), s.queue[0]);
    }
  }

  lemma StepKeepsSane(env: Env, s: St, m: Msg)
    requires Sane(s)
    ensures Sane(Step(env, s, m).st)
  {
    if m.Commit? {
      CommitKeepsSane(env, s, m.commit);
    }
  }

  lemma {:induction false} RunKeepsSane(env: Env, s: St, ms: seq<Msg>)
    requires Sane(s)
    ensures Sane(Run(env, s, ms).st)
    decreases |ms|
  {
    hide Step, Sane;
    if ms != [] {
      StepKeepsSane(env, s, ms[0]);
      RunKeepsSane(env, Step(env, s, ms[0]).st, ms[1..]);
    }
  }

  function ViewOf(s: St): View {
    View(s.db, Posted(s.txns))
  }

  lemma {:induction false} SeeAllDoneAppend(x: Transform, v: View, m: Msg, a: seq<Done>, b: seq<Done>)
    ensures SeeAllDone(x, v, m, a + b) == SeeAllDone(x, SeeAllDone(x, v, m, a), m, b)
    decreases |a|
  {
    if a == [] {
      assert a + b == b;
    } else {
      assert (a + b)[1..] == a[1..] + b;
      SeeAllDoneAppend(x, SeeDone(x, v, m, a[0]), m, a[1..], b);
    }
  }

  /** The sets completed inside a commit do not act on their own. */
  lemma {:induction false} SetsOfCommitsAreSilent(x: Transform, v: View, m: Msg, ds: seq<Done>)
    requires !m.Set? && forall i :: 0 <= i < |ds| ==> ds[i].msg.Set?
    ensures SeeAllDone(x, v, m, ds) == v
    decreases |ds|
  {
    if ds != [] {
      SetsOfCommitsAreSilent(x, v, m, ds[1..]);
    }
  }

  lemma SeeOneDone(x: Transform, v: View, m: Msg, d: Done)
    ensures SeeAllDone(x, v, m, [d]) == SeeDone(x, v, m, d)
  {
    assert [d][1..] == [];
  }

  lemma SeeCommitOne(env: Env, s: St, c: CommitTask, m: Msg)
    requires c.txn in s.txns && !m.Set? && Sane(s)
    ensures SeeAllDone(env.transform, ViewOf(s), m, CommitOne(env, s, c).done) == ViewOf(CommitOne(env, s, c).st)
  {
    var r := CommitOne(env, s, c);
    var p := s.txns[c.txn];
    var sets := Replay(env, s.db, s.calls + 1, p.writes, p.error).done;
    var last := r.done[|r.done| - 1];
    assert r.done == sets + [last];
    ReplayCompletesSets(env, s.db, s.calls + 1, p.writes, p.error);
    SeeAllDoneAppend(env.transform, ViewOf(s), m, sets, [last]);
    SetsOfCommitsAreSilent(env.transform, ViewOf(s), m, sets);
    SeeOneDone(env.transform, ViewOf(s), m, last);
    hide SeeAllDone, Replay;
    SeeVerdict(env, s, c, m);
  }

  lemma SeeVerdict(env: Env, s: St, c: CommitTask, m: Msg)
    requires c.txn in s.txns && Sane(s)
    ensures var r := CommitOne(env, s, c);
      |r.done| > 0 && SeeDone(env.transform, ViewOf(s), m, r.done[|r.done| - 1]) == ViewOf(r.st)
  {
    CommitAllOrNothing(env, s, c);
    assert Posted(s.txns - {c.txn}) == Posted(s.txns) - {c.txn};
    assert ApplyAll(env.transform, s.db, []) == s.db;
    hide CommitOne, ApplyAll, AllGoThrough, Posted;
    PostedAt(s.txns, c.txn);
  }

  lemma PostedAt(txns: map<TxnId, Pending>, t: TxnId)
    requires t in txns
    ensures t in Posted(txns) <==> t != 0 && txns[t].error.None?
    ensures t in Posted(txns) ==> Posted(txns)[t] == txns[t].writes
  {}

  lemma {:induction false} SeeCommit(env: Env, s: St, c: CommitTask, m: Msg)
    requires Sane(s) && !m.Set?
    ensures SeeAllDone(env.transform, ViewOf(s), m, CommitStep(env, s, c).done) == ViewOf(CommitStep(env, s, c).st)
    decreases |s.queue|
  {
    hide CommitOne, SeeAllDone, SeeDone;
    var r := CommitStep(env, s, c);
    if Runs(env, s, c) {
      SeeCommitOne(env, s, c, m);
      var one := CommitOne(env, s, c);
      if s.queue != [] {
        var s' := one.st.(queue := s.queue[1..]);
        CommitOneKeepsSane(env, s, c);
        SeeCommit(env, s', s.queue[0], m);
        SeeAllDoneAppend(env.transform, ViewOf(s), m, one.done, CommitStep(env, s', s.queue[0]).done);
      }
    } else {
      SeeCommitEarly(env, s, c, m);
    }
  }

  lemma CommitOneKeepsSane(env: Env, s: St, c: CommitTask)
    requires c.txn in s.txns && Sane(s)
    ensures CommitOne(env, s, c).st.open == s.open && Sane(CommitOne(env, s, c).st)
  {}

  lemma SeeCommitEarly(env: Env, s: St, c: CommitTask, m: Msg)
    requires Sane(s) && !m.Set? && !Runs(env, s, c)
    ensures SeeAllDone(env.transform, ViewOf(s), m, CommitStep(env, s, c).done) == ViewOf(CommitStep(env, s, c).st)
  {
    var r := CommitStep(env, s, c);
    if !Deferred(s, c) {
      SeeOneDone(env.transform, ViewOf(s), m, r.done[0]);
      assert Posted(r.st.txns) == Posted(s.txns) - {c.txn};
    } else {
      assert Posted(r.st.txns) == Posted(s.txns);
    }
  }

  lemma SeeStep(env: Env, s: St, m: Msg)
    requires Sane(s)
    ensures var r := Step(env, s, m);
      See(env.transform, ViewOf(s), Event(m, r.done)) == ViewOf(r.st)
  {
    var r := Step(env, s, m);
    if m.Commit? {
      SeeCommit(env, s, m.commit, m);
    } else if m.Set? {
      SeeSet(env, s, m.write);
    } else {
      SeeOneDone(env.transform, ViewOf(s), m, r.done[0]);
      if m.Begin? && s.open {
        PostedBegin(s.txns, r.st.txnSeq);
      } else if m.Cancel? && s.open {
        assert Posted(r.st.txns) == Posted(s.txns) - {m.txn};
      } else {
        assert Posted(r.st.txns) == Posted(s.txns);
      }
    }
  }

  lemma PostedBegin(txns: map<TxnId, Pending>, t: TxnId)
    ensures Posted(txns[t := Pending([], None)]) == if t == 0 then Posted(txns) else Posted(txns)[t := []]
  {}

  lemma SeeSet(env: Env, s: St, w: SetTask)
    requires Sane(s)
    ensures var r := SetStep(env, s, w);
      See(env.transform, ViewOf(s), Event(Set(w), r.done)) == ViewOf(r.st)
  {
    var r := SetStep(env, s, w);
    if r.done != [] {
      SeeOneDone(env.transform, ViewOf(s), Set(w), r.done[0]);
      SeeStored(env, s, w);
      hide SetStep, Posted, ApplyAll;
    } else {
      hide ApplyAll;
    }
  }

  /** A set that completes in its own step. */
  lemma SeeStored(env: Env, s: St, w: SetTask)
    requires Sane(s) && SetStep(env, s, w).done != []
    ensures var r := SetStep(env, s, w);
      && |r.done| == 1 && r.done[0].msg == Set(w)
      && Posted(r.st.txns) == (if r.done[0].outcome.Succeeded? then Posted(s.txns) else Posted(s.txns) - {w.txn})
      && r.st.db == (if r.done[0].outcome.Succeeded? then ApplyAll(env.transform, s.db, [w]) else s.db)
  {
    assert [w][..0] == [] && ApplyAll(env.transform, s.db, []) == s.db;
  }

  /** Serial history, for every run of every storage whatever TDB and the transform do:
      what the observer makes of the trace is what the database holds. */
  lemma {:induction false} SerialHistory(env: Env, s: St, ms: seq<Msg>)
    requires Sane(s)
    ensures SeeTrace(env.transform, ViewOf(s), Trace(env, s, ms)) == ViewOf(Run(env, s, ms).st)
    decreases |ms|
  {
    hide Step, See, ViewOf;
    if ms != [] {
      SeeStep(env, s, ms[0]);
      var r := Step(env, s, ms[0]);
      StepKeepsSane(env, s, ms[0]);
      SerialHistory(env, r.st, ms[1..]);
      assert Trace(env, s, ms)[1..] == Trace(env, r.st, ms[1..]);
    }
  }

  lemma SerialFromStart(env: Env, db: Db, ms: seq<Msg>)
    ensures SeeTrace(env.transform, View(db, map[]), Trace(env, Init(db), ms)).db == Run(env, Init(db), ms).st.db
  {
    SerialHistory(env, Init(db), ms);
    assert ViewOf(Init(db)) == View(db, map[]);
  }

  // ----- keys that nothing acts on -----

  predicate NoKey(ws: seq<SetTask>, k: Bytes) {
    forall i :: 0 <= i < |ws| ==> ws[i].key != k
  }

  predicate DoneSpares(v: View, m: Msg, d: Done, k: Bytes) {
    && (d.msg.Set? && m == d.msg && d.outcome.Succeeded? ==> d.msg.write.key != k)
    && (d.msg.Commit? && d.outcome.Succeeded? && d.msg.commit.txn in v.posted ==>
          NoKey(v.posted[d.msg.commit.txn], k))
  }

  predicate AllDoneSpare(x: Transform, v: View, m: Msg, ds: seq<Done>, k: Bytes)
    decreases |ds|
  {
    ds == [] || (DoneSpares(v, m, ds[0], k) && AllDoneSpare(x, SeeDone(x, v, m, ds[0]), m, ds[1..], k))
  }

  /** Nothing in the trace takes effect on `k`. */
  predicate TraceSpares(x: Transform, v: View, es: seq<Event>, k: Bytes)
    decreases |es|
  {
    es == [] || (AllDoneSpare(x, v, es[0].msg, es[0].done, k) && TraceSpares(x, See(x, v, es[0]), es[1..], k))
  }

  predicate SameAt(a: Db, b: Db, k: Bytes) {
    (k in a <==> k in b) && (k in a ==> a[k] == b[k])
  }

  lemma {:induction false} ApplyAllSpares(x: Transform, db: Db, ws: seq<SetTask>, k: Bytes)
    requires NoKey(ws, k)
    ensures SameAt(db, ApplyAll(x, db, ws), k)
  {
    if ws != [] {
      ApplyAllSpares(x, db, ws[..|ws| - 1], k);
    }
  }

  lemma {:induction false} SeeAllDoneSpares(x: Transform, v: View, m: Msg, ds: seq<Done>, k: Bytes)
    requires AllDoneSpare(x, v, m, ds, k)
    ensures SameAt(v.db, SeeAllDone(x, v, m, ds).db, k)
    decreases |ds|
  {
    hide ApplyAll;
    if ds != [] {
      if ds[0].msg.Set? && ds[0].msg == m && ds[0].outcome.Succeeded? {
        ApplyAllSpares(x, v.db, [ds[0].msg.write], k);
      }
      if ds[0].msg.Commit? && ds[0].outcome.Succeeded? && ds[0].msg.commit.txn in v.posted {
        ApplyAllSpares(x, v.db, v.posted[ds[0].msg.commit.txn], k);
      }
      SeeAllDoneSpares(x, SeeDone(x, v, m, ds[0]), m, ds[1..], k);
    }
  }

  lemma {:induction false} SeeTraceSpares(x: Transform, v: View, es: seq<Event>, k: Bytes)
    requires TraceSpares(x, v, es, k)
    ensures SameAt(v.db, SeeTrace(x, v, es).db, k)
    decreases |es|
  {
    hide AllDoneSpare, SeeAllDone;
    if es != [] {
      SeeAllDoneSpares(x, v, es[0].msg, es[0].done, k);
      SeeTraceSpares(x, See(x, v, es[0]), es[1..], k);
    }
  }

  /** A record stays as it is for as long as nothing takes effect on its key. */
  lemma RecordStays(env: Env, s: St, ms: seq<Msg>, k: Bytes)
    requires Sane(s)
    requires TraceSpares(env.transform, ViewOf(s), Trace(env, s, ms), k)
    ensures SameAt(s.db, Run(env, s, ms).st.db, k)
  {
    SerialHistory(env, s, ms);
    SeeTraceSpares(env.transform, ViewOf(s), Trace(env, s, ms), k);
  }
}
