/** What clients are told.  The observer of StorageSerial, who sees which messages are posted
    and which complete, can also say from the completions alone whether the storage is
    open, which transactions are live and which one is current, and from that and the
    records how every message is answered. */
module StorageAnswers {
  import opened Wrappers
  import opened StorageSpec
  import opened StorageCommits
  import opened StorageRuns
  import opened StorageSerial

  // ----- what the completions say -----

  /** `last` is the id that was handed out last. */
  datatype Status = Status(open: bool, last: TxnId, live: set<TxnId>, current: TxnId)

  predicate IsSet(d: Option<Done>) {
    d.Some? && d.value.msg.Set?
  }

  /** One completion, and the one before it in the same step.  A commit that reports a failed
      start without having completed a set has not started, and stays current like one
      whose id is unknown; any other one has ended its transaction. */
  function Tell(st: Status, prev: Option<Done>, d: Done): Status {
    match d.msg
    case Open(_) => if d.outcome.Succeeded? then Status(true, st.last, {}, 0) else st
    case Close(_) => if d.outcome.Succeeded? then st.(open := false) else st
    case Begin(_) =>
      if d.outcome.Succeeded? && d.outcome.payload.Number? && 0 <= d.outcome.payload.n < TXN_ID_LIMIT
      then st.(last := d.outcome.payload.n, live := st.live + {d.outcome.payload.n}) else st
    case Cancel(_, t) => if d.outcome.Succeeded? then st.(live := st.live - {t}) else st
    case Commit(c) =>
      if !st.open then st
      else if d.outcome == Failed(Some(StateError)) || (d.outcome == Failed(Some(StartFailed)) && !IsSet(prev))
      then st.(current := c.txn)
      else st.(live := st.live - {c.txn}, current := 0)
    case _ => st
  }

  function TellAll(st: Status, prev: Option<Done>, ds: seq<Done>): Status
    decreases |ds|
  {
    if ds == [] then st else TellAll(Tell(st, prev, ds[0]), Some(ds[0]), ds[1..])
  }

  function TellTrace(st: Status, es: seq<Event>): Status
    decreases |es|
  {
    if es == [] then st else TellTrace(TellAll(st, None, es[0].done), es[1..])
  }

  function LastOf(prev: Option<Done>, ds: seq<Done>): Option<Done> {
    if ds == [] then prev else Some(ds[|ds| - 1])
  }

  lemma {:induction false} TellAllAppend(st: Status, prev: Option<Done>, a: seq<Done>, b: seq<Done>)
    ensures TellAll(st, prev, a + b) == TellAll(TellAll(st, prev, a), LastOf(prev, a), b)
    decreases |a|
  {
    if a == [] {
      assert a + b == b;
    } else {
      assert (a + b)[1..] == a[1..] + b;
      TellAllAppend(Tell(st, prev, a[0]), Some(a[0]), a[1..], b);
    }
  }

  lemma TellOne(st: Status, prev: Option<Done>, d: Done)
    ensures TellAll(st, prev, [d]) == Tell(st, prev, d)
  {
    assert [d][1..] == [];
  }

  lemma {:induction false} SetsTellNothing(st: Status, prev: Option<Done>, ds: seq<Done>)
    requires forall i :: 0 <= i < |ds| ==> ds[i].msg.Set?
    ensures TellAll(st, prev, ds) == st
    decreases |ds|
  {
    if ds != [] {
      SetsTellNothing(st, Some(ds[0]), ds[1..]);
    }
  }

  // ----- the completions tell the truth -----

  function StatusOf(s: St): Status {
    Status(s.open, s.txnSeq, s.txns.Keys, s.txn)
  }

  /** A closed storage is empty, and no live transaction carries the error of a message that
      was refused because of the storage's state. */
  predicate Honest(s: St) {
    Sane(s) && forall t :: t in s.txns ==> s.txns[t].error != Some(StateError)
  }

  lemma CommitOneKeepsHonest(env: Env, s: St, m: CommitTask)
    requires m.txn in s.txns && Honest(s)
    ensures var r := CommitOne(env, s, m).st;
      r.open == s.open && Honest(r) && Honest(r.(queue := if s.queue == [] then [] else s.queue[1..]))
  {
    hide Replay;
  }

  lemma {:induction false} CommitKeepsHonest(env: Env, s: St, m: CommitTask)
    requires Honest(s)
    ensures Honest(CommitStep(env, s, m).st)
    decreases |s.queue|
  {
    if Runs(env, s, m) {
      CommitOneKeepsHonest(env, s, m);
      hide CommitOne, Honest;
      if s.queue != [] {
        CommitKeepsHonest(env, CommitOne(env, s, m).st.(queue := s.queue[1..]), s.queue[0]);
      }
    }
  }

  lemma StepKeepsHonest(env: Env, s: St, m: Msg)
    requires Honest(s)
    ensures Honest(Step(env, s, m).st)
  {
    if m.Commit? {
      CommitKeepsHonest(env, s, m.commit);
    }
    hide CommitStep;
  }

  /** The errors a replay can end with: not those of a commit that did not start. */
  lemma {:induction false} ReplayError(env: Env, db: Db, calls: nat, ws: seq<SetTask>, stale: Option<Error>)
    ensures var r := Replay(env, db, calls, ws, stale);
      && (r.error.Some? ==> r.done != [])
      && (stale != Some(StateError) ==> r.error != Some(StateError))
    decreases |ws|
  {
    if ws != [] {
      var w := WriteOne(env, db, calls, ws[0]);
      ReplayError(env, w.db, w.calls, ws[1..], None);
    }
  }

  /** What the completion of the commit itself tells, behind those of its sets. */
  lemma OwnCommitTold(env: Env, s: St, m: CommitTask, prev: Option<Done>)
    requires s.open && m.txn in s.txns && Honest(s) && !IsSet(prev)
    ensures var p := s.txns[m.txn];
      var sets := Replay(env, s.db, s.calls + 1, p.writes, p.error).done;
      var r := CommitOne(env, s, m);
      && |r.done| == |sets| + 1 && r.done == sets + [r.done[|sets|]] && r.done[|sets|].msg == Commit(m)
      && Tell(StatusOf(s), LastOf(prev, sets), r.done[|sets|]) == StatusOf(r.st)
  {
    hide Replay;
    var p := s.txns[m.txn];
    ReplayCompletesSets(env, s.db, s.calls + 1, p.writes, p.error);
    ReplayError(env, s.db, s.calls + 1, p.writes, p.error);
    assert (s.txns - {m.txn}).Keys == s.txns.Keys - {m.txn};
  }

  lemma CommitOneTold(env: Env, s: St, m: CommitTask, prev: Option<Done>)
    requires s.open && m.txn in s.txns && Honest(s) && !IsSet(prev)
    ensures TellAll(StatusOf(s), prev, CommitOne(env, s, m).done) == StatusOf(CommitOne(env, s, m).st)
    ensures var ds := CommitOne(env, s, m).done; |ds| > 0 && ds[|ds| - 1].msg == Commit(m)
  {
    hide Replay, TellAll, Tell, CommitOne, Honest;
    var p := s.txns[m.txn];
    var r := CommitOne(env, s, m);
    var sets := Replay(env, s.db, s.calls + 1, p.writes, p.error).done;
    OwnCommitTold(env, s, m, prev);
    var last := r.done[|sets|];
    ReplayCompletesSets(env, s.db, s.calls + 1, p.writes, p.error);
    TellAllAppend(StatusOf(s), prev, sets, [last]);
    SetsTellNothing(StatusOf(s), prev, sets);
    TellOne(StatusOf(s), LastOf(prev, sets), last);
  }

  lemma {:induction false} CommitTold(env: Env, s: St, m: CommitTask, prev: Option<Done>)
    requires Honest(s) && !IsSet(prev)
    ensures TellAll(StatusOf(s), prev, CommitStep(env, s, m).done) == StatusOf(CommitStep(env, s, m).st)
    decreases |s.queue|
  {
    hide CommitOne, TellAll, Tell, Honest;
    if Runs(env, s, m) {
      var one := CommitOne(env, s, m);
      CommitOneTold(env, s, m, prev);
      if s.queue != [] {
        var s' := one.st.(queue := s.queue[1..]);
        CommitOneKeepsHonest(env, s, m);
        CommitTold(env, s', s.queue[0], LastOf(prev, one.done));
        TellAllAppend(StatusOf(s), prev, one.done, CommitStep(env, s', s.queue[0]).done);
      }
    } else {
      EarlyCommitTold(env, s, m, prev);
    }
  }

  lemma EarlyCommitTold(env: Env, s: St, m: CommitTask, prev: Option<Done>)
    requires Honest(s) && !IsSet(prev) && !Runs(env, s, m)
    ensures TellAll(StatusOf(s), prev, CommitStep(env, s, m).done) == StatusOf(CommitStep(env, s, m).st)
  {
    var r := CommitStep(env, s, m);
    assert r.st.txns.Keys == s.txns.Keys;
    if !Deferred(s, m) {
      TellOne(StatusOf(s), prev, r.done[0]);
    }
  }

  lemma StepTold(env: Env, s: St, m: Msg)
    requires Honest(s)
    ensures TellAll(StatusOf(s), None, Step(env, s, m).done) == StatusOf(Step(env, s, m).st)
  {
    var r := Step(env, s, m);
    if m.Commit? {
      CommitTold(env, s, m.commit, None);
    } else if m.Set? {
      SetTold(env, s, m.write);
    } else {
      TellOne(StatusOf(s), None, r.done[0]);
      if m.Begin? && s.open {
        assert r.st.txns.Keys == s.txns.Keys + {r.st.txnSeq};
      } else if m.Cancel? && s.open {
        assert r.st.txns.Keys == s.txns.Keys - {m.txn};
      } else {
        assert r.st.txns.Keys == s.txns.Keys || r.st.txns == map[];
      }
    }
    hide CommitStep, SetStep, TellAll;
  }

  lemma SetTold(env: Env, s: St, w: SetTask)
    ensures TellAll(StatusOf(s), None, SetStep(env, s, w).done) == StatusOf(SetStep(env, s, w).st)
  {
    var r := SetStep(env, s, w);
    assert r.st.txns.Keys == s.txns.Keys;
    if r.done != [] {
      TellOne(StatusOf(s), None, r.done[0]);
    }
    hide WriteOne;
  }

  /** In every run the storage is open exactly when the last open or close that succeeded was
      an open; the live transactions are those begun and neither cancelled nor ended by
      a commit; and the current one is that of the last commit that could not get going. */
  lemma {:induction false} CompletionsTell(env: Env, s: St, ms: seq<Msg>)
    requires Honest(s)
    ensures TellTrace(StatusOf(s), Trace(env, s, ms)) == StatusOf(Run(env, s, ms).st)
    decreases |ms|
  {
    hide Step, TellAll, Honest;
    if ms != [] {
      var r := Step(env, s, ms[0]);
      StepTold(env, s, ms[0]);
      StepKeepsHonest(env, s, ms[0]);
      CompletionsTell(env, r.st, ms[1..]);
      assert Trace(env, s, ms)[1..] == Trace(env, r.st, ms[1..]);
    }
  }

  // ----- how every message is answered -----

  predicate Answers(ds: seq<Done>, m: Msg, o: Outcome) {
    ds == [Done(m, o)]
  }

  predicate Refused(ds: seq<Done>, m: Msg, e: Error) {
    Answers(ds, m, Failed(Some(e)))
  }

  /** What a get delivers for the record `stored`. */
  predicate IsReadOf(x: Transform, stored: Bytes, o: Outcome) {
    if x.NoTransform? then o == Succeeded(Data(stored))
    else
      var r := x.read(stored);
      && (r.ReadFailed? ==> o == Failed(Some(TransformError(r.code))))
      && (r.Output? && r.bytes != [] ==> o == Succeeded(Data(r.bytes)))
      && (r.Output? && r.bytes == [] ==> o == Succeeded(Data(stored)))
  }

  /** A set that is not refused and does not wait can only fail in the transform or in TDB. */
  predicate IsStored(x: Transform, w: SetTask, ds: seq<Done>) {
    if x.Transform? && x.write(w.data).WriteFailed? then
      Refused(ds, Set(w), TransformError(x.write(w.data).code))
    else
      || Answers(ds, Set(w), Succeeded(NoData))
      || (|ds| == 1 && ds[0].msg == Set(w) && ds[0].outcome.Failed?
          && ds[0].outcome.error.Some? && ds[0].outcome.error.value.StoreFailed?)
  }

  predicate FitsSet(x: Transform, st: Status, w: SetTask, ds: seq<Done>) {
    && (!st.open ==> Refused(ds, Set(w), StateError))
    && (st.open && w.txn == 0 && st.current == 0 ==> IsStored(x, w, ds))
    && (st.open && w.txn == 0 && st.current != 0 ==> ds == [])
    && (st.open && w.txn != 0 && w.txn == st.current ==> IsStored(x, w, ds))
    && (st.open && w.txn != 0 && w.txn != st.current && w.txn in st.live ==> ds == [])
    && (st.open && w.txn != 0 && w.txn != st.current && w.txn !in st.live ==> Refused(ds, Set(w), NoSuchTxn))
  }

  /** A commit that is neither refused nor deferred is answered before those it drains. */
  predicate FitsCommit(st: Status, c: CommitTask, ds: seq<Done>) {
    && (!st.open ==> Refused(ds, Commit(c), StateError))
    && (st.open && st.current != 0 && st.current != c.txn ==> ds == [])
    && (st.open && (st.current == 0 || st.current == c.txn) && c.txn !in st.live ==>
          Refused(ds, Commit(c), StateError))
    && (st.open && (st.current == 0 || st.current == c.txn) && c.txn in st.live ==>
          |CommitsDone(ds)| > 0 && CommitsDone(ds)[0] == c)
  }

  /** How a message is answered in a storage of this status with these records. */
  predicate Fits(x: Transform, st: Status, db: Db, e: Event) {
    var ds := e.done;
    match e.msg
    case Get(_, k) =>
      |ds| == 1 && ds[0].msg == e.msg
      && (!st.open ==> Refused(ds, e.msg, StateError))
      && (st.open && k !in db ==> Refused(ds, e.msg, NoSuchKey))
      && (st.open && k in db ==> IsReadOf(x, db[k], ds[0].outcome))
    case CountKeys(_) => Answers(ds, e.msg, Succeeded(Number(if st.open then |db| else 0)))
    case Open(_) =>
      if st.open then Refused(ds, e.msg, StateError)
      else Answers(ds, e.msg, Succeeded(NoData)) || Refused(ds, e.msg, OpenFailed)
    case Close(_) =>
      || Refused(ds, e.msg, StateError)
      || (Answers(ds, e.msg, Succeeded(NoData)) && st.open && st.current == 0 && st.live == {})
    case Begin(_) =>
      Answers(ds, e.msg, if st.open then Succeeded(Number((st.last + 1) % 0x1_0000_0000)) else Failed(None))
    case Cancel(_, _) => Answers(ds, e.msg, if st.open then Succeeded(NoData) else Failed(None))
    case Set(w) => FitsSet(x, st, w, ds)
    case Commit(c) => FitsCommit(st, c, ds)
  }

  /** Every answer in the trace is the one that the observer expects from what came before. */
  predicate AllFit(x: Transform, st: Status, v: View, es: seq<Event>)
    decreases |es|
  {
    es == [] || (Fits(x, st, v.db, es[0]) && AllFit(x, TellAll(st, None, es[0].done), See(x, v, es[0]), es[1..]))
  }

  lemma CommitFits(env: Env, s: St, c: CommitTask)
    requires Honest(s)
    ensures FitsCommit(StatusOf(s), c, CommitStep(env, s, c).done)
  {
    var r := CommitStep(env, s, c);
    if s.open && !Deferred(s, c) {
      DrainIsFifo(env, s, c);
      assert ([c] + s.queue)[0] == c;
      if c.txn !in s.txns {
        assert r.done == [Done(Commit(c), Failed(Some(StateError)))];
      }
    }
    hide CommitOne, CommitsDone;
  }

  lemma SetFits(env: Env, s: St, w: SetTask)
    ensures FitsSet(env.transform, StatusOf(s), w, SetStep(env, s, w).done)
  {}

  lemma StepFits(env: Env, s: St, m: Msg)
    requires Honest(s)
    ensures Fits(env.transform, StatusOf(s), s.db, Event(m, Step(env, s, m).done))
  {
    hide CommitStep, SetStep, FitsSet, FitsCommit, Held;
    if m.Commit? {
      CommitFits(env, s, m.commit);
    } else if m.Set? {
      SetFits(env, s, m.write);
    } else if m.Close? {
      assert s.txns.Keys == {} <==> s.txns == map[];
    }
  }

  /** The answers to everything, in every run: a get delivers what reading the observed record
      gives, and is refused exactly when the storage is closed or there is no record; a
      count is that of the observed records; opens, closes, begins, cancels, sets and
      commits are answered as the observed status demands, and TDB's failures are the
      only choice that is left. */
  lemma {:induction false} AnswersFit(env: Env, s: St, ms: seq<Msg>)
    requires Honest(s)
    ensures AllFit(env.transform, StatusOf(s), ViewOf(s), Trace(env, s, ms))
    decreases |ms|
  {
    hide Step, TellAll, See, Fits, Honest;
    if ms != [] {
      var r := Step(env, s, ms[0]);
      StepFits(env, s, ms[0]);
      StepTold(env, s, ms[0]);
      SeenAfter(env, s, ms[0]);
      StepKeepsHonest(env, s, ms[0]);
      AnswersFit(env, r.st, ms[1..]);
      assert Trace(env, s, ms)[1..] == Trace(env, r.st, ms[1..]);
    }
  }

  lemma SeenAfter(env: Env, s: St, m: Msg)
    requires Honest(s)
    ensures See(env.transform, ViewOf(s), Event(m, Step(env, s, m).done)) == ViewOf(Step(env, s, m).st)
  {
    hide *;
    assert Sane(s) by { HonestIsSane(s); }
    SeeStep(env, s, m);
  }

  lemma HonestIsSane(s: St)
    requires Honest(s)
    ensures Sane(s)
  {}

  lemma AnswersFromStart(env: Env, db: Db, ms: seq<Msg>)
    ensures AllFit(env.transform, Status(false, 0, {}, 0), View(db, map[]), Trace(env, Init(db), ms))
  {
    AnswersFit(env, Init(db), ms);
    assert ViewOf(Init(db)) == View(db, map[]) && StatusOf(Init(db)) == Status(false, 0, {}, 0);
  }

  // ----- which answer TDB decides on -----

  /** An open succeeds exactly if the storage is closed and TDB opens it; the storage is open
      exactly then, with nothing pending, and everything that was pending is let go of. */
  lemma OpenExactly(env: Env, s: St, id: nat)
    ensures var r := Step(env, s, Open(id));
      && |r.done| == 1 && r.done[0].msg == Open(id)
      && (r.done[0].outcome.Succeeded? <==> !s.open && env.tdb(s.calls))
      && (r.done[0].outcome.Succeeded? ==> r.st == Init(s.db).(open := true, calls := s.calls + 1, txnSeq := s.txnSeq))
      && (r.done[0].outcome.Failed? ==> r.st.open == s.open && r.st.db == s.db)
      && (s.open ==> r.st == s && r.lost == multiset{})
      && (!s.open ==> r.lost == Held(s) && Held(r.st) == multiset{})
  {
    assert Held(Init(s.db).(open := true, calls := s.calls + 1, txnSeq := s.txnSeq)) == multiset{};
  }

  /** A close succeeds exactly if the storage is open, has no current and no live transaction,
      and TDB closes it; it is closed exactly then, and nothing else changes. */
  lemma CloseExactly(env: Env, s: St, id: nat)
    ensures var r := Step(env, s, Close(id));
      && |r.done| == 1 && r.done[0].msg == Close(id) && r.lost == multiset{}
      && (r.done[0].outcome.Succeeded? <==> s.open && s.txn == 0 && s.txns == map[] && env.tdb(s.calls))
      && r.st == s.(open := s.open && r.done[0].outcome.Failed?, calls := r.st.calls)
  {}

  /** A set is let go of exactly if it names no transaction while one is current. */
  lemma LetGoExactly(env: Env, s: St, w: SetTask)
    ensures SetStep(env, s, w).lost != multiset{} <==> s.open && s.txn != 0 && w.txn == 0
    ensures SetStep(env, s, w).lost != multiset{} ==> SetStep(env, s, w) == Result(s, [], multiset{w.id})
  {}

  /** A set changes the records exactly if it completes with success, and only its own: to what
      the transform makes of its data, which is the data itself if it makes nothing of it. */
  lemma SetChangesRecord(env: Env, s: St, w: SetTask)
    ensures var r := SetStep(env, s, w);
      var x := env.transform;
      if r.done == [Done(Set(w), Succeeded(NoData))]
      then r.st.db == s.db[w.key :=
        if x.Transform? && x.write(w.data).Buffer? then x.write(w.data).bytes else w.data]
      else r.st.db == s.db
  {}

  /** A set that is neither refused nor made to wait succeeds exactly if the transform does not
      fail and TDB stores the record; TDB is not called if the transform fails. */
  lemma SetSucceedsExactly(env: Env, s: St, w: SetTask)
    requires s.open && s.txn == w.txn
    ensures SetStep(env, s, w).done == [Done(Set(w), Succeeded(NoData))] <==>
      !(env.transform.Transform? && env.transform.write(w.data).WriteFailed?) && env.tdb(s.calls)
    ensures SetStep(env, s, w).st.calls ==
      if env.transform.Transform? && env.transform.write(w.data).WriteFailed? then s.calls else s.calls + 1
  {}

  /** A cancel takes its transaction with its sets, and touches nothing else: not the queue, not
      the current transaction, not the records. */
  lemma CancelExactly(env: Env, s: St, id: nat, t: TxnId)
    ensures var r := Step(env, s, Cancel(id, t));
      && r.st == s.(txns := r.st.txns)
      && (forall u :: u in r.st.txns <==> u in s.txns && !(s.open && u == t))
      && (forall u :: u in r.st.txns ==> r.st.txns[u] == s.txns[u])
      && (s.open && t in s.txns ==> r.lost == WriteIds(s.txns[t].writes))
      && (!s.open || t !in s.txns ==> r.lost == multiset{})
  {}

  /** A commit is deferred exactly if another transaction is current, and joins the end of the
      queue without an answer. */
  lemma DeferredExactly(env: Env, s: St, c: CommitTask)
    ensures CommitStep(env, s, c).done == [] <==> s.open && s.txn != 0 && s.txn != c.txn
    ensures CommitStep(env, s, c).done == [] ==>
      CommitStep(env, s, c).st == s.(queue := s.queue + [c]) && CommitStep(env, s, c).lost == multiset{}
  {}

  lemma {:induction false} ErrorOfFirst(env: Env, db: Db, calls: nat, ws: seq<SetTask>, i: nat)
    requires FirstFailure(env, calls, ws, i)
    ensures Replay(env, db, calls, ws, None).error == Some(
      if env.transform.Transform? && env.transform.write(ws[i].data).WriteFailed?
      then TransformError(env.transform.write(ws[i].data).code)
      else StoreFailed(calls + i))
    decreases i
  {
    if i > 0 {
      assert WriteGoesThrough(env, calls, ws, 0);
      var w := WriteOne(env, db, calls, ws[0]);
      var c, rest := calls + 1, ws[1..];
      forall j | 0 <= j < i - 1 ensures WriteGoesThrough(env, c, rest, j) {
        assert WriteGoesThrough(env, calls, ws, j + 1);
      }
      ErrorOfFirst(env, w.db, w.calls, rest, i - 1);
    }
  }

  /** When a set fails, the commit's error is the one of the first such set: that of the
      transform, or of its TDB call. */
  lemma FirstErrorIs(env: Env, s: St, m: CommitTask, i: nat)
    requires m.txn in s.txns && s.txns[m.txn].error.None?
    requires FirstFailure(env, s.calls + 1, s.txns[m.txn].writes, i)
    ensures var w := s.txns[m.txn].writes[i];
      var r := CommitOne(env, s, m);
      |r.done| > 0 && r.done[|r.done| - 1] == Done(Commit(m), Failed(Some(
        if env.transform.Transform? && env.transform.write(w.data).WriteFailed?
        then TransformError(env.transform.write(w.data).code)
        else StoreFailed(s.calls + 1 + i))))
  {
    var ws := s.txns[m.txn].writes;
    ErrorOfFirst(env, s.db, s.calls + 1, ws, i);
    hide Replay, FirstFailure;
  }

  /** When only the TDB commit fails, all the sets have succeeded and its error is the commit's. */
  lemma TdbCommitErrorIs(env: Env, s: St, m: CommitTask)
    requires m.txn in s.txns
    requires var ws := s.txns[m.txn].writes;
      && (ws == [] || s.txns[m.txn].error.None?)
      && AllGoThrough(env, s.calls + 1, ws) && !env.tdb(s.calls + 1 + |ws|)
    ensures var ws := s.txns[m.txn].writes;
      CommitOne(env, s, m).done ==
        SetsDone(ws) + [Done(Commit(m), Failed(Some(CommitFailed(s.calls + 1 + |ws|))))]
  {
    hide Replay, AllGoThrough, SetsDone, ApplyAll;
    var p := s.txns[m.txn];
    ReplayAll(env, s.db, s.calls + 1, p.writes, p.error);
  }
}
