/** The handlers of catalina-storage.c on mutable state, each proved to compute the
    corresponding step of StorageSpec.  Here a transaction prepends its writes and
    reverses the list when it runs, a commit replays the writes through the message
    dispatcher inside a TDB transaction, and a finished commit drains the queue by
    calling itself. */
module StorageEngine {
  import opened Wrappers
  import opened StorageSpec

  /** `msgs` lists `ws` from the last one to the first one. */
  predicate Lists(msgs: seq<SetTask>, ws: seq<SetTask>) {
    if msgs == [] then ws == []
    else |ws| > 0 && msgs[0] == ws[|ws| - 1] && Lists(msgs[1..], ws[..|ws| - 1])
  }

  /** `p` is what a table entry with these fields stands for: its list only holds sets
      of the transaction, and grows at the head until it is turned around for running. */
  predicate StandsFor(t: TxnId, running: bool, msgs: seq<SetTask>, error: Option<Error>, p: Pending) {
    && error == p.error
    && AllCarry(p.writes, t) && (t == 0 ==> p.writes == [])
    && (!running ==> Lists(msgs, p.writes))
  }

  /** A replay from the i-th write on, counted from the completions already delivered. */
  ghost function ReplayFrom(env: Env, db: Db, calls: nat, ws: seq<SetTask>, i: nat,
                            stale: Option<Error>, done: seq<Done>): Replayed
    requires i <= |ws|
  {
    var r := Replay(env, db, calls, ws[i..], stale);
    r.(done := done + r.done)
  }

  lemma ReplayAt(env: Env, db: Db, calls: nat, ws: seq<SetTask>, i: nat, stale: Option<Error>, done: seq<Done>)
    requires i < |ws|
    ensures var w := WriteOne(env, db, calls, ws[i]);
      var now := done + [Done(Set(ws[i]), WriteOutcome(w))];
      var e := if w.error.Some? then w.error else stale;
      ReplayFrom(env, db, calls, ws, i, stale, done) ==
        if e.Some? then Replayed(w.db, w.calls, now, WriteIds(ws[i + 1..]), e)
        else ReplayFrom(env, w.db, w.calls, ws, i + 1, None, now)
  {
    assert ws[i..][1..] == ws[i + 1..];
  }

  lemma ReplayEnds(env: Env, db: Db, calls: nat, ws: seq<SetTask>, i: nat,
                   stale: Option<Error>, done: seq<Done>)
    requires i <= |ws|
    ensures i == |ws| ==> ReplayFrom(env, db, calls, ws, i, stale, done) == Replayed(db, calls, done, multiset{}, None)
    ensures i == 0 ==>
      var r := Replay(env, db, calls, ws, stale);
      ReplayFrom(env, db, calls, ws, i, stale, done) == r.(done := done + r.done)
  {
    assert ws[0..] == ws;
  }

  lemma Chain(done: seq<Done>, lost: multiset<nat>, a: Result, b: Result)
    ensures done + a.done + b.done == done + Then(a, b).done
    ensures lost + a.lost + b.lost == lost + Then(a, b).lost
    ensures Then(a, b).st == b.st
  {}

  ghost function RunFrom(env: Env, s: St, ms: seq<Msg>, done: seq<Done>, lost: multiset<nat>): Result {
    Then(Result(s, done, lost), Run(env, s, ms))
  }

  lemma ReadsOnly(env: Env, s: St, m: Msg)
    requires !IsExclusive(m)
    ensures Step(env, s, m).st == s && Step(env, s, m).lost == multiset{}
  {}

  lemma RunNothing(env: Env, s: St, done: seq<Done>, lost: multiset<nat>)
    ensures RunFrom(env, s, [], done, lost) == Result(s, done, lost)
  {}

  lemma RunNext(env: Env, s: St, ms: seq<Msg>, i: nat, done: seq<Done>, lost: multiset<nat>)
    requires i < |ms|
    ensures var r := Step(env, s, ms[i]);
      RunFrom(env, s, ms[i..], done, lost) == RunFrom(env, r.st, ms[i + 1..], done + r.done, lost + r.lost)
  {
    hide Step;
    assert ms[i..][1..] == ms[i + 1..];
    var r := Step(env, s, ms[i]);
    var rest := Run(env, r.st, ms[i + 1..]);
    assert done + (r.done + rest.done) == done + r.done + rest.done;
  }

  lemma RunFromIs(env: Env, s: St, ms: seq<Msg>, done: seq<Done>, lost: multiset<nat>)
    ensures var r := Run(env, s, ms);
      RunFrom(env, s, ms, done, lost) == Result(r.st, done + r.done, lost + r.lost)
  {}

  lemma Prepended(msgs: seq<SetTask>, m: SetTask, p: Pending)
    requires StandsFor(m.txn, false, msgs, p.error, p) && m.txn != 0
    ensures StandsFor(m.txn, false, [m] + msgs, p.error, p.(writes := p.writes + [m]))
  {
    var ws := p.writes + [m];
    assert ws[..|ws| - 1] == p.writes;
  }

  lemma CommitOneIgnoresTxn(env: Env, s: St, m: CommitTask)
    requires m.txn in s.txns
    ensures CommitOne(env, s.(txn := m.txn), m) == CommitOne(env, s, m)
    ensures CommitOne(env, s, m).st.queue == s.queue
  {}

  lemma CommitStepEarly(env: Env, s: St, m: CommitTask)
    requires !Runs(env, s, m)
    ensures CommitStep(env, s, m) ==
      if !s.open then Fail(s, Commit(m), m.txn, StateError)
      else if Deferred(s, m) then Result(s.(queue := s.queue + [m]), [], multiset{})
      else if m.txn !in s.txns then Fail(s.(txn := m.txn), Commit(m), m.txn, StateError)
      else Fail(s.(txn := m.txn, calls := s.calls + 1), Commit(m), m.txn, StartFailed)
  {}

  lemma CommitStepIgnoresTxn(env: Env, s: St, m: CommitTask)
    requires s.open && !Deferred(s, m)
    ensures CommitStep(env, s.(txn := m.txn), m) == CommitStep(env, s, m)
  {
    if m.txn in s.txns {
      CommitOneIgnoresTxn(env, s, m);
    }
  }

  class TxnState {
    const txnId: TxnId
    var msgs: seq<SetTask>
    var error: Option<Error>

    constructor (t: TxnId)
      ensures txnId == t && msgs == [] && error == None
    {
      txnId := t;
      msgs := [];
      error := None;
    }

    method Reverse(ghost ws: seq<SetTask>)
      requires Lists(msgs, ws)
      modifies `msgs
      ensures msgs == ws
    {
      var reversed := [];
      assert ws[..|ws|] == ws;
      while msgs != []
        invariant |reversed| <= |ws|
        invariant Lists(msgs, ws[..|ws| - |reversed|])
        invariant reversed == ws[|ws| - |reversed|..]
        decreases |msgs|
      {
        ghost var rest := ws[..|ws| - |reversed|];
        reversed, msgs := [msgs[0]] + reversed, msgs[1..];
        assert rest[..|rest| - 1] == ws[..|ws| - |reversed|];
      }
      msgs := reversed;
    }
  }

  class Storage {
    const env: Env
    var open: bool                        // db_ctx != NULL
    var txnSeq: TxnId
    var txn: TxnId
    var txnCommits: seq<CommitTask>
    var txnState: map<TxnId, TxnState>
    ghost var states: set<TxnState>       // the objects of txnState
    ghost var txns: map<TxnId, Pending>   // what they stand for

    var db: Db                            // TDB: the records
    var snapshot: Option<Db>              // TDB: the records when the open transaction started
    var calls: nat                        // TDB: fallible calls made

    var done: seq<Done>                   // completions, oldest first
    ghost var lost: multiset<nat>         // tasks dropped without completion
    ghost var running: Option<TxnId>      // the transaction inside txn_state_run

    /** Holds at every moment a handler can be entered, also in the middle of a commit. */
    ghost predicate Shape()
      reads `txns, `txnState, `states, `running, states
    {
      && (forall t :: t in txns ==> t in txnState)
      && (forall t :: t in txnState ==>
            && t in txns
            && txnState[t] in states
            && txnState[t].txnId == t
            && StandsFor(t, running == Some(t), txnState[t].msgs, txnState[t].error, txns[t]))
    }

    /** Holds between messages. */
    ghost predicate Valid()
      reads this, states
    {
      Shape() && running == None && snapshot == None
    }

    ghost function Abs(): St
      reads this
    {
      St(open, db, calls, txnSeq, txn, txnCommits, txns)
    }

    constructor (env: Env, db: Db)
      ensures Valid() && Abs() == Init(db)
      ensures this.env == env && done == [] && lost == multiset{}
      ensures txnState == map[]
    {
      this.env := env;
      this.db := db;
      open, txnSeq, txn, txnCommits, txnState := false, 0, 0, [], map[];
      states, txns, snapshot, calls := {}, map[], None, 0;
      done, lost, running := [], multiset{}, None;
    }

    lemma EntryOf(t: TxnId)
      requires Shape() && t in txnState
      ensures txnState[t] in states && t in txns && txnState[t].error == txns[t].error
    {}

    lemma SameKeys()
      requires Shape()
      ensures forall t :: t in txnState <==> t in txns
      ensures |txnState| == 0 <==> txns == map[]
    {
      assert |txnState| == |txnState.Keys| && txnState.Keys == txns.Keys;
    }

    // ----- the table -----

    /** Adds a transaction under the next id; an entry that already has that id goes. */
    method Insert(state: TxnState)
      requires Valid() && state.msgs == [] && state.error == None
      modifies `txnState, `states, `txns
      ensures Valid() && states == old(states) + {state}
      ensures txns == old(txns)[state.txnId := Pending([], None)]
    {
      assert StandsFor(state.txnId, false, [], None, Pending([], None));
      hide StandsFor, Lists, AllCarry;
      txnState, states, txns :=
        txnState[state.txnId := state], states + {state}, txns[state.txnId := Pending([], None)];
      forall t | t in txnState
        ensures t in txns && txnState[t] in states && txnState[t].txnId == t
        ensures StandsFor(t, running == Some(t), txnState[t].msgs, txnState[t].error, txns[t])
      {
        assert t != state.txnId ==> t in old(txnState);
      }
    }

    ghost method Forget(t: TxnId)
      modifies `lost
      ensures lost == old(lost) + if t in txns then WriteIds(txns[t].writes) else multiset{}
    {
      lost := lost + if t in txns then WriteIds(txns[t].writes) else multiset{};
    }

    method NextTxnId() returns (t: TxnId)
      modifies `txnSeq
      ensures t == txnSeq == NextId(old(txnSeq))
    {
      txnSeq := (txnSeq + 1) % TXN_ID_LIMIT;
      t := txnSeq;
    }

    method SetTxn(t: TxnId)
      modifies `txn
      ensures txn == t
    {
      txn := t;
    }

    method PushCommit(m: CommitTask)
      modifies `txnCommits
      ensures txnCommits == old(txnCommits) + [m]
    {
      txnCommits := txnCommits + [m];
    }

    method PopCommit() returns (m: CommitTask)
      requires txnCommits != []
      modifies `txnCommits
      ensures m == old(txnCommits)[0] && txnCommits == old(txnCommits)[1..]
    {
      m := txnCommits[0];
      txnCommits := txnCommits[1..];
    }

    method Remove(t: TxnId)
      requires Shape() && (running.Some? ==> running == Some(t))
      modifies `txnState, `txns, `running
      ensures Shape() && running == None
      ensures txns == old(txns) - {t}
    {
      hide Lists, AllCarry;
      txnState, txns, running := txnState - {t}, txns - {t}, None;
    }

    method Drop(t: TxnId)
      requires Valid() && t in txns
      modifies `txnState, `txns, `running, `lost
      ensures Valid() && txns == old(txns) - {t}
      ensures lost == old(lost) + WriteIds(old(txns)[t].writes)
    {
      lost := lost + WriteIds(txns[t].writes);
      Remove(t);
    }

    /** Drops whatever a closed storage may still hold. */
    method ClearPending()
      requires Valid()
      modifies `txn, `txnCommits, `txnState, `states, `txns, `lost
      ensures Valid() && states == {}
      ensures Abs() == old(Abs()).(txn := 0, queue := [], txns := map[])
      ensures lost == old(lost) + Held(old(Abs()))
    {
      hide Lists, AllCarry, StandsFor, Held;
      lost := lost + Held(Abs());
      txn, txnCommits := 0, [];
      txnState, states, txns := map[], {}, map[];
    }

    // ----- TDB -----

    method TdbCall() returns (ok: bool)
      modifies `calls
      ensures ok == env.tdb(old(calls)) && calls == old(calls) + 1
    {
      ok := env.tdb(calls);
      calls := calls + 1;
    }

    method TdbStore(key: Bytes, value: Bytes) returns (ok: bool)
      modifies `calls, `db
      ensures ok == env.tdb(old(calls)) && calls == old(calls) + 1
      ensures db == if ok then old(db)[key := value] else old(db)
    {
      ok := TdbCall();
      if ok {
        db := db[key := value];
      }
    }

    method TdbTransactionStart() returns (ok: bool)
      modifies `calls, `snapshot
      ensures ok == env.tdb(old(calls)) && calls == old(calls) + 1
      ensures snapshot == if ok then Some(db) else old(snapshot)
    {
      ok := TdbCall();
      if ok {
        snapshot := Some(db);
      }
    }

    method TdbTransactionCommit() returns (ok: bool)
      modifies `calls, `snapshot
      ensures ok == env.tdb(old(calls)) && calls == old(calls) + 1
      ensures snapshot == if ok then None else old(snapshot)
    {
      ok := TdbCall();
      if ok {
        snapshot := None;
      }
    }

    /** Taken to put back the records of the open transaction's start. */
    method TdbTransactionRecover()
      modifies `db, `snapshot
      ensures old(snapshot).Some? ==> db == old(snapshot).value
      ensures old(snapshot).None? ==> db == old(db)
      ensures snapshot == None
    {
      if snapshot.Some? {
        db := snapshot.value;
      }
      snapshot := None;
    }

    // ----- tasks -----

    method TaskComplete(m: Msg, o: Outcome)
      modifies `done
      ensures done == old(done) + [Done(m, o)]
    {
      done := done + [Done(m, o)];
    }

    method TaskSucceed(m: Msg, payload: Payload)
      modifies `done
      ensures done == old(done) + [Done(m, Succeeded(payload))]
    {
      TaskComplete(m, Succeeded(payload));
    }

    method TaskFail(m: Msg, t: TxnId, error: Option<Error>)
      requires Shape()
      modifies `done, `txns, states`error
      ensures Shape()
      ensures done == old(done) + [Done(m, Failed(error))]
      ensures txns == if error.Some? then NoteError(old(txns), t, error.value) else old(txns)
    {
      hide Lists, AllCarry;
      if t != 0 && error.Some? && t in txnState {
        txnState[t].error := error;
        txns := NoteError(txns, t, error.value);
      }
      TaskComplete(m, Failed(error));
    }

    // ----- handlers -----

    /** The tail of handle_set: buffer a write of a live transaction. */
    method BufferSet(m: SetTask)
      requires Shape() && m.txn in txnState && running != Some(m.txn) && m.txn != 0
      modifies `txns, txnState[m.txn]
      ensures Shape()
      ensures var p := old(txns)[m.txn];
        txns == old(txns)[m.txn := p.(writes := p.writes + [m])]
    {
      Prepended(txnState[m.txn].msgs, m, txns[m.txn]);
      hide StandsFor;
      var state := txnState[m.txn];
      state.msgs := [m] + state.msgs;
      txns := txns[m.txn := txns[m.txn].(writes := txns[m.txn].writes + [m])];
    }

    /** The tail of handle_set: transform the data and store it at once. */
    method StoreSet(m: SetTask)
      requires Shape()
      modifies `db, `calls, `done, `txns, states`error
      ensures Shape()
      ensures var w := WriteOne(env, old(db), old(calls), m);
        && db == w.db && calls == w.calls
        && txns == (if w.error.Some? then NoteError(old(txns), m.txn, w.error.value) else old(txns))
        && done == old(done) + [Done(Set(m), WriteOutcome(w))]
    {
      hide Lists, AllCarry;
      var bytes := m.data;
      match env.transform {
        case NoTransform =>
        case Transform(write, _) =>
          match write(m.data) {
            case Keep =>
            case Buffer(b) => bytes := b;
            case WriteFailed(code) =>
              TaskFail(Set(m), m.txn, Some(TransformError(code)));
              return;
          }
      }
      var ok := TdbStore(m.key, bytes);
      if ok {
        TaskSucceed(Set(m), NoData);
      } else {
        TaskFail(Set(m), m.txn, Some(StoreFailed(calls - 1)));
      }
    }

    method HandleSet(m: SetTask)
      requires Shape() && (running.Some? ==> running == Some(txn))
      modifies this, states
      ensures Shape() && unchanged(`txnState, `states, `snapshot, `running)
      ensures old(running).Some? && m.txn == old(txn) ==> forall t :: t in states ==> t.msgs == old(t.msgs)
      ensures var r := SetStep(env, old(Abs()), m);
        Abs() == r.st && done == old(done) + r.done && lost == old(lost) + r.lost
    {
      hide Lists, AllCarry;
      if !open {
        TaskFail(Set(m), m.txn, Some(StateError));
        return;
      }
      if m.txn != 0 && txn != m.txn {
        if m.txn !in txnState {
          TaskFail(Set(m), m.txn, Some(NoSuchTxn));
          return;
        }
        BufferSet(m);
        return;
      }
      if !(txn == 0 || txn == m.txn) {
        lost := lost + multiset{m.id};
        return;
      }
      StoreSet(m);
    }

    /** The exclusive dispatcher.  Writes of a running transaction come back through it. */
    method ExHandleMessage(m: Msg)
      requires Shape() && (running.None? ==> Valid())
      requires running.Some? ==> running == Some(txn) && m.Set? && m.write.txn == txn
      modifies this, states
      ensures Shape() && (old(running).None? ==> Valid()) && fresh(states - old(states))
      ensures old(running).Some? ==>
        && unchanged(`txnState, `states, `snapshot, `running)
        && (forall t :: t in states ==> t.msgs == old(t.msgs))
      ensures IsExclusive(m) ==>
        var r := Step(env, old(Abs()), m);
        Abs() == r.st && done == old(done) + r.done && lost == old(lost) + r.lost
      decreases if m.Commit? then 1 else 0, |txnCommits|, 6
    {
      hide Lists, AllCarry, StandsFor, SetStep, CommitStep, OpenStep, CloseStep, BeginStep, CancelStep, Held;
      match m
      case Set(t) => HandleSet(t);
      case Open(_) => HandleOpen(m);
      case Close(_) => HandleClose(m);
      case Begin(_) => HandleTxnBegin(m);
      case Commit(t) => HandleTxnCommit(t);
      case Cancel(_, t) => HandleTxnCancel(m, t);
      case _ =>
    }

    /** One round of txn_state_run: the i-th write goes back through the dispatcher. */
    method RunMessage(state: TxnState, i: nat)
      requires Shape() && open && running == Some(txn)
      requires txn != 0 && txn in txnState && state == txnState[txn]
      requires i < |state.msgs| && state.msgs[i].txn == txn
      modifies this, states
      ensures Shape() && running == Some(txn)
      ensures unchanged(`open, `txnSeq, `txn, `txnCommits, `txnState, `states, `snapshot)
      ensures lost == old(lost)
      ensures state.msgs == old(state.msgs) && txns - {txn} == old(txns) - {txn}
      ensures var w := WriteOne(env, old(db), old(calls), old(state.msgs)[i]);
        && db == w.db && calls == w.calls
        && done == old(done) + [Done(Set(old(state.msgs)[i]), WriteOutcome(w))]
        && state.error == (if w.error.Some? then w.error else old(state.error))
      decreases 0, |txnCommits|, 7
    {
      hide Lists, AllCarry, WriteOne;
      ExHandleMessage(Set(state.msgs[i]));
    }

    method TurnAround(state: TxnState)
      requires Shape() && running == None
      requires txn in txnState && state == txnState[txn]
      modifies `running, state`msgs
      ensures Shape() && running == Some(txn) && state.msgs == txns[txn].writes
      ensures txn == 0 ==> state.msgs == []
      ensures forall i :: 0 <= i < |state.msgs| ==> state.msgs[i].txn == txn
    {
      hide Lists;
      ghost var ws := txns[txn].writes;
      forall i | 0 <= i < |ws| ensures ws[i].txn == txn {
        AllCarryAt(ws, txn, i);
      }
      hide AllCarry;
      state.Reverse(ws);
      running := Some(txn);
    }

    /** Replays the writes of the current transaction; `error` is what ends up in the
        error of the commit's task. */
    method TxnStateRun(state: TxnState) returns (error: Option<Error>)
      requires Shape() && open && running == None
      requires txn in txnState && state == txnState[txn]
      modifies this, states
      ensures Shape() && running == Some(txn)
      ensures unchanged(`open, `txnSeq, `txn, `txnCommits, `txnState, `states, `snapshot)
      ensures txns - {txn} == old(txns) - {txn}
      ensures var r := Replay(env, old(db), old(calls), old(txns)[txn].writes, old(txns)[txn].error);
        && db == r.db && calls == r.calls
        && error == r.error && done == old(done) + r.done && lost == old(lost) + r.lost
      decreases 1, |txnCommits|, 0
    {
      hide *;
      EntryOf(txn);
      ghost var ws := txns[txn].writes;
      ghost var all := ReplayFrom(env, db, calls, ws, 0, state.error, done);
      ReplayEnds(env, db, calls, ws, 0, state.error, done);
      TurnAround(state);
      var i := 0;
      while i < |state.msgs|
        invariant 0 <= i <= |ws|
        invariant Shape() && running == Some(txn) && state.msgs == ws
        invariant unchanged(`open, `txnSeq, `txn, `txnCommits, `txnState, `states, `snapshot, `lost)
        invariant txns - {txn} == old(txns) - {txn}
        invariant i > 0 ==> state.error == None
        invariant ReplayFrom(env, db, calls, ws, i, state.error, done) == all
        decreases |ws| - i
      {
        ReplayAt(env, db, calls, ws, i, state.error, done);
        RunMessage(state, i);
        i := i + 1;
        if state.error.Some? {
          break;
        }
      }
      error := if i == 0 then None else state.error;
      ReplayEnds(env, db, calls, ws, i, state.error, done);
      if error.Some? {
        lost := lost + WriteIds(ws[i..]);
      }
    }

    /** The outcome of a TDB transaction whose writes ended in `error`. */
    function Verdict(error: Option<Error>): Option<Error>
      reads `calls
    {
      if error.Some? then error else if env.tdb(calls) then None else Some(CommitFailed(calls))
    }

    method Settle(m: CommitTask, error: Option<Error>)
      requires Shape() && running == Some(m.txn) && snapshot.Some?
      modifies `db, `snapshot, `calls, `txn, `txnState, `txns, `running, `done
      ensures Valid() && txn == 0 && txns == old(txns) - {m.txn}
      ensures db == (if old(Verdict(error)).None? then old(db) else old(snapshot).value)
      ensures calls == (if error.Some? then old(calls) else old(calls) + 1)
      ensures done == old(done) + [Done(Commit(m),
        if old(Verdict(error)).None? then Succeeded(NoData) else Failed(old(Verdict(error))))]
    {
      hide Lists, AllCarry, StandsFor, Shape;
      var outcome := error;
      if outcome.None? {
        var ok := TdbTransactionCommit();
        if !ok {
          outcome := Some(CommitFailed(calls - 1));
        }
      }
      Remove(m.txn);
      SetTxn(0);
      if outcome.Some? {
        TdbTransactionRecover();
        TaskComplete(Commit(m), Failed(outcome));
      } else {
        TaskComplete(Commit(m), Succeeded(NoData));
      }
    }

    /** The middle of handle_txn_commit, from a started TDB transaction to the completion
        of the commit's task. */
    method RunTransaction(m: CommitTask, ghost before: nat)
      requires Shape() && open && running == None && txn == m.txn && m.txn in txnState
      requires snapshot == Some(db) && calls == before + 1 && m.txn in txns
      modifies this, states
      ensures Valid() && states == old(states)
      ensures var r := CommitOne(env, old(Abs()).(calls := before), m);
        Abs() == r.st && done == old(done) + r.done && lost == old(lost) + r.lost
      decreases 1, |txnCommits|, 1
    {
      hide Lists, AllCarry, StandsFor, Replay, Shape, WriteIds;
      var error := TxnStateRun(txnState[m.txn]);
      Settle(m, error);
    }

    method HandleTxnCommit(m: CommitTask)
      requires Valid()
      modifies this, states
      ensures Valid() && states == old(states)
      ensures var r := CommitStep(env, old(Abs()), m);
        Abs() == r.st && done == old(done) + r.done && lost == old(lost) + r.lost
      decreases 1, |txnCommits|, 5
    {
      hide Lists, AllCarry, StandsFor, Shape, NoteError, CommitStep;
      ghost var s := Abs();
      if !Runs(env, s, m) {
        CommitStepEarly(env, s, m);
      }
      if !open {
        TaskFail(Commit(m), m.txn, Some(StateError));
        return;
      }
      if txn != 0 && txn != m.txn {
        PushCommit(m);
        return;
      }
      CommitCurrent(m);
    }

    /** The middle of handle_txn_commit: this commit becomes the current one. */
    method CommitCurrent(m: CommitTask)
      requires Valid() && open && !Deferred(Abs(), m)
      modifies this, states
      ensures Valid() && states == old(states)
      ensures var r := CommitStep(env, old(Abs()), m);
        Abs() == r.st && done == old(done) + r.done && lost == old(lost) + r.lost
      decreases 1, |txnCommits|, 4
    {
      hide Lists, AllCarry, StandsFor, Shape, NoteError, CommitStep;
      SameKeys();
      CommitStepIgnoresTxn(env, Abs(), m);
      SetTxn(m.txn);
      if m.txn !in txnState {
        CommitStepEarly(env, Abs(), m);
        TaskFail(Commit(m), m.txn, Some(StateError));
        return;
      }
      StartCurrent(m);
    }

    /** Begins the TDB transaction of the current commit. */
    method StartCurrent(m: CommitTask)
      requires Valid() && open && txn == m.txn && m.txn in txnState && m.txn in txns
      modifies this, states
      ensures Valid() && states == old(states)
      ensures var r := CommitStep(env, old(Abs()), m);
        Abs() == r.st && done == old(done) + r.done && lost == old(lost) + r.lost
      decreases 1, |txnCommits|, 3
    {
      hide Lists, AllCarry, StandsFor, Shape, NoteError, CommitStep;
      ghost var s := Abs();
      ghost var before := calls;
      var ok := TdbTransactionStart();
      if !ok {
        CommitStepEarly(env, s, m);
        TaskFail(Commit(m), m.txn, Some(StartFailed));
        return;
      }
      RunAndDrain(m, before);
    }

    /** The end of handle_txn_commit: the transaction itself, then the next deferred one. */
    method RunAndDrain(m: CommitTask, ghost before: nat)
      requires Shape() && open && running == None && txn == m.txn && m.txn in txnState
      requires snapshot == Some(db) && calls == before + 1 && m.txn in txns
      requires env.tdb(before)
      modifies this, states
      ensures Valid() && states == old(states)
      ensures var r := CommitStep(env, old(Abs()).(calls := before), m);
        Abs() == r.st && done == old(done) + r.done && lost == old(lost) + r.lost
      decreases 1, |txnCommits|, 2
    {
      hide Lists, AllCarry, StandsFor, Shape, CommitOne, Then;
      ghost var r := CommitOne(env, Abs().(calls := before), m);
      CommitOneIgnoresTxn(env, Abs().(calls := before), m);
      RunTransaction(m, before);
      if |txnCommits| > 0 {
        var next := PopCommit();
        Chain(old(done), old(lost), r, CommitStep(env, Abs(), next));
        HandleTxnCommit(next);
      }
    }

    method HandleTxnBegin(m: Msg)
      requires Valid() && m.Begin?
      modifies this
      ensures Valid() && fresh(states - old(states))
      ensures var r := BeginStep(old(Abs()), m);
        Abs() == r.st && done == old(done) + r.done && lost == old(lost) + r.lost
    {
      hide Lists, AllCarry, StandsFor, Shape, Held, WriteIds, NoteError;
      SameKeys();
      if !open {
        TaskComplete(m, Failed(None));
        return;
      }
      var t := NextTxnId();
      var state := new TxnState(t);
      Forget(t);
      Insert(state);
      TaskSucceed(m, Number(t));
    }

    /** The removal from the queue of commits compares a transaction with messages, so
        it never removes anything. */
    method HandleTxnCancel(m: Msg, t: TxnId)
      requires Valid() && m.Cancel? && t == m.txn
      modifies this
      ensures Valid() && states == old(states)
      ensures var r := CancelStep(old(Abs()), m);
        Abs() == r.st && done == old(done) + r.done && lost == old(lost) + r.lost
    {
      hide Lists, AllCarry, StandsFor, Shape, Held, WriteIds, NoteError;
      SameKeys();
      if !open {
        TaskComplete(m, Failed(None));
        return;
      }
      if t in txnState {
        Drop(t);
      }
      TaskSucceed(m, NoData);
    }

    method HandleOpen(m: Msg)
      requires Valid() && m.Open?
      modifies this, states
      ensures Valid() && states <= old(states)
      ensures var r := OpenStep(env, old(Abs()), m);
        Abs() == r.st && done == old(done) + r.done && lost == old(lost) + r.lost
    {
      hide Lists, AllCarry, StandsFor, Shape, Held;
      if open {
        TaskComplete(m, Failed(Some(StateError)));
        return;
      }
      ClearPending();
      var ok := TdbCall();
      if !ok {
        TaskComplete(m, Failed(Some(OpenFailed)));
        return;
      }
      open := true;
      TaskSucceed(m, NoData);
    }

    method HandleClose(m: Msg)
      requires Valid() && m.Close?
      modifies this, states
      ensures Valid() && states == old(states)
      ensures var r := CloseStep(env, old(Abs()), m);
        Abs() == r.st && done == old(done) + r.done && lost == old(lost) + r.lost
    {
      hide Lists, AllCarry, StandsFor, Shape;
      SameKeys();
      if !open {
        TaskComplete(m, Failed(Some(StateError)));
        return;
      }
      if txn != 0 || |txnState| > 0 {
        TaskComplete(m, Failed(Some(StateError)));
        return;
      }
      var ok := TdbCall();
      if !ok {
        TaskComplete(m, Failed(Some(StateError)));
        return;
      }
      open := false;
      TaskSucceed(m, NoData);
    }

    /** The concurrent dispatcher: both handlers only read. */
    method CnHandleMessage(m: Msg)
      requires Valid()
      modifies `done
      ensures !IsExclusive(m) ==> done == old(done) + Step(env, Abs(), m).done
      ensures IsExclusive(m) ==> done == old(done)
    {
      match m
      case Get(_, key) => HandleGet(m, key);
      case CountKeys(_) => HandleCountKeys(m);
      case _ =>
    }

    method HandleGet(m: Msg, key: Bytes)
      modifies `done
      ensures done == old(done) + [Done(m, GetOutcome(env.transform, Abs(), key))]
    {
      if !open {
        TaskComplete(m, Failed(Some(StateError)));
        return;
      }
      if key !in db {
        TaskComplete(m, Failed(Some(NoSuchKey)));
        return;
      }
      var data := db[key];
      match env.transform {
        case NoTransform =>
        case Transform(_, read) =>
          match read(data) {
            case ReadFailed(code) =>
              TaskComplete(m, Failed(Some(TransformError(code))));
              return;
            case Output(b) =>
              if |b| > 0 {
                data := b;
              }
          }
      }
      TaskSucceed(m, Data(data));
    }

    method HandleCountKeys(m: Msg)
      modifies `done
      ensures done == old(done) + [Done(m, CountOutcome(Abs()))]
    {
      var count := 0;
      if open {
        var seen: set<Bytes> := {};
        while seen != db.Keys
          invariant seen <= db.Keys && count == |seen|
          decreases db.Keys - seen
        {
          var key :| key in db && key !in seen;
          seen := seen + {key};
          count := count + 1;
        }
      }
      TaskSucceed(m, Number(count));
    }

    /** What the arbiter does: exclusive messages one at a time, and the reading ones in
        between. */
    method Serve(ms: seq<Msg>)
      requires Valid()
      modifies this, states
      ensures Valid()
      ensures var r := Run(env, old(Abs()), ms);
        Abs() == r.st && done == old(done) + r.done && lost == old(lost) + r.lost
    {
      hide *;
      assert ms[0..] == ms;
      for i := 0 to |ms|
        invariant Valid() && fresh(states - old(states))
        invariant RunFrom(env, Abs(), ms[i..], done, lost) == RunFrom(env, old(Abs()), ms, old(done), old(lost))
      {
        RunNext(env, Abs(), ms, i, done, lost);
        Dispatch(ms[i]);
      }
      assert ms[|ms|..] == [];
      RunNothing(env, Abs(), done, lost);
      RunFromIs(env, old(Abs()), ms, old(done), old(lost));
    }

    method Dispatch(m: Msg)
      requires Valid()
      modifies this, states
      ensures Valid() && fresh(states - old(states))
      ensures var r := Step(env, old(Abs()), m);
        Abs() == r.st && done == old(done) + r.done && lost == old(lost) + r.lost
    {
      hide Lists, AllCarry, StandsFor, SetStep, CommitStep, OpenStep, CloseStep, BeginStep, CancelStep;
      if IsExclusive(m) {
        ExHandleMessage(m);
      } else {
        ReadsOnly(env, Abs(), m);
        CnHandleMessage(m);
      }
    }
  }
}
