/** What the transaction engine of catalina-storage.c does with each message, stated
    as a function on an abstract state.  Compared with the code, the abstract state
    keeps the writes of a transaction in submission order, and a commit happens
    in one step: there is no reversed list, no TDB snapshot and no re-entry into the
    message dispatcher.  Module StorageEngine shows that the handlers compute this. */
module StorageSpec {
  import opened Wrappers

  /** `gulong` ids as far as the engine can tell them apart: the counter is
      incremented as a 32-bit integer and the table compares 32 bits. */
  type TxnId = t: int | 0 <= t < 0x1_0000_0000

  const TXN_ID_LIMIT := 0x1_0000_0000

  datatype Error =
    | StateError                     // CATALINA_STORAGE_ERROR_STATE
    | OpenFailed                     // CATALINA_STORAGE_ERROR_DB, from tdb_open
    | StartFailed                    // CATALINA_STORAGE_ERROR_DB, from tdb_transaction_start
    | CommitFailed(call: nat)        // CATALINA_STORAGE_ERROR_DB with the text of that TDB call
    | NoSuchKey                      // CATALINA_STORAGE_ERROR_NO_SUCH_KEY, from tdb_fetch
    | StoreFailed(call: nat)         // the same code, from tdb_store, with the text of that call
    | NoSuchTxn                      // CATALINA_STORAGE_ERROR_NO_SUCH_TXN
    | TransformError(code: nat)      // whatever the transform reported

  /** `Keep`: success without a buffer, in which case the input is stored as it is. */
  datatype WriteResult = Keep | Buffer(bytes: Bytes) | WriteFailed(code: nat)

  datatype ReadResult = Output(bytes: Bytes) | ReadFailed(code: nat)

  datatype Transform =
    | NoTransform
    | Transform(write: Bytes -> WriteResult, read: Bytes -> ReadResult)

  /** The environment: `tdb(i)` says whether the i-th fallible TDB call succeeds. */
  datatype Env = Env(tdb: nat -> bool, transform: Transform)

  /** The StorageTask of a set, and of a commit; `id` is its identity. */
  datatype SetTask = SetTask(id: nat, txn: TxnId, key: Bytes, data: Bytes)

  datatype CommitTask = CommitTask(id: nat, txn: TxnId)

  /** A posted message together with its task. */
  datatype Msg =
    | Open(openId: nat)
    | Close(closeId: nat)
    | Set(write: SetTask)
    | Begin(beginId: nat)
    | Commit(commit: CommitTask)
    | Cancel(cancelId: nat, txn: TxnId)
    | Get(getId: nat, key: Bytes)
    | CountKeys(countId: nat)

  function Id(m: Msg): nat {
    match m
    case Open(id) => id
    case Close(id) => id
    case Set(t) => t.id
    case Begin(id) => id
    case Commit(t) => t.id
    case Cancel(id, _) => id
    case Get(id, _) => id
    case CountKeys(id) => id
  }

  /** Exclusive messages run alone; the others only read. */
  predicate IsExclusive(m: Msg) {
    !m.Get? && !m.CountKeys?
  }

  datatype Payload = NoData | Data(bytes: Bytes) | Number(n: nat)

  datatype Outcome = Succeeded(payload: Payload) | Failed(error: Option<Error>)

  /** The completion of one task. */
  datatype Done = Done(msg: Msg, outcome: Outcome)

  datatype Pending = Pending(writes: seq<SetTask>, error: Option<Error>)

  type Db = map<Bytes, Bytes>

  datatype St = St(
    open: bool,                   // db_ctx != NULL
    db: Db,                       // the contents of the TDB file
    calls: nat,                   // fallible TDB calls made so far
    txnSeq: TxnId,
    txn: TxnId,                   // current transaction, 0 when there is none
    queue: seq<CommitTask>,        // deferred commits
    txns: map<TxnId, Pending>)

  /** A step ends in `st`, delivers the completions `done`, in that order, and lets go
      of the messages `lost` without ever completing them. */
  datatype Result = Result(st: St, done: seq<Done>, lost: multiset<nat>)

  function Init(db: Db): St {
    St(false, db, 0, 0, 0, [], map[])
  }

  // ----- one write -----

  datatype Form = Stored(bytes: Bytes) | Rejected(code: nat)

  /** What is handed to tdb_store for `data`. */
  function FormOf(x: Transform, data: Bytes): Form {
    match x
    case NoTransform => Stored(data)
    case Transform(write, _) =>
      match write(data)
      case Keep => Stored(data)
      case Buffer(b) => Stored(b)
      case WriteFailed(code) => Rejected(code)
  }

  datatype Write = Write(db: Db, calls: nat, error: Option<Error>)

  function WriteOne(env: Env, db: Db, calls: nat, m: SetTask): Write {
    match FormOf(env.transform, m.data)
    case Rejected(code) => Write(db, calls, Some(TransformError(code)))
    case Stored(b) =>
      if env.tdb(calls) then Write(db[m.key := b], calls + 1, None)
      else Write(db, calls + 1, Some(StoreFailed(calls)))
  }

  function WriteOutcome(w: Write): Outcome {
    if w.error.None? then Succeeded(NoData) else Failed(w.error)
  }

  /** Sets that carry this id. */
  predicate AllCarry(ws: seq<SetTask>, t: TxnId) {
    ws == [] || (ws[|ws| - 1].txn == t && AllCarry(ws[..|ws| - 1], t))
  }

  lemma {:induction false} AllCarryAt(ws: seq<SetTask>, t: TxnId, i: nat)
    requires AllCarry(ws, t) && i < |ws|
    ensures ws[i].txn == t
  {
    if i < |ws| - 1 {
      AllCarryAt(ws[..|ws| - 1], t, i);
    }
  }

  // ----- the handlers -----

  /** Completing a task with an error also leaves the error in its transaction. */
  function NoteError(txns: map<TxnId, Pending>, t: TxnId, e: Error): map<TxnId, Pending> {
    if t != 0 && t in txns then txns[t := txns[t].(error := Some(e))] else txns
  }

  function Complete(s: St, m: Msg, o: Outcome): Result {
    Result(s, [Done(m, o)], multiset{})
  }

  function Fail(s: St, m: Msg, t: TxnId, e: Error): Result {
    Complete(s.(txns := NoteError(s.txns, t, e)), m, Failed(Some(e)))
  }

  function SetStep(env: Env, s: St, m: SetTask): Result {
    if !s.open then
      Fail(s, Set(m), m.txn, StateError)
    else if m.txn != 0 && s.txn != m.txn then
      if m.txn !in s.txns then Fail(s, Set(m), m.txn, NoSuchTxn)
      else
        var p := s.txns[m.txn];
        Result(s.(txns := s.txns[m.txn := p.(writes := p.writes + [m])]), [], multiset{})
    else if s.txn != 0 && s.txn != m.txn then
      Result(s, [], multiset{m.id})
    else
      var w := WriteOne(env, s.db, s.calls, m);
      var s' := s.(db := w.db, calls := w.calls);
      if w.error.Some? then Fail(s', Set(m), m.txn, w.error.value) else Complete(s', Set(m), Succeeded(NoData))
  }

  datatype Replayed = Replayed(db: Db, calls: nat, done: seq<Done>, lost: multiset<nat>, error: Option<Error>)

  function WriteIds(ws: seq<SetTask>): multiset<nat> {
    if ws == [] then multiset{} else multiset{ws[0].id} + WriteIds(ws[1..])
  }

  function CommitIds(ms: seq<CommitTask>): multiset<nat> {
    if ms == [] then multiset{} else multiset{ms[0].id} + CommitIds(ms[1..])
  }

  /** The writes of a transaction in order, up to the first error; an error that is
      already noted (`stale`) is only noticed after the first write. */
  function Replay(env: Env, db: Db, calls: nat, ws: seq<SetTask>, stale: Option<Error>): Replayed
    decreases |ws|
  {
    if ws == [] then Replayed(db, calls, [], multiset{}, None)
    else
      var w := WriteOne(env, db, calls, ws[0]);
      var d := Done(Set(ws[0]), WriteOutcome(w));
      var e := if w.error.Some? then w.error else stale;
      if e.Some? then Replayed(w.db, w.calls, [d], WriteIds(ws[1..]), e)
      else
        var r := Replay(env, w.db, w.calls, ws[1..], None);
        r.(done := [d] + r.done)
  }

  /** A commit of a transaction for which the TDB transaction has been started. */
  function CommitOne(env: Env, s: St, m: CommitTask): Result
    requires m.txn in s.txns
  {
    var p := s.txns[m.txn];
    var r := Replay(env, s.db, s.calls + 1, p.writes, p.error);
    var error := if r.error.Some? then r.error
                 else if env.tdb(r.calls) then None else Some(CommitFailed(r.calls));
    var s' := s.(db := if error.None? then r.db else s.db,
                 calls := if r.error.Some? then r.calls else r.calls + 1,
                 txn := 0, txns := s.txns - {m.txn});
    Result(s', r.done + [Done(Commit(m), if error.None? then Succeeded(NoData) else Failed(error))], r.lost)
  }

  function Then(a: Result, b: Result): Result {
    Result(b.st, a.done + b.done, a.lost + b.lost)
  }

  predicate Deferred(s: St, m: CommitTask) {
    s.open && s.txn != 0 && s.txn != m.txn
  }

  /** The commit goes through to tdb_transaction_commit or to the rollback. */
  predicate Runs(env: Env, s: St, m: CommitTask) {
    s.open && !Deferred(s, m) && m.txn in s.txns && env.tdb(s.calls)
  }

  function CommitStep(env: Env, s: St, m: CommitTask): Result
    decreases |s.queue|
  {
    if !s.open then Fail(s, Commit(m), m.txn, StateError)
    else if Deferred(s, m) then Result(s.(queue := s.queue + [m]), [], multiset{})
    else if m.txn !in s.txns then Fail(s.(txn := m.txn), Commit(m), m.txn, StateError)
    else if !env.tdb(s.calls) then Fail(s.(txn := m.txn, calls := s.calls + 1), Commit(m), m.txn, StartFailed)
    else
      var r := CommitOne(env, s, m);
      if s.queue == [] then r
      else Then(r, CommitStep(env, r.st.(queue := s.queue[1..]), s.queue[0]))
  }

  function CancelStep(s: St, m: Msg): Result
    requires m.Cancel?
  {
    if !s.open then Complete(s, m, Failed(None))
    else if m.txn in s.txns then
      Result(s.(txns := s.txns - {m.txn}), [Done(m, Succeeded(NoData))], WriteIds(s.txns[m.txn].writes))
    else Complete(s, m, Succeeded(NoData))
  }

  function NextId(t: TxnId): TxnId {
    (t + 1) % TXN_ID_LIMIT
  }

  function BeginStep(s: St, m: Msg): Result {
    if !s.open then Complete(s, m, Failed(None))
    else
      var t := NextId(s.txnSeq);
      Result(s.(txnSeq := t, txns := s.txns[t := Pending([], None)]),
             [Done(m, Succeeded(Number(t)))],
             if t in s.txns then WriteIds(s.txns[t].writes) else multiset{})
  }

  /** The tasks buffered in all the transactions of the table. */
  ghost function Buffered(txns: map<TxnId, Pending>): multiset<nat>
    decreases |txns|
  {
    if txns == map[] then multiset{}
    else
      var t :| t in txns;
      WriteIds(txns[t].writes) + Buffered(txns - {t})
  }

  /** The tasks the engine still holds. */
  ghost function Held(s: St): multiset<nat> {
    Buffered(s.txns) + CommitIds(s.queue)
  }

  ghost function OpenStep(env: Env, s: St, m: Msg): Result {
    if s.open then Fail(s, m, 0, StateError)
    else
      var s' := s.(txn := 0, queue := [], txns := map[], calls := s.calls + 1);
      if env.tdb(s.calls) then Result(s'.(open := true), [Done(m, Succeeded(NoData))], Held(s))
      else Result(s', [Done(m, Failed(Some(OpenFailed)))], Held(s))
  }

  function CloseStep(env: Env, s: St, m: Msg): Result {
    if !s.open || s.txn != 0 || s.txns != map[] then Fail(s, m, 0, StateError)
    else if env.tdb(s.calls) then
      Complete(s.(open := false, calls := s.calls + 1), m, Succeeded(NoData))
    else Fail(s.(calls := s.calls + 1), m, 0, StateError)
  }

  function GetOutcome(x: Transform, s: St, key: Bytes): Outcome {
    if !s.open then Failed(Some(StateError))
    else if key !in s.db then Failed(Some(NoSuchKey))
    else
      match x
      case NoTransform => Succeeded(Data(s.db[key]))
      case Transform(_, read) =>
        match read(s.db[key])
        case ReadFailed(code) => Failed(Some(TransformError(code)))
        case Output(b) => Succeeded(Data(if b == [] then s.db[key] else b))
  }

  function CountOutcome(s: St): Outcome {
    Succeeded(Number(if s.open then |s.db| else 0))
  }

  ghost function Step(env: Env, s: St, m: Msg): Result {
    match m
    case Open(_) => OpenStep(env, s, m)
    case Close(_) => CloseStep(env, s, m)
    case Set(t) => SetStep(env, s, t)
    case Begin(_) => BeginStep(s, m)
    case Commit(t) => CommitStep(env, s, t)
    case Cancel(_, _) => CancelStep(s, m)
    case Get(_, key) => Complete(s, m, GetOutcome(env.transform, s, key))
    case CountKeys(_) => Complete(s, m, CountOutcome(s))
  }

  ghost function Run(env: Env, s: St, ms: seq<Msg>): Result
    decreases |ms|
  {
    if ms == [] then Result(s, [], multiset{})
    else
      var r := Step(env, s, ms[0]);
      Then(r, Run(env, r.st, ms[1..]))
  }
}
