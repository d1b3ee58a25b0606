/** Formatter, transform and storage together: a value that has been set is the value that
    a later get returns. */
module EndToEnd {
  import opened Wrappers
  import opened Integers
  import opened Values
  import BF = BinaryFormat
  import Proofs = BinaryFormatProofs
  import Z = ZlibTransform
  import opened StorageSpec
  import opened StorageAnswers
  import opened StorageRuns
  import opened StorageSerial
  import opened StorageTxns
  import opened StorageRecords

  /** The transform property of a storage: nothing, or a zlib transform.  Whether the data at
      hand finds deflateInit and inflateInit succeeding is up to the environment. */
  datatype Config =
    | Plain
    | Zlib(codec: Z.Codec, watermark: nat, deflateInit: Bytes -> bool, inflateInit: Bytes -> bool)

  /** A call that would abort the process is taken as a failed one. */
  function AsWrite(o: Z.Outcome): WriteResult {
    match o
    case Output(b) => Buffer(b)
    case InitFailed => WriteFailed(0)
    case Abort => WriteFailed(1)
  }

  function AsRead(o: Z.Outcome): ReadResult {
    match o
    case Output(b) => StorageSpec.Output(b)
    case InitFailed => ReadFailed(0)
    case Abort => ReadFailed(1)
  }

  function TransformOf(c: Config): Transform {
    match c
    case Plain => NoTransform
    case Zlib(codec, watermark, deflateInit, inflateInit) =>
      Transform((data: Bytes) => AsWrite(Z.WrittenIf(codec, watermark, deflateInit(data), data)),
                (stored: Bytes) => AsRead(Z.ReadBackIf(codec, inflateInit(stored), stored)))
  }

  ghost predicate GoodConfig(c: Config) {
    c.Zlib? ==> Z.GoodCodec(c.codec)
  }

  // ----- buffers -----

  /** What a get returns for a record that a set of `data` has stored. */
  function Returned(c: Config, data: Bytes, stored: Bytes): Outcome {
    if c.Plain? then Succeeded(Data(data))
    else if data == [] then Succeeded(Data([0]))
    else if |data| <= c.watermark then Succeeded(Data(data))
    else if !c.inflateInit(stored) then Failed(Some(TransformError(0)))
    else if !Z.Fits(c.codec, c.watermark, data) || |data| % LIMIT32 == 0 then Failed(Some(TransformError(1)))
    else Succeeded(Data(data[..|data| % LIMIT32]))
  }

  /** Plain data comes back, and through a transform: not the empty buffer, because a
      transformed buffer of length 0 means that the input is to be used; and of what is
      compressed only what fits 32 bits, if inflateInit succeeds. */
  predicate ComesBack(c: Config, data: Bytes, stored: Bytes) {
    c.Zlib? ==>
      && data != []
      && (|data| <= c.watermark ||
          (|data| < LIMIT32 && |c.codec.deflate(data)| + 5 < LIMIT32 && c.inflateInit(stored)))
  }

  /** What a get makes of a stored buffer, in every case, and exactly when it gives back the
      data that was stored. */
  lemma GetReturnsData(c: Config, s: St, k: Bytes, data: Bytes)
    requires GoodConfig(c) && s.open && Holds(TransformOf(c), s.db, k, data)
    ensures GetOutcome(TransformOf(c), s, k) == Returned(c, data, s.db[k])
    ensures GetOutcome(TransformOf(c), s, k) == Succeeded(Data(data)) <==> ComesBack(c, data, s.db[k])
  {
    if c.Zlib? {
      hide Z.ReadBack, Z.GoodCodec, Z.Fits;
      Z.ReadsBackLow32(c.codec, c.watermark, data);
      HoldsWritten(c, s.db, k, data);
      WrittenLast(c.codec, c.watermark, data);
      assert Z.ThereAndBack(c.codec, c.watermark, data) == Z.ReadBack(c.codec, s.db[k]);
      hide Z.Written;
      FitsExactly(c.codec, c.watermark, data);
    }
  }

  lemma HoldsWritten(c: Config, db: Db, k: Bytes, data: Bytes)
    requires c.Zlib? && Holds(TransformOf(c), db, k, data)
    ensures Z.Written(c.codec, c.watermark, data) == Z.Output(db[k])
  {
    assert TransformOf(c).write(data) == AsWrite(Z.WrittenIf(c.codec, c.watermark, c.deflateInit(data), data));
    hide Z.Written;
  }

  /** The last byte that is written says whether the data was compressed. */
  lemma WrittenLast(codec: Z.Codec, watermark: nat, data: Bytes)
    requires Z.Written(codec, watermark, data).Output?
    ensures var w := Z.Written(codec, watermark, data).bytes;
      w != [] && w[|w| - 1] == if |data| <= watermark then 0 else 1
  {}

  lemma FitsExactly(codec: Z.Codec, watermark: nat, data: Bytes)
    ensures |data| < LIMIT32 && |data| > watermark ==>
      (Z.Fits(codec, watermark, data) <==> |codec.deflate(data)| + 5 < LIMIT32)
    ensures |data| < LIMIT32 ==> data[..|data| % LIMIT32] == data
    ensures |data| >= LIMIT32 ==> |data[..|data| % LIMIT32]| < |data|
  {
    if |data| < LIMIT32 {
      assert data[..|data| % LIMIT32] == data;
    }
  }

  // ----- values -----

  /** catalina_storage_get_value: what a get delivers, through the formatter. */
  function ValueOf(reg: Registry, o: Outcome): BF.Read<Value> {
    match o
    case Failed(_) => BF.Fail
    case Succeeded(payload) => if payload.Data? then BF.Deserialize(reg, payload.bytes) else BF.Fail
  }

  /** catalina_storage_set_value: the formatter, then a set. */
  function SetValueTask(reg: Registry, id: nat, t: TxnId, k: Bytes, v: Value): SetTask
    requires WellFormed(reg, v)
  {
    SetTask(id, t, k, BF.Serialize(reg, v))
  }

  ghost predicate GoodValue(reg: Registry, v: Value) {
    NamedRegistry(reg) && WellFormed(reg, v) && Proofs.Writable(v) && |BF.Serialize(reg, v)| < LIMIT32
  }

  /** The run `r` ends with the completion of `get`, and what this makes of `v` is what the
      reader makes of it, unless the transform fails; and exactly when that is `v` again. */
  ghost predicate GivesBack(c: Config, reg: Registry, r: Result, get: Msg, v: Value)
    requires WellFormed(reg, v) && get.Get?
  {
    && |r.done| > 0 && r.done[|r.done| - 1].msg == get && get.key in r.st.db
    && var got := ValueOf(reg, r.done[|r.done| - 1].outcome);
       var through := ComesBack(c, BF.Serialize(reg, v), r.st.db[get.key]);
       && got == (if through then Proofs.Reread(reg, v) else BF.Fail)
       && (got == BF.Ok(Proofs.Restored(reg, v)) <==> through && Proofs.ReadsWell(reg, v))
  }

  lemma StoredValueComesBack(c: Config, reg: Registry, env: Env, s: St, ms: seq<Msg>, get: Msg, v: Value)
    requires GoodConfig(c) && GoodValue(reg, v) && get.Get? && env.transform == TransformOf(c)
    requires var now := Run(env, s, ms).st;
      now.open && Holds(TransformOf(c), now.db, get.key, BF.Serialize(reg, v))
    ensures GivesBack(c, reg, Run(env, s, ms + [get]), get, v)
  {
    hide BF.Serialize, BF.Deserialize, GetOutcome, TransformOf, GoodConfig, WellFormed, Z.Fits, Run;
    hide Proofs.Restored, Proofs.Reread, Proofs.ReadsWell, NamedRegistry;
    Proofs.SerializeReads(reg, v);
    Proofs.RereadExactly(reg, v);
    var data := BF.Serialize(reg, v);
    GetIsLast(env, s, ms, get);
    GetReturnsData(c, Run(env, s, ms).st, get.key, data);
    if c.Zlib? {
      FitsExactly(c.codec, c.watermark, data);
    }
  }

  /** A get at the end of a run is answered last. */
  lemma GetIsLast(env: Env, s: St, ms: seq<Msg>, get: Msg)
    requires get.Get?
    ensures var r := Run(env, s, ms + [get]);
      && r.st == Run(env, s, ms).st && |r.done| > 0
      && r.done[|r.done| - 1] == Done(get, GetOutcome(env.transform, r.st, get.key))
  {
    RunAppend(env, s, ms, [get]);
    RunOne(env, Run(env, s, ms).st, get);
    hide Run, GetOutcome, SetStep, CommitStep, BeginStep, CancelStep, OpenStep, CloseStep;
  }

  /** A run with a message in the middle. */
  lemma RunThrough(env: Env, s: St, before: seq<Msg>, m: Msg, after: seq<Msg>)
    ensures Run(env, s, before + [m] + after).st == Run(env, Step(env, Run(env, s, before).st, m).st, after).st
  {
    hide Run, Step;
    RunAppend(env, s, before + [m], after);
    RunAppend(env, s, before, [m]);
    RunOne(env, Run(env, s, before).st, m);
  }

  // ----- when a set succeeds -----

  /** The transform, if there is one, can store this data: plain always, else if deflateInit
      succeeds and the 32-bit length of the stream leaves room for the tail. */
  predicate CanBeStored(c: Config, data: Bytes) {
    c.Zlib? ==>
      || |data| <= c.watermark
      || (c.deflateInit(data) && Low(|c.codec.deflate(data[..|data| % LIMIT32])|) + 5 < LIMIT32)
  }

  /** A set on an open storage that names no transaction while none is current, or names the
      current one, succeeds exactly if its data can be stored and TDB stores it. */
  lemma SetSucceeds(c: Config, tdb: nat -> bool, s: St, w: SetTask)
    requires s.open && s.txn == w.txn
    ensures SetStep(Env(tdb, TransformOf(c)), s, w).done == [Done(Set(w), Succeeded(NoData))] <==>
      CanBeStored(c, w.data) && tdb(s.calls)
  {
    SetSucceedsExactly(Env(tdb, TransformOf(c)), s, w);
    if c.Zlib? {
      Z.WritesExactly(c.codec, c.watermark, c.deflateInit(w.data), w.data);
      assert TransformOf(c).write(w.data) ==
        AsWrite(Z.WrittenIf(c.codec, c.watermark, c.deflateInit(w.data), w.data));
    }
    hide SetStep, Z.WrittenIf;
  }

  // ----- from set_value to get_value -----

  /** In any run from the start: a value that set_value stored at once is what a get_value
      delivers that is posted after any further messages, as long as none of them takes
      effect on its key and the storage is open then: for every well-formed writable
      value, however nested, every watermark, with or without the transform, and whatever
      else happens to other keys, transactions and TDB calls.  It does so exactly if the names
      in the value do no harm, its stream fits 32 bits and inflateInit succeeds. */
  lemma SetThenGet(c: Config, tdb: nat -> bool, reg: Registry, db: Db, before: seq<Msg>,
                   id: nat, t: TxnId, k: Bytes, v: Value, rest: seq<Msg>, getId: nat)
    requires GoodConfig(c) && GoodValue(reg, v)
    requires var env := Env(tdb, TransformOf(c));
      var w := SetValueTask(reg, id, t, k, v);
      var r := SetStep(env, Run(env, Init(db), before).st, w);
      && r.done == [Done(Set(w), Succeeded(NoData))]
      && TraceSpares(env.transform, ViewOf(r.st), Trace(env, r.st, rest), k)
      && Run(env, r.st, rest).st.open
    ensures var env := Env(tdb, TransformOf(c));
      var ms := before + [Set(SetValueTask(reg, id, t, k, v))] + rest;
      GivesBack(c, reg, Run(env, Init(db), ms + [Get(getId, k)]), Get(getId, k), v)
  {
    var env := Env(tdb, TransformOf(c));
    var w := SetValueTask(reg, id, t, k, v);
    var s := Run(env, Init(db), before).st;
    var now := SetStep(env, s, w).st;
    assert w.key == k && w.data == BF.Serialize(reg, v);
    hide *;
    SaneFromStart(env, db, before, w);
    SetStores(env, s, w);
    StillThere(c, env, reg, now, k, v, rest);
    StepIsSetStep(env, s, w);
    RunThrough(env, Init(db), before, Set(w), rest);
    StoredValueComesBack(c, reg, env, Init(db), before + [Set(w)] + rest, Get(getId, k), v);
  }

  lemma StillThere(c: Config, env: Env, reg: Registry, now: St, k: Bytes, v: Value, rest: seq<Msg>)
    requires GoodValue(reg, v) && env.transform == TransformOf(c)
    requires Sane(now) && Holds(env.transform, now.db, k, BF.Serialize(reg, v))
    requires TraceSpares(env.transform, ViewOf(now), Trace(env, now, rest), k)
    ensures Holds(env.transform, Run(env, now, rest).st.db, k, BF.Serialize(reg, v))
  {
    assert WellFormed(reg, v);
    hide *;
    RecordStays(env, now, rest, k);
    SparedHolds(env.transform, now.db, Run(env, now, rest).st.db, k, BF.Serialize(reg, v));
  }

  /** The set was taken into its transaction. */
  predicate IsBuffered(r: Result) {
    r.done == [] && r.lost == multiset{}
  }

  /** The same for a value that set_value put into a transaction, in any run from the start
      with fewer than 2^32 begins: once a commit of the transaction has succeeded, be it at
      once or after it was deferred, alone or among others in a drain, get_value delivers
      the value, as long as the transaction does not set the key again and nothing behind
      its commit takes effect on it. */
  lemma CommitThenGet(c: Config, tdb: nat -> bool, reg: Registry, db: Db, before: seq<Msg>,
                      id: nat, t: TxnId, k: Bytes, v: Value, between: seq<Msg>,
                      m: CommitTask, j: nat, rest: seq<Msg>, getId: nat)
    requires GoodConfig(c) && GoodValue(reg, v)
    requires BeginCount(before) + BeginCount(between) < TXN_ID_LIMIT
    requires forall i :: 0 <= i < |between| ==> !IsSetOn(between[i], t, k)
    requires var env := Env(tdb, TransformOf(c));
      var put := SetStep(env, Run(env, Init(db), before).st, SetValueTask(reg, id, t, k, v));
      var s := Run(env, put.st, between).st;
      var r := CommitStep(env, s, m);
      && IsBuffered(put)
      && CommittedAt(env.transform, ViewOf(s), Commit(m), r.done, j, t, k)
      && TraceSpares(env.transform, ViewOf(r.st), Trace(env, r.st, rest), k)
      && Run(env, r.st, rest).st.open
    ensures var env := Env(tdb, TransformOf(c));
      var ms := before + [Set(SetValueTask(reg, id, t, k, v))] + between + [Commit(m)] + rest;
      GivesBack(c, reg, Run(env, Init(db), ms + [Get(getId, k)]), Get(getId, k), v)
  {
    var env := Env(tdb, TransformOf(c));
    var w := SetValueTask(reg, id, t, k, v);
    var s0 := Run(env, Init(db), before).st;
    var put := SetStep(env, s0, w);
    var s := Run(env, put.st, between).st;
    assert w.txn == t && w.key == k && w.data == BF.Serialize(reg, v);
    hide *;
    BufferedFromStart(env, db, before, w);
    RunKeepsWaiting(env, put.st, between, t, w);
    RunKeepsSane(env, put.st, between);
    DrainStores(env, s, m, j, t, w, Commit(m));
    CommitKeepsSane(env, s, m);
    StillThere(c, env, reg, CommitStep(env, s, m).st, k, v, rest);
    StepIsSetStep(env, s0, w);
    StepCommit(env, s, m);
    RunThrough(env, Init(db), before, Set(w), between);
    RunThrough(env, Init(db), before + [Set(w)] + between, Commit(m), rest);
    StoredValueComesBack(c, reg, env, Init(db), before + [Set(w)] + between + [Commit(m)] + rest, Get(getId, k), v);
  }
}
