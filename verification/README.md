# Catalina: a verified model

Catalina is a transactional key/value store for GLib. This project models its three
components and their composition, and proves what they promise.

**The transaction engine** (`catalina/catalina-storage.c`). Open, close, set, begin, commit and
cancel messages are handled one at a time; gets and counts only read. A transaction buffers
its sets, newest first; its commit turns the list around and replays it through the message
dispatcher inside a TDB transaction; commits that arrive while another one is current are
queued and drained by the commit that finishes.

- `StorageSpec` says what each message does, as a function on an abstract state.
- `StorageEngine` holds the handlers as a class on mutable state, with the reversed lists, the
  TDB snapshot, the re-entrant dispatcher and the recursive drain, and proves that every
  handler, and the arbiter's loop over any number of messages, computes the specification.
- `StorageSerial` (serial history), `StorageAnswers` (how every message is answered),
  `StorageCommits` (all or nothing, first error, FIFO), `StorageErasure` (cancelled
  transactions), `StorageTasks` (conservation of requests),
  `StorageRuns` (queue), `StorageTxns` (ids, stuck and wedged storages) and `StorageRecords` (how
  a set reaches the records) prove its properties over all runs.
- TDB's results are a parameter: `Env.tdb(i)` says whether its i-th fallible call succeeds, and
  every theorem holds for every such function.

**The binary formatter** (`catalina/catalina-binary-formatter.c`). `BinaryFormat` is the format as
an encoding and a decoding of byte strings, `BinaryFormatter` the readers and writers on
byte buffers for hosts of either byte order, `BinaryFormatProofs` the round trips. `Integers`
and `Values` hold the integers, the GValues and the registered types.

**The zlib transform** (`catalina/catalina-zlib-transform.c`). `ZlibTransform` has the watermark
rule, the tail, the chunk loop and the gather loop around an opaque compressor.

**Synchronous calls.** `Handshake` is the protocol between callers and workers as a state
machine with any number of calls and any interleaving; `SyncCalls` joins it to the engine and
says which calls return.

**Composition.** `EndToEnd` puts the formatter, the transform and the storage together.

## Where the code departs from its documentation or intent

The model follows the code; the lemmas named here say what that means.

- The current transaction is not reset when a commit names an unknown id or when its TDB
  transaction does not start (lines 1947-1965). `IdleExactly` and `WedgedExactly` say when this
  happens, and the following lemmas what comes of it.
- After a commit of an id that does not exist, the storage cannot be closed and serves no other
  commit, plain sets vanish without an answer, and sets that carry that id go straight to the
  database (`WhileWedged`), exactly until a begin hands out that very id (`WedgedExactlyWhile`),
  which may take up to 2^32 begins; then the new transaction can be committed and the
  deferred commits are served (`BeginEndsWedge`).
- After a failed start, the transaction keeps an error. If it has sets it never commits, over any
  run with fewer than 2^32 begins (`FailedTxnNeverCommits`), and they never reach the records; the sets it is given after
  that go straight to the database and stay there when it is cancelled or retried
  (`StuckTxnIsNotAtomic`). Cancelling it, which a refused close asks for, wedges the storage
  (`CancelWedges`).
- Some tasks are never completed, and a synchronous call that waits for one never returns:
  a set dropped by the guard at line 1806, the sets of a cancelled transaction, those behind the
  first failing one of a commit (`LostCallsHang`), and in a wedged storage those whose id
  is handed out again before the wedge ends (`StuckForGoodExactly`).
- "No current transaction means no deferred commit" is false as soon as clients commit the id 0,
  which begin returns on failure: `ZeroCommitBreaks` gives the run, `QueueHoldsExactly` the
  exact condition on the ids clients commit.
- Cancel removes a transaction from a list of messages, which removes nothing, and does not
  reset the current transaction (line 2029).
- The rollback that lines 1489-1490 promise is a call of `tdb_transaction_recover` (line 1985).
  The model takes that call to restore the records from the transaction's start and to end it.
- `total` is not initialised in `write_object` (lines 1255 and 1273). The model starts it at 0.
- `real_serialize` ignores the result of `write_value`: `SerializeRoundTrip` shows that exactly the
  values that cannot be written give a buffer that cannot be read.
- One-byte name lengths are cut silently: `LongNames` and `LongTypeNames` say what the reader makes
  of one such name, `RereadIs` and `RereadExactly` what becomes of whole values.
- A transform that yields an empty buffer on a read means "use the input", so the empty
  buffer does not survive a set and a get through the transform (`GetReturnsData`).
- zlib counts input in 32 bits and the transform the stream: of a longer input only the part that
  its length modulo 2^32 says is compressed and comes back, without any error, and a stream
  of 2^32 bytes or more cannot be read back (`ReadsBackLow32`, `RoundTripExactly`).
- Nested values are read up to the end of the whole buffer where their length is not looked at,
  as by the reader of objects; the model does the same.
- `g_cond_wait` is not called in a loop: `SpuriousExactly` says which spurious wakeups are harmless.

## Model

| member | source | states |
|---|---|---|
| StorageEngine.Storage.constructor | catalina/catalina-storage.c:259-294 | a new storage is closed, holds no transaction, and has completed nothing |
| StorageEngine.Storage.Serve | catalina/catalina-storage.c:275-293 | over any sequence of messages the storage ends in the specified state with the specified completions in order |
| StorageEngine.Storage.Dispatch | catalina/catalina-storage.c:2036-2078 | each message goes to the handler of its port and does what the specification says |
| StorageEngine.Storage.ExHandleMessage | catalina/catalina-storage.c:2052-2078 | the exclusive dispatcher, also re-entered for a running transaction, computes the specified step and leaves the replayed list alone |
| StorageEngine.Storage.CnHandleMessage | catalina/catalina-storage.c:2036-2050 | the concurrent dispatcher changes nothing but the completions |
| StorageEngine.Storage.HandleOpen | catalina/catalina-storage.c:1590-1649 | open fails on an open storage, else drops whatever was pending and opens if TDB does |
| StorageEngine.Storage.HandleClose | catalina/catalina-storage.c:1651-1694 | close fails when closed, with a current transaction or with live ones, else closes if TDB does |
| StorageEngine.Storage.HandleGet | catalina/catalina-storage.c:1696-1765 | error on a closed storage, a missing key or a failed transform; an empty transformed buffer means the stored bytes |
| StorageEngine.Storage.HandleSet | catalina/catalina-storage.c:1767-1851 | refused, buffered at the end of its transaction in submission order, dropped, or stored at once |
| StorageEngine.Storage.BufferSet | catalina/catalina-storage.c:1801-1803 | prepending to the list appends to the writes in submission order and touches no other transaction |
| StorageEngine.Storage.StoreSet | catalina/catalina-storage.c:1808-1850 | the transformed data is stored or the error noted in the transaction, and the request completes once |
| StorageEngine.Storage.HandleCountKeys | catalina/catalina-storage.c:1853-1885 | the traversal counts each record once; 0 on a closed storage |
| StorageEngine.Storage.HandleTxnBegin | catalina/catalina-storage.c:1887-1915 | a new empty transaction under the next 32-bit id |
| StorageEngine.Storage.HandleTxnCommit | catalina/catalina-storage.c:1917-2003 | the whole commit: refused, deferred, failed, or run with the drain of the queue, which terminates |
| StorageEngine.Storage.CommitCurrent | catalina/catalina-storage.c:1946-1965 | the commit becomes current, and stays current when it fails because its id is unknown |
| StorageEngine.Storage.StartCurrent | catalina/catalina-storage.c:1958-1965 | the current commit fails, and stays current, when TDB does not start; else the transaction runs and the queue is drained |
| StorageEngine.Storage.RunAndDrain | catalina/catalina-storage.c:1967-2003 | the transaction, then the deferred commits in order |
| StorageEngine.Storage.RunTransaction | catalina/catalina-storage.c:1967-1990 | replay, TDB commit or rollback, and completion amount to one atomic commit |
| StorageEngine.Storage.Settle | catalina/catalina-storage.c:1971-1990 | on success the replayed records stay, else the snapshot is back, and the entry and the current transaction are gone |
| StorageEngine.Storage.TxnStateRun | catalina/catalina-storage.c:2208-2229 | the reversed list is replayed in submission order up to the first noted error, which is returned |
| StorageEngine.Storage.RunMessage | catalina/catalina-storage.c:2217-2219 | a replayed write goes through the dispatcher, is stored and never buffered again, and notes its error |
| StorageEngine.TxnState.Reverse | catalina/catalina-storage.c:2214-2215 | the list newest first becomes the list in submission order |
| StorageEngine.Storage.HandleTxnCancel | catalina/catalina-storage.c:2005-2034 | the transaction goes with its buffered sets; the queue and the current transaction stay |
| StorageEngine.Storage.TaskFail | catalina/catalina-storage.c:2179-2190 | the error reaches the transaction if it is live, and the request completes with failure |
| StorageSerial.SerialHistory | catalina/catalina-storage.c:1767-2034 | for every run and every TDB, what an observer of messages and completions makes of them is what the database holds: plain sets act when they complete, transactions act at once when their commit succeeds, with their sets in posting order, and nothing else acts |
| StorageSerial.SerialFromStart | catalina/catalina-storage.c:1767-2034 | the same from a new storage |
| StorageSerial.SeeCommit | catalina/catalina-storage.c:1917-2003 | the observer is right across a commit and the whole drain it sets off |
| StorageSerial.SetsOfCommitsAreSilent | catalina/catalina-storage.c:2214-2226 | sets completed inside a commit do not act on their own |
| StorageSerial.RecordStays | catalina/catalina-storage.c:1767-2034 | a record stays as it is while nothing takes effect on its key |
| StorageAnswers.CompletionsTell | catalina/catalina-storage.c:1590-2034 | in every run, whether the storage is open, which id was handed out last, which transactions are live and which is current can be told from the completions alone; it is open exactly when the last open or close that succeeded was an open |
| StorageAnswers.AnswersFit | catalina/catalina-storage.c:1590-2034 | in every run every message is answered as an observer expects who only saw what came before: gets with what reading the record gives or a refusal, counts with the number of records, opens, closes, begins, cancels, sets and commits as the status demands |
| StorageAnswers.AnswersFromStart | catalina/catalina-storage.c:1590-2034 | the same from a new storage |
| StorageAnswers.OpenExactly | catalina/catalina-storage.c:1608-1648 | an open succeeds if and only if the storage is closed and TDB opens it, and it is open then, with nothing pending |
| StorageAnswers.CloseExactly | catalina/catalina-storage.c:1665-1693 | a close succeeds if and only if the storage is open, has no current and no live transaction and TDB closes it; it is closed exactly then |
| StorageAnswers.LetGoExactly | catalina/catalina-storage.c:1791-1806 | a set is let go of without an answer if and only if it names no transaction while one is current |
| StorageAnswers.SetChangesRecord | catalina/catalina-storage.c:1808-1850 | a set changes the records if and only if it completes with success, and only its own, to what the transform makes of its data |
| StorageAnswers.SetSucceedsExactly | catalina/catalina-storage.c:1806-1850 | a set that is neither refused nor made to wait succeeds if and only if the transform does not fail and TDB stores it |
| StorageAnswers.CancelExactly | catalina/catalina-storage.c:2019-2033 | a cancel takes its transaction with its sets and changes nothing else |
| StorageAnswers.DeferredExactly | catalina/catalina-storage.c:1940-1944 | a commit is deferred if and only if another transaction is current, to the end of the queue |
| StorageAnswers.FirstErrorIs | catalina/catalina-storage.c:2179-2226 | the error of a commit is that of its first failing set, from the transform or from TDB |
| StorageAnswers.TdbCommitErrorIs | catalina/catalina-storage.c:1971-1978 | if only the TDB commit fails, its error is that of the commit |
| StorageCommits.ReplayAll | catalina/catalina-storage.c:2208-2229 | a replay without error stores all writes in submission order and completes each once |
| StorageCommits.ReplayStops | catalina/catalina-storage.c:2208-2229 | any other replay stops at its first error, after successes only, and the rest never completes |
| StorageCommits.CommitAllOrNothing | catalina/catalina-storage.c:1958-1990 | commit succeeds exactly when every write and the TDB commit go through; then all writes are there, else the database is as before; the transaction is gone either way |
| StorageCommits.CommitSucceeds | catalina/catalina-storage.c:1967-1990 | a successful commit completes each of its sets exactly once, with success, and loses none |
| StorageCommits.CommitFails | catalina/catalina-storage.c:1967-1987 | a failed commit leaves the records alone and completes with an error |
| StorageCommits.FirstErrorReachesCommit | catalina/catalina-storage.c:2179-2190 | the first failing write's error is the commit's error; the writes before it completed, those after it never do |
| StorageCommits.DrainIsFifo | catalina/catalina-storage.c:1941-2002 | a commit and the deferred ones complete in arrival order; if the drain stops early, at a failing commit that becomes current, the rest stays queued in order |
| StorageRuns.NothingPendingWithoutTxn | catalina/catalina-storage.c:1940-2002 | at every message boundary of every run in which nobody commits the id 0: no current transaction implies an empty queue, and a closed storage holds nothing |
| StorageRuns.CloseLosesNothing | catalina/catalina-storage.c:1622-1682 | a close that succeeds loses no buffered set and no deferred commit, and the clean-up at open finds nothing |
| StorageRuns.ZeroCommitBreaks | catalina/catalina-storage.c:1940-2002 | for every id there is a run with commits of it and of 0 that leaves a deferred commit without a current transaction |
| StorageRuns.QueueHoldsExactly | catalina/catalina-storage.c:1940-2002 | the queue invariant holds in all runs over a set of committed ids exactly when 0 is not among them, or nothing else is |
| StorageTxns.IdsAreFresh | catalina/catalina-storage.c:1887-1915 | with fewer than 2^32 begins, through closes and reopens, the ids are 1, 2, 3, ...; live transactions are kept under them with their own sets only |
| StorageTxns.StepKeepsTable | catalina/catalina-storage.c:1791-1912 | every message keeps each table entry under its own id, at most the last one handed out, with sets that carry it |
| StorageTxns.IdleExactly | catalina/catalina-storage.c:1946-1965 | from an idle storage, exactly a commit of an unknown id or one that does not start leaves a current transaction behind |
| StorageTxns.CleanRunsStayIdle | catalina/catalina-storage.c:1940-2002 | with live ids and successful starts there is no current transaction between messages and nothing is ever deferred |
| StorageTxns.RunKeepsErrorCurrent | catalina/catalina-storage.c:2179-2190 | over every run, whatever ids are committed, only the current transaction can carry an error |
| StorageTxns.StuckExactly | catalina/catalina-storage.c:1958-1965 | over every run, the live transactions that carry an error are all along exactly the current one, if and only if no begin hands out the id of the current transaction |
| StorageTxns.KnownIdsAreNotBegun | catalina/catalina-storage.c:1902-1913 | clients that only commit ids they were handed never see that happen, with fewer than 2^32 begins |
| StorageTxns.FirstCommitDecides | catalina/catalina-storage.c:1940-1982 | a transaction with sets is gone or spoiled after its first commit that is not deferred, with whatever that commit drains |
| StorageTxns.FailedTxnNeverCommits | catalina/catalina-storage.c:2208-2226 | from then on, over any run with ids below 2^32, no commit of it succeeds |
| StorageTxns.StuckTxnCannotCommit | catalina/catalina-storage.c:2208-2226 | retrying the commit of a transaction that could not start, with any queue: if TDB starts, no record changes, the transaction is gone, success only if it is empty, and the queue is drained as if it had never been there; if not, nothing changes |
| StorageTxns.StuckTxnIsNotAtomic | catalina/catalina-storage.c:1791-1850 | any number of sets posted to it after the failed start stay in the records when it is cancelled and when its commit is retried, while the sets it had buffered are lost |
| StorageTxns.CancelWedges | catalina/catalina-storage.c:2024-2033 | with a live current transaction, of the messages other than commits exactly its cancel leaves a current transaction that does not exist |
| StorageTxns.WedgedExactly | catalina/catalina-storage.c:1946-1956 | from an idle storage, exactly a commit of an unknown id makes the current transaction one that does not exist |
| StorageTxns.WedgedExactlyWhile | catalina/catalina-storage.c:1907-1912 | over any run, a wedged storage is wedged all along if and only if the begins of the run do not reach the id of its current transaction |
| StorageTxns.WhileWedged | catalina/catalina-storage.c:1673-1680 | over any run whose begins do not reach that id: the storage cannot be closed, serves no other commit, keeps the queue, answers no plain set, and changes its records only through sets with that id |
| StorageTxns.WedgedStep | catalina/catalina-storage.c:1791-1806 | one message: exactly a begin that hands out the id ends it, and a plain set is let go of without a completion |
| StorageTxns.BeginEndsWedge | catalina/catalina-storage.c:1940-2002 | once a begin has handed out the id, its commit succeeds if both of its TDB calls do, the first deferred commit is served, and without deferred ones the storage is idle again |
| StorageErasure.CancelledTxnLeavesNoTrace | catalina/catalina-storage.c:2024-2033 | deleting the sets of a transaction that is cancelled before a commit of it is served, deferred commits of it allowed, changes neither the final state nor any other completion |
| StorageErasure.ErasureRun | catalina/catalina-storage.c:1791-1804 | while no commit of a transaction is served, its sets only show in its own buffer, whatever else runs, fails or is drained |
| StorageTasks.RunAccounts | catalina/catalina-storage.c:1801-1806 | over any run: posted is completed plus let go of plus still held, as multisets |
| StorageTasks.ExactlyOnePlace | catalina/catalina-storage.c:2154-2229 | a request posted once is completed once, or buffered in one transaction, or queued, or let go of, and never two of these |
| StorageTasks.CommitAccounts | catalina/catalina-storage.c:1980-2002 | a commit with its drain accounts for every request it takes from the table and the queue |
| StorageTasks.ReplayAccounts | catalina/catalina-storage.c:2208-2229 | a replay completes or lets go of each write once |
| Handshake.RunKeepsInv | catalina/catalina-storage.c:2084-2171 | mutex ownership, `success` and the positions of caller and worker fit together in every interleaving of any number of calls |
| Handshake.NoSignalIsLost | catalina/catalina-storage.c:2096-2164 | the signal is only sent while its caller is waiting, and wakes it |
| Handshake.ResultIsTheWorkers | catalina/catalina-storage.c:2144-2158 | a caller returns only after `success` is set, with the worker's value |
| Handshake.NoUseAfterFree | catalina/catalina-storage.c:2112-2164 | when the caller can free its StorageTask the worker has no access left |
| Handshake.MutexIsExclusive | catalina/catalina-storage.c:2096-2163 | caller and worker never hold the mutex together |
| Handshake.EveryServedCallProgresses | catalina/catalina-storage.c:2144-2164 | once a worker takes its task no call deadlocks, and every step brings it closer to its end; until then a waiting caller can do nothing |
| Handshake.SpuriousExactly | catalina/catalina-storage.c:2148-2151 | a spurious wakeup is harmless exactly when the worker already holds the mutex; otherwise the caller can return early and free what the worker still uses |
| SyncCalls.CallsReturnExactly | catalina/catalina-storage.c:2144-2190 | a synchronous call returns only if its handler completed its task, with the outcome of that completion; when nothing can happen any more exactly those calls have returned |
| SyncCalls.LostCallsHang | catalina/catalina-storage.c:1801-1806 | a call whose task the engine has let go of never returns, whatever is posted later |
| SyncCalls.HopelessNeverDone | catalina/catalina-storage.c:1907-2226 | in any run and any state: a set behind a noted error or behind a set that the transform rejects is never completed, nor is one whose id a wedged storage hands out again before it gets out |
| SyncCalls.StuckForGoodExactly | catalina/catalina-storage.c:1801-2229 | in an open storage with an empty queue, with a live, a missing or no current transaction: a posted task that is not completed can never be completed if and only if it was let go of or is such a set |
| Integers.BigEndianRoundTrip | catalina/catalina-binary-formatter.c:565-604 | big-endian encoding is inverted by big-endian reading |
| Integers.BigEndianDigits | catalina/catalina-binary-formatter.c:427-432 | byte i of the encoding is the digit of weight 256^(n-1-i) |
| Integers.SignedRoundTrip | catalina/catalina-binary-formatter.c:416-469 | two's complement is the value modulo 256^n and keeps every value of the width |
| Integers.HostIndependence | catalina/catalina-binary-formatter.c:427-466 | on either host the copied bytes are the big-endian encoding, and what is read is their big-endian value |
| Integers.CrossHostRoundTrip | catalina/catalina-binary-formatter.c:841-880 | an integer written on one host is read as the same integer on another, signed or unsigned |
| Values.SetPropertyAt | catalina/catalina-binary-formatter.c:1401 | with distinct names, setting a property by name replaces that property and no other |
| Values.SetPropertyElsewhere | catalina/catalina-binary-formatter.c:1401 | an undeclared name or a value of another type changes nothing |
| BinaryFormatProofs.RereadIs | catalina/catalina-binary-formatter.c:1241-1616 | what read_value makes of write_value, for every writable value at any depth, with names of any length, whatever follows in the buffer: an error, or the value with everything behind the first name that looks like the sentinel at its default |
| BinaryFormatProofs.RereadExactly | catalina/catalina-binary-formatter.c:1247-1401 | the value comes back, unwritable properties at their defaults, if and only if the names met by the reader fit, or one that looks like the sentinel hides defaults only |
| BinaryFormatProofs.RoundTrip | catalina/catalina-binary-formatter.c:1241-1616 | with names that fit, read_value of write_value gives back every writable value at any depth, whatever follows it in the buffer |
| BinaryFormatProofs.PropsReread | catalina/catalina-binary-formatter.c:1317-1406 | properties emitted last first and read first to last end up in their places, down to a name that does not fit |
| BinaryFormatProofs.ChunkRoundTrip | catalina/catalina-binary-formatter.c:1381-1406 | one chunk: its value is read and stored, or the reader gives up; the cursor is right behind it |
| BinaryFormatProofs.StringRoundTrip | catalina/catalina-binary-formatter.c:968-1043 | strings come back, NULL as NULL and empty as empty |
| BinaryFormatProofs.EncodeSucceeds | catalina/catalina-binary-formatter.c:1426-1470 | write_value reports success exactly for the values that have an encoding |
| BinaryFormatProofs.RestoredExactly | catalina/catalina-binary-formatter.c:1276-1305 | exactly the values none of whose properties is skipped with a value other than its default come back unchanged |
| BinaryFormatProofs.SerializeReads | catalina/catalina-binary-formatter.c:144-191 | the serialized buffer has at least two bytes; reading it is reading the written value, and fails when nothing was written |
| BinaryFormatProofs.SerializeRoundTrip | catalina/catalina-binary-formatter.c:144-191 | with names that fit, the value comes back exactly when it could be written |
| BinaryFormatProofs.LongNames | catalina/catalina-binary-formatter.c:1283-1323 | for every name that does not fit, whether the reader stops silently or runs over the name |
| BinaryFormatProofs.LongTypeNames | catalina/catalina-binary-formatter.c:1247-1381 | for every type name that does not fit, whether the reader finds no type or runs over the name |
| BinaryFormatProofs.EncodedBytes | catalina/catalina-binary-formatter-private.h:26-41 | the tag number, the width, and the bytes of booleans, strings and object headers, as another program has to find them |
| BinaryFormatProofs.ChunkSlices | catalina/catalina-binary-formatter.c:1317-1332 | the one-byte key length, the key with its NUL, the 32-bit value length and the value, in their places |
| BinaryFormatProofs.EncodePropsNext | catalina/catalina-binary-formatter.c:1299-1332 | the chunks are emitted last property first |
| BinaryFormatProofs.FixedWidthsChecked | catalina/catalina-binary-formatter.c:264-953 | of the fixed-width tags read_value accepts exactly the right length, and it refuses every byte that is no tag |
| BinaryFormatProofs.ShortsAreRead | catalina/catalina-binary-formatter.c:450-535 | shorts, which nothing writes, are read as integers of the same value |
| BinaryFormatProofs.StringsChecked | catalina/catalina-binary-formatter.c:1013-1043 | a string is accepted only with the length it names; one with a NUL inside leaves the value uninitialised |
| BinaryFormatProofs.UnknownTypeRefused | catalina/catalina-binary-formatter.c:1369-1375 | an object of an unregistered type is refused |
| BinaryFormatProofs.VersionChecked | catalina/catalina-binary-formatter.c:144-186 | version 1 and flags 0 are written, and every other version is refused |
| BinaryFormatProofs.WalkEndsOnSentinel | catalina/catalina-binary-formatter.c:1379-1408 | the cursor's walk over a written object ends on its last byte, the sentinel |
| BinaryFormatProofs.LengthIsIntrinsic | catalina/catalina-binary-formatter.c:1013-1043 | the length of an encoding can be read off its own bytes, whatever follows |
| BinaryFormatProofs.PrefixFree | catalina/catalina-binary-formatter.c:1426-1470 | no encoding is a proper prefix of another |
| BinaryFormatProofs.ConcatenationsParse | catalina/catalina-binary-formatter.c:1426-1616 | concatenated encodings parse in one way only |
| BinaryFormatter.WriteInteger | catalina/catalina-binary-formatter.c:415-435 | the fixed-width writers give the host-independent encoding |
| BinaryFormatter.WriteString | catalina/catalina-binary-formatter.c:968-997 | length, content and NUL of a string, none of them for NULL |
| BinaryFormatter.WriteNumber | catalina/catalina-binary-formatter.c:1058-1083 | a string encoding under another tag |
| BinaryFormatter.CollectChunks | catalina/catalina-binary-formatter.c:1264-1308 | the 32-bit total of the first pass is the header and the exact size of what the second pass copies, modulo 2^32; it stops only if what it collects is longer than that |
| BinaryFormatter.CopyChunks | catalina/catalina-binary-formatter.c:1310-1332 | the second pass fills all of the buffer but the zero sentinel |
| BinaryFormatter.CopyChunk | catalina/catalina-binary-formatter.c:1317-1332 | each chunk lands at the moving offset and nothing else changes |
| BinaryFormatter.WriteObject | catalina/catalina-binary-formatter.c:1241-1335 | the buffer of an object is its encoding, with the type name cut to the one-byte length; it overflows exactly when the encoding has 2^32 bytes or more |
| BinaryFormatter.WriteValue | catalina/catalina-binary-formatter.c:1426-1470 | the buffer of a value is its encoding, failure is reported exactly when there is none, and a buffer overflows exactly when it has 2^32 bytes or more |
| BinaryFormatter.RealSerialize | catalina/catalina-binary-formatter.c:144-166 | version, flags, and whatever write_value gave; it overflows exactly from 2^32 bytes on |
| BinaryFormatter.ReadInteger | catalina/catalina-binary-formatter.c:450-469 | the fixed-width readers check length and tag and give the big-endian value |
| BinaryFormatter.ReadContent | catalina/catalina-binary-formatter.c:1013-1043 | the string reader with its 32-bit length check |
| BinaryFormatter.ReadNumber | catalina/catalina-binary-formatter.c:1098-1137 | reads the text and leaves the buffer as it was but for its own tag in the first byte, on every exit |
| BinaryFormatter.ReadProps | catalina/catalina-binary-formatter.c:1379-1408 | the property loop decodes, terminates, and stops on the zero byte that the length walk predicts, wherever in the buffer that is |
| BinaryFormatter.ReadObject | catalina/catalina-binary-formatter.c:1350-1409 | the object reader decodes without looking at the length, and leaves the buffer unchanged |
| BinaryFormatter.ReadValue | catalina/catalina-binary-formatter.c:1488-1616 | the reader decodes any part of any buffer, also a malformed one, and leaves all of the buffer unchanged on every exit, at any depth |
| BinaryFormatter.RealDeserialize | catalina/catalina-binary-formatter.c:168-191 | version check, then the value, with the buffer unchanged |
| BinaryFormatter.Transfer | README:41-43 | a value serialized on one host is read on any other as on the same one, and is restored exactly if its names do no harm |
| ZlibTransform.CollectParts | catalina/catalina-zlib-transform.c:342-356 | the chunk loop terminates; every chunk but the last is full, and the sum is the 32-bit length of the stream |
| ZlibTransform.GatherParts | catalina/catalina-zlib-transform.c:370-385 | the chunks are put together to exactly as much of the stream as the length says, for every length, with the tail untouched |
| ZlibTransform.Gather | catalina/catalina-zlib-transform.c:342-385 | for a stream of any length: the buffer is the stream, cut to its 32-bit length, and the tail, unless the sum of both wraps |
| ZlibTransform.RealWrite | catalina/catalina-zlib-transform.c:283-399 | up to the watermark the input and a zero; above it the stream of the 32-bit part of the input, the big-endian length and a one; it fails if and only if the input is longer than the watermark and deflateInit fails, and succeeds if and only if it is plain, or deflateInit succeeds and there is room for the tail |
| ZlibTransform.WritesExactly | catalina/catalina-zlib-transform.c:310-368 | when the transform can write, for every input, and when it fails |
| ZlibTransform.WrittenLayout | catalina/catalina-zlib-transform.c:310-385 | the flag byte, the big-endian length and the stream, where the reader has to find them |
| ZlibTransform.RealRead | catalina/catalina-zlib-transform.c:222-281 | the last byte selects the branch; inflateInit is needed exactly by compressed input |
| ZlibTransform.ReadLength | catalina/catalina-zlib-transform.c:256-279 | what is read from any compressed buffer has the length that the buffer names and starts with what is in the stream |
| ZlibTransform.ReadsBackLow32 | catalina/catalina-zlib-transform.c:249-368 | what reading makes of what was written, for inputs of every length: all of a plain input, the 32-bit part of a compressed one whose stream fits, and an abort otherwise |
| ZlibTransform.RoundTripExactly | catalina/catalina-zlib-transform.c:249-368 | an input comes back if and only if it was not compressed, or both it and its stream with the tail are shorter than 2^32, for every watermark |
| StorageRecords.SetStores | catalina/catalina-storage.c:1808-1850 | a set that completes with success in its own step is stored in transformed form |
| StorageRecords.RunKeepsWaiting | catalina/catalina-storage.c:1791-2034 | over any run with fewer than 2^32 begins, a buffered set stays the last one on its key in its transaction until that is over |
| StorageRecords.DrainStores | catalina/catalina-storage.c:1940-2002 | a step in which a commit of the transaction succeeds, at once or out of the queue, before or after others, leaves its last set on each key in the records |
| EndToEnd.GetReturnsData | catalina/catalina-storage.c:1738-1757 | what a get returns for a stored buffer in every case, and exactly when this is the buffer: not the empty one through a transform, and of compressed ones those that fit 32 bits, if inflateInit succeeds |
| EndToEnd.SetSucceeds | catalina/catalina-storage.c:1806-1850 | a set on an open storage that is neither refused nor made to wait succeeds if and only if its data is plain, or deflateInit succeeds and the tail fits, and TDB stores it |
| EndToEnd.SetThenGet | catalina/catalina-storage.c:1078-1281 | in any run from the start: after a set_value that is stored and any messages that take no effect on the key, the completion of a posted get gives the value, for every well-formed value, watermark and TDB, with or without the transform, exactly if the names in the value do no harm, the stream fits 32 bits and inflateInit succeeds; what it gives otherwise is stated too |
| EndToEnd.CommitThenGet | catalina/catalina-storage.c:1078-2002 | the same for a set_value inside a transaction, from the commit of the transaction on, deferred or not, alone or within a drain |

## Left out

- TDB itself: records are a map, a started transaction has a snapshot, fetch and traverse do not fail; files, paths and open flags are not looked at, and every open finds the same records.
- The deflate and inflate algorithms (RFC 1951): a pair of functions, with each call of deflate emitting as many bytes as fit; a stream that was cut off does not inflate, and inflate refuses an output buffer of no bytes, which is NULL; an error from deflate on a stream that was initialised does not occur.
- Iris scheduling: exclusive messages are atomic and the others read between them.
- StorageTask results: a completion is an entry in the order of completions; callbacks, idle dispatch and the asynchronous wrappers' own results are not modelled, and the fields guarded by mutex and condition are modelled in `Handshake` as a state machine, not as a class.
- GObject instances: an object is its type name and one value for each declared property, with setters that store values of the declared type only; conversions between types, notification and reference counts are not modelled.
- Transaction ids of 2^32 and more: the counter never produces one, and the table compares 32 bits of an id.
- Number texts: a double or float is the text that printf gives for it; the precision lost there and range errors of strtod are not modelled.
- Reads outside a buffer, and a read of a property that fails, which calls g_error: all are the single outcome `Abort`.
- BinaryFormatter.WriteValue: requires single texts below 2^32 bytes, because the code keeps their sizes in 32-bit integers and cuts longer ones.
- BinaryFormatter.ReadValue: requires buffers below 2^32 bytes, for the same reason.
- StorageEngine.Storage.HandleOpen: drops a queue that is left over as it should be dropped, while the code frees its messages as if they were transactions (lines 1624-1626); by `NothingPendingWithoutTxn` this takes commits of the id 0.
- StorageEngine.Storage.HandleTxnBegin: replaces an entry when the counter wraps around to a live id, while the code frees the entry that holds the key which the table keeps (line 1910); by `IdsAreFresh` this takes 2^32 begins.
- SyncCalls.StuckForGoodExactly: says nothing about storages with deferred commits, where what can still be completed depends on the ids that all of them name.
- deflateInit and inflateInit: whether they succeed is a function of the data at hand, so the same data does not fail at one time and succeed at another.
- A transform that fails without setting an error: the model takes every failure to come with one; without it, a commit would go through without that write.
- Memory management, 32-bit `long`, cyclic object graphs, and changing the formatter or transform of an open storage.
- Vala bindings, examples, build files and plain accessors.
