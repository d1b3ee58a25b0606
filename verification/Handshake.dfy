/** Synchronous calls.  A caller creates a task with its mutex locked, posts it and waits
    on its condition; some worker completes it by setting `success`, locking, signalling
    and unlocking; the caller wakes up, reads the result and frees its StorageTask.  Any number
    of calls run at once, and every step of a caller or a worker can be interleaved with
    every step of the others. */
module Handshake {
  import opened Wrappers

  datatype CallerAt =
    | Preparing                   // storage_task_new has locked the mutex
    | Posted                      // the message is on its port, the mutex still locked
    | Waiting                     // inside g_cond_wait, the mutex released
    | Woken                       // inside g_cond_wait, waiting for the mutex
    | Returned(saw: Option<bool>) // back from g_cond_wait, with the mutex
    | Gone                        // storage_task_free has run

  datatype WorkerAt =
    | Idle
    | Decided                     // `success` is set
    | Locked
    | Signalled
    | Finished

  datatype Owner = Nobody | TheCaller | TheWorker

  /** One call: where its two threads are, who holds its mutex, and the `success` field. */
  datatype Call = Call(caller: CallerAt, worker: WorkerAt, owner: Owner, success: Option<bool>)

  const NEW_CALL := Call(Preparing, Idle, TheCaller, None)

  datatype Action =
    | Post | Wait | Reacquire | Free                    // of the caller
    | Decide(outcome: bool) | Lock | Signal | Unlock    // of the worker
    | Spurious                                          // the caller wakes up unasked

  predicate OfWorker(a: Action) {
    a.Decide? || a.Lock? || a.Signal? || a.Unlock?
  }

  predicate Enabled(c: Call, a: Action) {
    match a
    case Post => c.caller.Preparing?
    case Wait => c.caller.Posted?
    case Reacquire => c.caller.Woken? && c.owner.Nobody?
    case Free => c.caller.Returned?
    case Decide(_) => c.worker.Idle? && !c.caller.Preparing?
    case Lock => c.worker.Decided? && c.owner.Nobody?
    case Signal => c.worker.Locked?
    case Unlock => c.worker.Signalled?
    case Spurious => c.caller.Waiting?
  }

  /** A signal wakes a waiting caller and is lost on any other. */
  function Next(c: Call, a: Action): Call
    requires Enabled(c, a)
  {
    match a
    case Post => c.(caller := Posted)
    case Wait => c.(caller := Waiting, owner := Nobody)
    case Reacquire => c.(caller := Returned(c.success), owner := TheCaller)
    case Free => c.(caller := Gone, owner := Nobody)
    case Decide(outcome) => c.(success := Some(outcome), worker := Decided)
    case Lock => c.(worker := Locked, owner := TheWorker)
    case Signal => c.(worker := Signalled, caller := if c.caller.Waiting? then Woken else c.caller)
    case Unlock => c.(worker := Finished, owner := Nobody)
    case Spurious => c.(caller := Woken)
  }

  // ----- all calls together -----

  datatype Event = Event(call: nat, action: Action)

  type System = map<nat, Call>

  /** A call that has not been mentioned yet is about to start. */
  function At(s: System, i: nat): Call {
    if i in s then s[i] else NEW_CALL
  }

  predicate CanHappen(s: System, e: Event) {
    Enabled(At(s, e.call), e.action)
  }

  function Happens(s: System, e: Event): System
    requires CanHappen(s, e)
  {
    s[e.call := Next(At(s, e.call), e.action)]
  }

  /** Runs without spurious wakeups. */
  predicate IsRun(s: System, es: seq<Event>)
    decreases |es|
  {
    es == [] || (!es[0].action.Spurious? && CanHappen(s, es[0]) && IsRun(Happens(s, es[0]), es[1..]))
  }

  function After(s: System, es: seq<Event>): System
    requires IsRun(s, es)
    decreases |es|
  {
    if es == [] then s else After(Happens(s, es[0]), es[1..])
  }

  // ----- the invariant -----

  predicate Inv(c: Call) {
    && (c.owner.TheCaller? <==> c.caller.Preparing? || c.caller.Posted? || c.caller.Returned?)
    && (c.owner.TheWorker? <==> c.worker.Locked? || c.worker.Signalled?)
    && (c.caller.Preparing? ==> c.worker.Idle?)
    && (c.success.Some? <==> !c.worker.Idle?)
    && (c.caller.Posted? ==> c.worker.Idle? || c.worker.Decided?)
    && (c.caller.Waiting? ==> c.worker.Idle? || c.worker.Decided? || c.worker.Locked?)
    && (c.caller.Woken? ==> c.worker.Signalled? || c.worker.Finished?)
    && (c.caller.Returned? ==> c.worker.Finished? && c.caller.saw == c.success)
    && (c.caller.Gone? ==> c.worker.Finished?)
    && (c.worker.Locked? ==> c.caller.Waiting?)
    && (c.worker.Signalled? ==> c.caller.Woken?)
  }

  predicate AllInv(s: System) {
    forall i :: i in s ==> Inv(s[i])
  }

  lemma StepKeepsInv(c: Call, a: Action)
    requires Inv(c) && Enabled(c, a) && !a.Spurious?
    ensures Inv(Next(c, a))
  {}

  lemma {:induction false} RunKeepsInv(s: System, es: seq<Event>)
    requires AllInv(s) && IsRun(s, es)
    ensures AllInv(After(s, es))
    decreases |es|
  {
    hide Inv, Enabled, Next;
    if es != [] {
      NewCallInv();
      StepKeepsInv(At(s, es[0].call), es[0].action);
      RunKeepsInv(Happens(s, es[0]), es[1..]);
    }
  }

  lemma NewCallInv()
    ensures Inv(NEW_CALL)
  {}

  /** The state of any call in any run from nothing. */
  lemma Reachable(es: seq<Event>, i: nat)
    requires IsRun(map[], es)
    ensures Inv(At(After(map[], es), i))
  {
    NewCallInv();
    RunKeepsInv(map[], es);
  }

  // ----- the guarantees -----

  /** Whatever the other calls do, when a worker signals, its caller is waiting. */
  lemma NoSignalIsLost(es: seq<Event>, i: nat)
    requires IsRun(map[], es)
    ensures var c := At(After(map[], es), i);
      Enabled(c, Signal) ==> c.caller.Waiting? && Next(c, Signal).caller.Woken?
  {
    Reachable(es, i);
  }

  /** A caller only returns after `success` has been set, with the value the worker set. */
  lemma ResultIsTheWorkers(es: seq<Event>, i: nat)
    requires IsRun(map[], es)
    ensures var c := At(After(map[], es), i);
      c.caller.Returned? ==> c.caller.saw.Some? && c.caller.saw == c.success
  {
    Reachable(es, i);
  }

  /** Once a StorageTask is freed, and already when the caller is about to free it, its worker
      has nothing left to do with it. */
  lemma NoUseAfterFree(es: seq<Event>, i: nat, a: Action)
    requires IsRun(map[], es) && OfWorker(a)
    ensures var c := At(After(map[], es), i);
      (c.caller.Gone? || Enabled(c, Free)) ==> !Enabled(c, a)
  {
    Reachable(es, i);
  }

  /** Two threads never hold the mutex of a call: each lock is taken from nobody. */
  lemma MutexIsExclusive(es: seq<Event>, i: nat)
    requires IsRun(map[], es)
    ensures var c := At(After(map[], es), i);
      !((c.caller.Preparing? || c.caller.Posted? || c.caller.Returned?) && (c.worker.Locked? || c.worker.Signalled?))
  {
    Reachable(es, i);
  }

  /** How many steps a call still takes. */
  function StepsLeft(c: Call): nat {
    (match c.caller
     case Preparing => 5
     case Posted => 4
     case Waiting => 3
     case Woken => 2
     case Returned(_) => 1
     case Gone => 0)
    + (match c.worker
       case Idle => 4
       case Decided => 3
       case Locked => 2
       case Signalled => 1
       case Finished => 0)
  }

  /** A step that is possible as long as the caller is not gone and, once it waits, a
      worker has taken its task. */
  function SomeStep(c: Call): Action {
    if c.caller.Preparing? then Post
    else if c.caller.Posted? then Wait
    else if c.worker.Decided? then Lock
    else if c.worker.Locked? then Signal
    else if c.worker.Signalled? then Unlock
    else if c.caller.Woken? then Reacquire
    else Free
  }

  /** The caller waits, and no worker has begun to complete its task. */
  predicate Unserved(c: Call) {
    c.caller.Waiting? && c.worker.Idle?
  }

  /** A call whose task a worker completes does not deadlock: whatever is interleaved, it takes
      at most nine steps, and the only state in which it needs the worker to begin is
      that of an unserved caller, which then can do nothing at all by itself. */
  lemma EveryServedCallProgresses(es: seq<Event>, i: nat, a: Action)
    requires IsRun(map[], es)
    ensures var c := At(After(map[], es), i);
      && (!c.caller.Gone? && !Unserved(c) ==>
            Enabled(c, SomeStep(c)) && !SomeStep(c).Spurious? && !SomeStep(c).Decide?)
      && (Unserved(c) && Enabled(c, a) ==> a.Decide? || a.Spurious?)
      && (Enabled(c, a) && !a.Spurious? ==> StepsLeft(Next(c, a)) < StepsLeft(c) <= 9)
  {
    Reachable(es, i);
  }

  /** g_cond_wait is not called in a loop.  A caller that wakes up unasked is safe exactly
      when its worker already holds the mutex; otherwise it can return at once, without a
      result if there is none yet, and free the StorageTask that its worker has yet to touch. */
  lemma SpuriousExactly(es: seq<Event>, i: nat, outcome: bool)
    requires IsRun(map[], es) && At(After(map[], es), i).caller.Waiting?
    ensures var c := At(After(map[], es), i);
      var early := Next(c, Spurious);
      && (c.worker.Locked? <==> !Enabled(early, Reacquire))
      && (c.worker.Locked? ==> Inv(Next(early, Signal)))
      && (!c.worker.Locked? ==>
            var back := Next(early, Reacquire);
            && back.caller == Returned(c.success) && (c.worker.Idle? ==> c.success == None)
            && Next(back, Free).caller.Gone?
            && Enabled(Next(back, Free), if c.worker.Idle? then Decide(outcome) else Lock))
  {
    Reachable(es, i);
  }
}
