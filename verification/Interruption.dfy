/**
Interrupting a batch: AcquireTxn and UnlockTxn on the JavaScript thread against WaitForCallbacks on the write
worker. Both threads may wake up from the condition variable at any time, signalled or not. LMDB admits one
write transaction at a time; the worker's transactions are numbered.
*/
module Interruption {
  import opened Bytes
  import W = WriteProtocol

  datatype Status = Zero | AllowCommit | InterruptBatch | RestartWorkerTxn | UserHasLock

  /** The write worker; it holds the writing lock except where it sleeps or is not running. */
  datatype Worker =
    | Stopped
    | Executing
    | Sleeping(allowCommit: bool, target: bool)  // in WaitForCallbacks, on a target slot or once
    | Woken(allowCommit: bool, target: bool)
    | Deciding                                   // left the wait; about to look at interruptionStatus
    | SleepingAgain                              // has committed; waits for the synchronous transaction
    | Restarting

  /** The JavaScript thread; it holds the writing lock where it says so. */
  datatype User =
    | Outside
    | Interrupting      // sleeps in AcquireTxn, having set INTERRUPT_BATCH
    | Starting          // holds the lock; about to begin a transaction of its own
    | Inside(own: bool) // holds the lock; in its own or in the worker's transaction

  /**
  `txn` is the worker's open transaction, `next` the number of the next; `log` the executed slots with their
  transaction.
  */
  datatype State = State(
    worker: Worker, user: User, status: Status, at: nat, depth: int,
    txn: Option<nat>, next: nat, log: seq<(nat, Option<nat>)>)

  const INITIAL := State(Stopped, Outside, Zero, 0, 0, None, 0, [])

  predicate WorkerHolds(s: State) {
    s.worker.Executing? || s.worker.Woken? || s.worker.Deciding? || s.worker.Restarting?
  }

  predicate UserHolds(s: State) { s.user.Starting? || s.user.Inside? }

  predicate LockFree(s: State) { !WorkerHolds(s) && !UserHolds(s) }

  datatype Step =
    | Start                  // a new worker begins a transaction
    | Execute                // the worker executes the next instruction
    | Finish                 // it sets the delimiter, commits and ends
    | CallWait(target: bool) // enters WaitForCallbacks
    | Wake                   // the worker's wait returns
    | Leave(ready: bool)     // it tests the loop condition; `ready`: the target is published or callbacks are finished
    | Decide
    | WakeAgain
    | Restart                // it begins its next transaction
    | Acquire(sync: bool)    // AcquireTxn
    | UserWake
    | Begin                  // the user begins a transaction
    | Unlock                 // commits its own transaction, and UnlockTxn

  predicate Enabled(s: State, step: Step) {
    match step
    case Start => s.worker.Stopped? && LockFree(s)
    case Execute => s.worker.Executing?
    case Finish => s.worker.Executing? && s.depth == 0
    case CallWait(_) => s.worker.Executing?
    case Wake => s.worker.Sleeping? && LockFree(s)
    case Leave(_) => s.worker.Woken?
    case Decide => s.worker.Deciding?
    case WakeAgain => s.worker.SleepingAgain? && LockFree(s)
    case Restart => s.worker.Restarting? && s.user != Inside(true)
    case Acquire(_) => s.user.Outside? && LockFree(s)
    case UserWake => s.user.Interrupting? && LockFree(s)
    case Begin => s.user.Starting? && s.txn.None?
    case Unlock => s.user.Inside?
  }

  function Apply(stream: W.Stream, s: State, step: Step): State
    requires Enabled(s, step)
  {
    match step
    case Start => s.(worker := Executing, status := Zero, depth := 0, txn := Some(s.next), next := s.next + 1)
    case Execute => s.(log := s.log + [(s.at, s.txn)], at := s.at + 1, depth := s.depth + W.Nesting(stream(s.at)))
    case Finish => s.(worker := Stopped, txn := None)
    case CallWait(target) =>
      s.(worker := Sleeping(s.depth == 0, target), status := if s.depth == 0 then AllowCommit else Zero)
    case Wake => s.(worker := Woken(s.worker.allowCommit, s.worker.target))
    case Leave(ready) =>
      var out := !s.worker.target || ready || (s.worker.allowCommit && s.status.InterruptBatch?);
      s.(worker := if out then Deciding else Sleeping(s.worker.allowCommit, s.worker.target))
    case Decide =>
      if s.status.InterruptBatch? then s.(status := RestartWorkerTxn, txn := None, worker := SleepingAgain)
      else s.(status := Zero, worker := Executing)
    case WakeAgain => s.(worker := Restarting)
    case Restart => s.(txn := Some(s.next), next := s.next + 1, status := Zero, worker := Executing)
    case Acquire(sync) =>
      if sync && s.status.AllowCommit? then s.(status := InterruptBatch, user := Interrupting)
      else s.(status := UserHasLock, user := if s.txn.Some? then Inside(false) else Starting)
    case UserWake => s.(user := Starting)
    case Begin => s.(user := Inside(true))
    case Unlock => s.(status := Zero, user := Outside)
  }

  function Run(stream: W.Stream, s: State, steps: seq<Step>): Option<State>
    decreases |steps|
  {
    if steps == [] then Some(s)
    else if Enabled(s, steps[0]) then Run(stream, Apply(stream, s, steps[0]), steps[1..])
    else None
  }

  // ---------------------------------------------------------------- invariant

  /** A wait that a synchronous transaction may interrupt, outside every block. */
  predicate MayCommit(s: State) {
    match s.worker
    case Sleeping(allow, _) => allow
    case Woken(allow, _) => allow
    case Deciding => s.depth == 0
    case _ => false
  }

  /** Who may be where: an interruption is only ever pending in such a wait, and the lock has one holder. */
  predicate Places(s: State) {
    && (s.status.AllowCommit? || s.status.InterruptBatch? ==> MayCommit(s))
    && (s.worker.Sleeping? && s.worker.allowCommit ==> s.depth == 0)
    && (s.worker.Woken? && s.worker.allowCommit ==> s.depth == 0)
    && (s.worker.SleepingAgain? || s.worker.Restarting? || s.worker.Stopped? ==> s.depth == 0 && s.txn.None?)
    && (s.worker.Executing? || s.worker.Sleeping? || s.worker.Woken? || s.worker.Deciding? ==> s.txn.Some?)
    && !(WorkerHolds(s) && UserHolds(s))
    && (s.user == Inside(true) ==> s.txn.None?)
  }

  /** Slots inside a block share the transaction of the slot in front of them. */
  ghost predicate Unsplit(stream: W.Stream, s: State) {
    && s.depth == W.Depth(stream, s.at) && |s.log| == s.at
    && (forall i :: 0 <= i < |s.log| ==> s.log[i].0 == i && s.log[i].1.Some?)
    && (forall i :: 0 < i < |s.log| && W.Depth(stream, i) > 0 ==> s.log[i].1 == s.log[i - 1].1)
    && (s.depth > 0 ==> s.at > 0 && s.txn == s.log[s.at - 1].1)
  }

  lemma PlacesKept(stream: W.Stream, s: State, step: Step)
    requires Places(s) && Enabled(s, step)
    ensures Places(Apply(stream, s, step))
  {
  }

  lemma UnsplitKept(stream: W.Stream, s: State, step: Step)
    requires Places(s) && Unsplit(stream, s) && Enabled(s, step)
    ensures Unsplit(stream, Apply(stream, s, step))
  {
  }

  lemma {:induction false} RunKeeps(stream: W.Stream, s: State, steps: seq<Step>)
    requires Places(s) && Unsplit(stream, s)
    ensures Run(stream, s, steps).Some? ==>
      var t := Run(stream, s, steps).value; Places(t) && Unsplit(stream, t)
    decreases |steps|
  {
    hide Apply, Enabled, Places, Unsplit;
    if steps != [] && Enabled(s, steps[0]) {
      PlacesKept(stream, s, steps[0]);
      UnsplitKept(stream, s, steps[0]);
      RunKeeps(stream, Apply(stream, s, steps[0]), steps[1..]);
    }
  }

  /** The worker commits in the middle of its run only outside every block, whatever the other thread does. */
  lemma CommitsOutsideBlocks(stream: W.Stream, steps: seq<Step>, step: Step)
    requires Run(stream, INITIAL, steps).Some?
    requires var s := Run(stream, INITIAL, steps).value;
      Enabled(s, step) && s.txn.Some? && Apply(stream, s, step).txn != s.txn
    ensures var s := Run(stream, INITIAL, steps).value;
      s.depth == 0 && W.Depth(stream, s.at) == 0 && (step.Decide? || step.Finish?)
  {
    hide Run;
    Initially(stream);
    RunKeeps(stream, INITIAL, steps);
  }

  /** Slots `from` to `to` lie in one block: it opens at `from` and is still open at every later slot up to `to`. */
  ghost predicate OneBlock(stream: W.Stream, from: nat, to: nat) {
    from <= to && forall k :: from < k <= to ==> W.Depth(stream, k) > 0
  }

  lemma {:induction false} BlockShares(stream: W.Stream, s: State, from: nat, to: nat)
    requires Unsplit(stream, s) && to < |s.log| && OneBlock(stream, from, to)
    ensures s.log[from].1 == s.log[to].1
  {
    if to > from {
      BlockShares(stream, s, from, to - 1);
    }
  }

  /** In every run all instructions of a condition block or batch are executed in one LMDB transaction. */
  lemma BlockInOneTransaction(stream: W.Stream, steps: seq<Step>, from: nat, to: nat)
    requires Run(stream, INITIAL, steps).Some?
    requires to < |Run(stream, INITIAL, steps).value.log| && OneBlock(stream, from, to)
    ensures var log := Run(stream, INITIAL, steps).value.log;
      log[from].0 == from && log[to].0 == to && log[from].1 == log[to].1 && log[to].1.Some?
  {
    hide Run, W.Depth;
    assert Places(INITIAL) && Unsplit(stream, INITIAL) by { Initially(stream); }
    RunKeeps(stream, INITIAL, steps);
    BlockShares(stream, Run(stream, INITIAL, steps).value, from, to);
  }

  lemma Initially(stream: W.Stream)
    ensures Places(INITIAL) && Unsplit(stream, INITIAL)
  {
  }

  // ---------------------------------------------------------------- the synchronous transaction

  lemma Reached(stream: W.Stream, steps: seq<Step>)
    requires Run(stream, INITIAL, steps).Some?
    ensures Places(Run(stream, INITIAL, steps).value)
  {
    hide Run, Places, Unsplit;
    Initially(stream);
    RunKeeps(stream, INITIAL, steps);
  }

  /** No thread can take a step. */
  ghost predicate Deadlock(s: State) { forall step :: !Enabled(s, step) }

  /** The user's wait has returned while the worker, asleep, still has its transaction open. */
  predicate WokenTooSoon(s: State) { s.user.Starting? && s.worker.Sleeping? }

  /** A step that is possible in every state but that one. */
  function Possible(s: State): Step {
    match s.worker
    case Executing => Execute
    case Woken(_, _) => Leave(true)
    case Deciding => Decide
    case Restarting => Restart
    case _ =>
      if s.user.Inside? then Unlock else if s.user.Starting? then Begin
      else if s.worker.Sleeping? then Wake else if s.worker.Stopped? then Start else WakeAgain
  }

  /**
  In every reachable state some thread can take a step, unless the user's wait has returned too soon: then none can.
  */
  lemma DeadlockIff(stream: W.Stream, steps: seq<Step>)
    requires Run(stream, INITIAL, steps).Some?
    ensures var s := Run(stream, INITIAL, steps).value;
      Deadlock(s) <==> WokenTooSoon(s)
  {
    hide Run;
    Reached(stream, steps);
    var s := Run(stream, INITIAL, steps).value;
    if !WokenTooSoon(s) {
      assert Enabled(s, Possible(s));
    }
  }

  /**
  A synchronous transaction that has interrupted a batch can begin if and only if the user's wait returns after the
  worker has committed, and before it sleeps in a transaction again; otherwise both threads hang.
  */
  lemma BeginsIff(stream: W.Stream, steps: seq<Step>)
    requires Run(stream, INITIAL, steps).Some? && Enabled(Run(stream, INITIAL, steps).value, UserWake)
    ensures var s := Run(stream, INITIAL, steps).value;
      var t := Apply(stream, s, UserWake);
      && (Enabled(t, Begin) <==> s.worker.SleepingAgain? || s.worker.Stopped?)
      && (Enabled(t, Begin) <==> !Deadlock(t))
      && (Enabled(t, Begin) ==> s.depth == 0 && s.txn.None?)
  {
    hide Run;
    Reached(stream, steps);
    var s := Run(stream, INITIAL, steps).value;
    assert s.worker.Sleeping? || Enabled(Apply(stream, s, UserWake), Begin);
  }

  /** Both can happen: behind the interruption the user's wait may return first, and then no thread can go on ... */
  lemma CanHang(stream: W.Stream) returns (steps: seq<Step>)
    ensures Run(stream, INITIAL, steps).Some? && Deadlock(Run(stream, INITIAL, steps).value)
  {
    hide W.Nesting;
    steps := [Start, CallWait(true), Acquire(true), UserWake];
    assert steps[1..] == [CallWait(true), Acquire(true), UserWake];
    assert steps[1..][1..] == [Acquire(true), UserWake];
    assert [Acquire(true), UserWake][1..] == [UserWake] && [UserWake][1..] == [];
    var s := INITIAL.(worker := Sleeping(true, true), status := InterruptBatch, txn := Some(0), next := 1);
    assert Run(stream, s.(user := Interrupting), [UserWake]) == Some(s.(user := Starting));
    assert Run(stream, s.(status := AllowCommit), [Acquire(true), UserWake]) == Some(s.(user := Starting));
    assert Run(stream, Apply(stream, INITIAL, Start), steps[1..]) == Some(s.(user := Starting));
  }

  /** What the worker does to serve an interruption. */
  function Serving(w: Worker): seq<Step> {
    match w
    case Sleeping(_, _) => [Wake, Leave(true), Decide]
    case Woken(_, _) => [Leave(true), Decide]
    case _ => [Decide]
  }

  /** The worker, left alone, serves the interruption by committing. */
  lemma {:induction false} Serves(stream: W.Stream, s: State)
    requires Places(s) && s.status.InterruptBatch? && s.user.Interrupting?
    ensures Run(stream, s, Serving(s.worker)) ==
      Some(s.(worker := SleepingAgain, status := RestartWorkerTxn, txn := None))
    decreases match s.worker case Sleeping(_, _) => 2 case Woken(_, _) => 1 case _ => 0
  {
    assert Enabled(s, Serving(s.worker)[0]);
    if s.worker.Sleeping? {
      assert Serving(s.worker)[1..] == [Leave(true), Decide];
      Serves(stream, Apply(stream, s, Wake));
    } else if s.worker.Woken? {
      assert Serving(s.worker)[1..] == [Decide];
      Serves(stream, Apply(stream, s, Leave(true)));
    } else {
      assert Serving(s.worker)[1..] == [];
    }
  }

  /**
  ... but as long as the interruption is pending, the threads can serve it: the user gets into its own transaction.
  */
  lemma CanBegin(stream: W.Stream, steps: seq<Step>) returns (more: seq<Step>)
    requires Run(stream, INITIAL, steps).Some?
    requires var s := Run(stream, INITIAL, steps).value;
      s.user.Interrupting? && s.status.InterruptBatch?
    ensures var s := Run(stream, INITIAL, steps).value;
      var t := Run(stream, s, more);
      t.Some? && t.value.user == Inside(true) && t.value.txn.None? && t.value.log == s.log
  {
    hide Run, Serving;
    Reached(stream, steps);
    var s := Run(stream, INITIAL, steps).value;
    Serves(stream, s);
    var served := s.(worker := SleepingAgain, status := RestartWorkerTxn, txn := None);
    UserBegins(stream, served);
    RunAppend(stream, s, Serving(s.worker), [UserWake, Begin]);
    more := Serving(s.worker) + [UserWake, Begin];
  }

  lemma UserBegins(stream: W.Stream, s: State)
    requires s.user.Interrupting? && s.worker.SleepingAgain? && s.txn.None?
    ensures Run(stream, s, [UserWake, Begin]) == Some(s.(user := Inside(true)))
  {
    assert [UserWake, Begin][1..] == [Begin] && [Begin][1..] == [];
    assert Run(stream, s.(user := Starting), [Begin]) == Some(s.(user := Inside(true)));
  }

  lemma {:induction false} RunAppend(stream: W.Stream, s: State, a: seq<Step>, b: seq<Step>)
    requires Run(stream, s, a).Some?
    ensures Run(stream, s, a + b) == Run(stream, Run(stream, s, a).value, b)
    decreases |a|
  {
    hide Apply, Enabled;
    if a == [] {
      assert a + b == b;
    } else {
      assert (a + b)[0] == a[0] && (a + b)[1..] == a[1..] + b;
      RunAppend(stream, Apply(stream, s, a[0]), a[1..], b);
    }
  }
}
