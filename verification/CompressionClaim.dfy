/**
Which thread compresses a value: the claim word (compressor address, 1, 2 or 0) that a compression worker and
the writer exchange, and the wait of the writer for a worker that was faster. Every step is one atomic
operation, one plain access, or one operation on the writing lock and its condition variable.
*/
module CompressionClaim {
  import opened Bytes

  datatype Claim = Compressor | Writer1 | Worker2 | Done0

  datatype Worker =
    | Queued        // not started
    | Compressing   // took the compressor address
    | Placed        // pointer and size of the compressed data stored; about to exchange the claim with 0
    | Locking       // read 1: has to signal the writer
    | Signalling    // holds the lock
    | Unlocking     // has signalled
    | Finished

  /**
  One compressible value: its claim word, whether its pointer is to compressed data, its worker, and how often it was
  compressed.
  */
  datatype Value = Value(claim: Claim, compressed: bool, worker: Worker, times: nat)

  const FRESH := Value(Compressor, false, Queued, 0)

  datatype Writer =
    | Elsewhere     // in WaitForCallbacks, without the lock
    | Checking      // about to look at the value pointer
    | Exchanging    // saw an uncompressed pointer; about to exchange the claim with 1
    | Waiting       // about to wait, with the lock
    | Sleeping(signalled: bool) // in pthread_cond_wait, without the lock
    | Rechecking    // woken, with the lock; about to look at the pointer again
    | Own           // took the compressor address itself
    | OwnPlaced     // stored its result; about to exchange the claim with 0
    | Reading       // about to use the pointer

  /**
  `at` is the value the writer is at; values before it have been written. `locker` is a worker that holds the lock.
  */
  datatype State = State(values: map<nat, Value>, at: nat, writer: Writer, locker: Option<nat>)

  function At(values: map<nat, Value>, v: nat): Value { if v in values then values[v] else FRESH }

  function Put(values: map<nat, Value>, v: nat, value: Value): (r: map<nat, Value>)
    ensures forall u: nat :: At(r, u) == if u == v then value else At(values, u)
  {
    values[v := value]
  }

  const INITIAL := State(map[], 0, Checking, None)

  datatype Step =
    | Leave | Return | Check | Exchange | Wait | Wake | Recheck | CompressOwn | ReleaseOwn | Use
    | Take(v: nat) | Compress(v: nat) | Release(v: nat) | Lock(v: nat) | Signal(v: nat) | Unlock(v: nat)

  predicate LockFree(s: State) { (s.writer.Elsewhere? || s.writer.Sleeping?) && s.locker.None? }

  predicate Enabled(s: State, step: Step) {
    match step
    case Leave => s.writer.Checking?
    case Return => s.writer.Elsewhere? && LockFree(s)
    case Check => s.writer.Checking?
    case Exchange => s.writer.Exchanging?
    case Wait => s.writer.Waiting?
    case Wake => s.writer.Sleeping? && LockFree(s)   // signalled or spuriously
    case Recheck => s.writer.Rechecking?
    case CompressOwn => s.writer.Own?
    case ReleaseOwn => s.writer.OwnPlaced?
    case Use => s.writer.Reading?
    case Take(v) => At(s.values, v).worker.Queued?
    case Compress(v) => At(s.values, v).worker.Compressing?
    case Release(v) => At(s.values, v).worker.Placed?
    case Lock(v) => At(s.values, v).worker.Locking? && LockFree(s)
    case Signal(v) => At(s.values, v).worker.Signalling?
    case Unlock(v) => At(s.values, v).worker.Unlocking?
  }

  function Work(s: State, v: nat, value: Value): State { s.(values := Put(s.values, v, value)) }

  /** `able(v)`: compressing value v produces a result. */
  function Apply(able: nat -> bool, s: State, step: Step): State
    requires Enabled(s, step)
  {
    var here := At(s.values, s.at);
    match step
    case Leave => s.(writer := Elsewhere)
    case Return => s.(writer := Checking)
    case Check => s.(writer := if here.compressed then Reading else Exchanging)
    case Exchange =>
      Work(s, s.at, here.(claim := Writer1))
      .(writer := match here.claim case Worker2 => Waiting case Compressor => Own case _ => Reading)
    case Wait => s.(writer := Sleeping(false))
    case Wake => s.(writer := Rechecking)
    case Recheck => s.(writer := if here.compressed then Reading else Waiting)
    case CompressOwn =>
      if able(s.at) then Work(s, s.at, here.(compressed := true, times := here.times + 1)).(writer := OwnPlaced)
      else s.(writer := Reading)
    case ReleaseOwn => Work(s, s.at, here.(claim := Done0)).(writer := Reading)
    case Use => s.(at := s.at + 1, writer := Checking)
    case Take(v) =>
      var value := At(s.values, v);
      Work(s, v, value.(claim := Worker2, worker := if value.claim.Compressor? then Compressing else Finished))
    case Compress(v) =>
      var value := At(s.values, v);
      if able(v) then Work(s, v, value.(compressed := true, times := value.times + 1, worker := Placed))
      else Work(s, v, value.(worker := Finished))
    case Release(v) =>
      var value := At(s.values, v);
      Work(s, v, value.(claim := Done0, worker := if value.claim.Writer1? then Locking else Finished))
    case Lock(v) => Work(s, v, At(s.values, v).(worker := Signalling)).(locker := Some(v))
    case Signal(v) =>
      Work(s, v, At(s.values, v).(worker := Unlocking))
      .(writer := if s.writer.Sleeping? then Sleeping(true) else s.writer)
    case Unlock(v) => Work(s, v, At(s.values, v).(worker := Finished)).(locker := None)
  }

  function Run(able: nat -> bool, s: State, steps: seq<Step>): Option<State>
    decreases |steps|
  {
    if steps == [] then Some(s)
    else if Enabled(s, steps[0]) then Run(able, Apply(able, s, steps[0]), steps[1..])
    else None
  }

  // ---------------------------------------------------------------- invariant

  /** A value the writer has not claimed: only the worker can have moved. `ok`: compressing it produces a result. */
  predicate Unclaimed(ok: bool, v: Value) {
    match v.worker
    case Queued => v == FRESH
    case Compressing => v.claim.Worker2? && !v.compressed && v.times == 0
    case Placed => ok && v.claim.Worker2? && v.compressed && v.times == 1
    case Finished =>
      v.compressed == ok && v.times == (if ok then 1 else 0) && v.claim == (if ok then Done0 else Worker2)
    case _ => false
  }

  /** A value whose worker claimed first while the writer wants it: its worker is still to signal, has, or gave up. */
  predicate Awaited(ok: bool, v: Value) {
    match v.worker
    case Queued => false
    case Compressing => v.claim.Writer1? && !v.compressed && v.times == 0
    case Placed => ok && v.claim.Writer1? && v.compressed && v.times == 1
    case Finished =>
      v.compressed == ok && v.times == (if ok then 1 else 0) && v.claim == (if ok then Done0 else Writer1)
    case _ => ok && v.claim.Done0? && v.compressed && v.times == 1
  }

  /** The worker has yet to send its signal. */
  predicate Pending(w: Worker) { w.Compressing? || w.Placed? || w.Locking? || w.Signalling? }

  /** A value that will not be compressed any more: its compressed form is in place, unless there is none. */
  predicate Settled(ok: bool, v: Value) {
    && v.compressed == ok && v.times == (if ok then 1 else 0) && !v.worker.Compressing?
    && (v.worker.Queued? ==> !v.claim.Compressor?) && (!ok ==> v.worker.Queued? || v.worker.Finished?)
  }

  /** Claimed by the writer: whatever the worker has written over the claim since, it does not compress. */
  predicate Claimed(v: Value) { (v.worker.Queued? && v.claim.Writer1?) || (v.worker.Finished? && v.claim.Worker2?) }

  predicate Here(ok: bool, w: Writer, v: Value) {
    match w
    case Elsewhere => Unclaimed(ok, v)
    case Checking => Unclaimed(ok, v)
    case Exchanging => Unclaimed(ok, v)
    case Waiting => Awaited(ok, v) && (ok ==> v.worker.Compressing? || v.worker.Placed? || v.worker.Locking?)
    case Sleeping(signalled) => Awaited(ok, v) && (ok && !signalled ==> Pending(v.worker))
    case Rechecking => Awaited(ok, v)
    case Own => !v.compressed && v.times == 0 && Claimed(v)
    case OwnPlaced => ok && v.compressed && v.times == 1 && Claimed(v)
    case Reading => Settled(ok, v)
  }

  ghost predicate LockHeld(s: State) {
    && (forall v: nat ::
          (At(s.values, v).worker.Signalling? || At(s.values, v).worker.Unlocking?) <==> s.locker == Some(v))
    && (s.locker.Some? ==> s.writer.Elsewhere? || s.writer.Sleeping?)
  }

  ghost predicate Inv(able: nat -> bool, s: State) {
    && (forall v: nat :: v < s.at ==> Settled(able(v), At(s.values, v)))
    && Here(able(s.at), s.writer, At(s.values, s.at))
    && (forall v: nat :: v > s.at ==> Unclaimed(able(v), At(s.values, v)))
    && LockHeld(s)
  }

  predicate OfWorker(step: Step) {
    step.Take? || step.Compress? || step.Release? || step.Lock? || step.Signal? || step.Unlock?
  }

  predicate OfLock(step: Step) { step.Lock? || step.Signal? || step.Unlock? }

  lemma LockKeeps(able: nat -> bool, s: State, step: Step)
    requires Inv(able, s) && Enabled(s, step) && OfLock(step)
    ensures Inv(able, Apply(able, s, step))
  {
  }

  lemma TakeKeeps(able: nat -> bool, s: State, v: nat)
    requires Inv(able, s) && Enabled(s, Take(v))
    ensures Inv(able, Apply(able, s, Take(v)))
  {
  }

  lemma CompressKeeps(able: nat -> bool, s: State, v: nat)
    requires Inv(able, s) && Enabled(s, Compress(v))
    ensures Inv(able, Apply(able, s, Compress(v)))
  {
  }

  lemma ReleaseKeeps(able: nat -> bool, s: State, v: nat)
    requires Inv(able, s) && Enabled(s, Release(v))
    ensures Inv(able, Apply(able, s, Release(v)))
  {
  }

  lemma WriterKeeps(able: nat -> bool, s: State, step: Step)
    requires Inv(able, s) && Enabled(s, step) && !OfWorker(step)
    ensures Inv(able, Apply(able, s, step))
  {
  }

  lemma InvKept(able: nat -> bool, s: State, step: Step)
    requires Inv(able, s) && Enabled(s, step)
    ensures Inv(able, Apply(able, s, step))
  {
    hide Inv, Apply, Enabled;
    if OfLock(step) {
      LockKeeps(able, s, step);
    } else if OfWorker(step) {
      match step
      case Take(v) => TakeKeeps(able, s, v);
      case Compress(v) => CompressKeeps(able, s, v);
      case Release(v) => ReleaseKeeps(able, s, v);
    } else {
      WriterKeeps(able, s, step);
    }
  }

  lemma {:induction false} RunKeeps(able: nat -> bool, s: State, steps: seq<Step>)
    requires Inv(able, s)
    ensures Run(able, s, steps).Some? ==> Inv(able, Run(able, s, steps).value)
    decreases |steps|
  {
    hide Inv, Apply, Enabled;
    if steps != [] && Enabled(s, steps[0]) {
      InvKept(able, s, steps[0]);
      RunKeeps(able, Apply(able, s, steps[0]), steps[1..]);
    }
  }

  lemma Reached(able: nat -> bool, steps: seq<Step>)
    requires Run(able, INITIAL, steps).Some?
    ensures Inv(able, Run(able, INITIAL, steps).value)
  {
    hide Run;
    assert Inv(able, INITIAL);
    RunKeeps(able, INITIAL, steps);
  }

  /** The writer is behind the wait for value `v`, or has passed it by. */
  predicate Uses(s: State, v: nat) { v < s.at || (v == s.at && s.writer.Reading?) }

  /**
  In every interleaving no value is compressed twice, a value is compressed only if it can be, and a value the
  writer uses is compressed exactly if it can be.
  */
  lemma CompressedOnce(able: nat -> bool, steps: seq<Step>, v: nat)
    requires Run(able, INITIAL, steps).Some?
    ensures var s := Run(able, INITIAL, steps).value;
      var value := At(s.values, v);
      && value.times <= 1 && (value.compressed <==> value.times == 1) && (value.compressed ==> able(v))
      && (Uses(s, v) ==> (value.compressed <==> able(v)))
  {
    hide Run;
    Reached(able, steps);
    var s := Run(able, INITIAL, steps).value;
    assert v < s.at || v == s.at || v > s.at;
  }

  /**
  A writer that waits for a value that can be compressed is signalled: while it sleeps unsignalled its worker is
  still to signal, and by the time it is signalled by that worker, the compressed pointer is in place.
  */
  lemma WaitIsSignalled(able: nat -> bool, steps: seq<Step>)
    requires Run(able, INITIAL, steps).Some?
    ensures var s := Run(able, INITIAL, steps).value;
      var here := At(s.values, s.at);
      && (s.writer == Sleeping(false) ==> Pending(here.worker) || !able(s.at))
      && (s.writer.Sleeping? && !Pending(here.worker) && able(s.at) ==> here.compressed && s.writer.signalled)
      && (Enabled(s, Signal(s.at)) ==> here.compressed)
      && (Abandoned(s) ==> !able(s.at))
  {
    hide Run;
    Reached(able, steps);
  }

  // ---------------------------------------------------------------- progress

  /** The next step towards the writer's use of the value it waits for. */
  function Towards(s: State): Step {
    match At(s.values, s.at).worker
    case Compressing => Compress(s.at)
    case Placed => Release(s.at)
    case Locking => if s.locker.None? then Lock(s.at) else Unlocks(s, s.locker.value)
    case Signalling => Signal(s.at)
    case Unlocking => Unlock(s.at)
    case _ => if s.locker.None? then Wake else Unlocks(s, s.locker.value)
  }

  /** What makes a worker that holds the lock release it. */
  function Unlocks(s: State, v: nat): Step { if At(s.values, v).worker.Signalling? then Signal(v) else Unlock(v) }

  function Rank(s: State): nat {
    var held := if s.locker.None? then 0 else if At(s.values, s.locker.value).worker.Signalling? then 2 else 1;
    match At(s.values, s.at).worker
    case Compressing => 24 + held
    case Placed => 20 + held
    case Locking => 10 + held
    case Signalling => 8
    case Unlocking => 7
    case _ => 3 + held
  }

  /** While the writer sleeps, a worker's step, or waking up, brings it closer to a compressed pointer. */
  lemma Approaches(able: nat -> bool, s: State)
    requires Inv(able, s) && s.writer.Sleeping? && able(s.at)
    ensures Enabled(s, Towards(s))
    ensures var t := Apply(able, s, Towards(s));
      && t.at == s.at
      && ((t.writer.Sleeping? && Rank(t) < Rank(s)) || (t.writer.Rechecking? && At(t.values, t.at).compressed))
  {
  }

  /**
  From every reachable state in which the writer sleeps for a value that can be compressed, it can come to find it
  compressed.
  */
  lemma {:induction false} SleeperWakes(able: nat -> bool, s: State) returns (steps: seq<Step>)
    requires Inv(able, s) && s.writer.Sleeping? && able(s.at)
    ensures Run(able, s, steps).Some?
    ensures var t := Run(able, s, steps).value;
      t.at == s.at && t.writer.Rechecking? && At(t.values, t.at).compressed
    decreases Rank(s)
  {
    hide Inv, Apply, Enabled, Towards, Rank;
    Approaches(able, s);
    var t := Apply(able, s, Towards(s));
    if t.writer.Sleeping? {
      InvKept(able, s, Towards(s));
      var rest := SleeperWakes(able, t);
      steps := [Towards(s)] + rest;
      assert steps[0] == Towards(s) && steps[1..] == rest;
    } else {
      steps := [Towards(s)];
      assert steps[1..] == [];
      RunNone(able, t);
    }
  }

  lemma RunNone(able: nat -> bool, s: State)
    ensures Run(able, s, []) == Some(s)
  {
  }

  // ---------------------------------------------------------------- when compression produces nothing

  predicate Waits(w: Writer) { w.Waiting? || w.Sleeping? || w.Rechecking? }

  /** The writer waits for a worker that has given up. */
  predicate Abandoned(s: State) {
    Waits(s.writer) && At(s.values, s.at).worker.Finished? && !At(s.values, s.at).compressed
  }

  lemma AbandonedKept(able: nat -> bool, s: State, step: Step)
    requires Abandoned(s) && Enabled(s, step)
    ensures Abandoned(Apply(able, s, step)) && Apply(able, s, step).at == s.at
  {
  }

  /** No step of any thread ever gets an abandoned writer out of its wait. */
  lemma {:induction false} AbandonedForEver(able: nat -> bool, s: State, steps: seq<Step>)
    requires Abandoned(s)
    ensures var t := Run(able, s, steps);
      t.Some? ==> Abandoned(t.value) && t.value.at == s.at
    decreases |steps|
  {
    hide Apply, Enabled, Abandoned;
    if steps != [] && Enabled(s, steps[0]) {
      AbandonedKept(able, s, steps[0]);
      AbandonedForEver(able, Apply(able, s, steps[0]), steps[1..]);
    }
  }

  lemma WaitKept(able: nat -> bool, s: State, step: Step)
    requires Inv(able, s) && Waits(s.writer) && !able(s.at) && Enabled(s, step)
    ensures Waits(Apply(able, s, step).writer) && Apply(able, s, step).at == s.at
  {
  }

  /** A wait for a value that cannot be compressed never ends, even while its worker is still trying. */
  lemma {:induction false} WaitsForEver(able: nat -> bool, s: State, steps: seq<Step>)
    requires Inv(able, s) && Waits(s.writer) && !able(s.at)
    ensures var t := Run(able, s, steps);
      t.Some? ==> Waits(t.value.writer) && t.value.at == s.at
    decreases |steps|
  {
    hide Inv, Apply, Enabled, Waits;
    if steps != [] && Enabled(s, steps[0]) {
      WaitKept(able, s, steps[0]);
      InvKept(able, s, steps[0]);
      WaitsForEver(able, Apply(able, s, steps[0]), steps[1..]);
    }
  }

  lemma {:induction false} RunAppend(able: nat -> bool, s: State, a: seq<Step>, b: seq<Step>)
    requires Run(able, s, a).Some?
    ensures Run(able, s, a + b) == Run(able, Run(able, s, a).value, b)
    decreases |a|
  {
    hide Apply, Enabled;
    if a == [] {
      assert a + b == b;
    } else {
      assert (a + b)[0] == a[0] && (a + b)[1..] == a[1..] + b;
      RunAppend(able, Apply(able, s, a[0]), a[1..], b);
    }
  }

  lemma Four(able: nat -> bool, s: State, a: Step, s1: State, b: Step, s2: State, c: Step, s3: State, d: Step)
    requires Enabled(s, a) && s1 == Apply(able, s, a)
    requires Enabled(s1, b) && s2 == Apply(able, s1, b)
    requires Enabled(s2, c) && s3 == Apply(able, s2, c)
    requires Enabled(s3, d)
    ensures Run(able, s, [a, b, c, d]) == Some(Apply(able, s3, d))
  {
    hide Apply, Enabled;
    assert [a, b, c, d][1..] == [b, c, d] && [b, c, d][1..] == [c, d] && [c, d][1..] == [d] && [d][1..] == [];
    assert Run(able, s3, [d]) == Some(Apply(able, s3, d));
    assert Run(able, s2, [c, d]) == Run(able, s3, [d]);
    assert Run(able, s1, [b, c, d]) == Run(able, s2, [c, d]);
  }

  /** The writer is about to look at value `n`, and no thread has touched it or a later one. */
  ghost predicate Before(s: State, n: nat) {
    s.at == n && s.writer.Checking? && s.locker.None? && forall v: nat :: v >= n ==> At(s.values, v) == FRESH
  }

  /** The writer takes a value all by itself. */
  lemma TakesOwn(able: nat -> bool, s: State, n: nat) returns (steps: seq<Step>)
    requires Before(s, n)
    ensures Run(able, s, steps).Some?
    ensures var t := Run(able, s, steps).value;
      Before(t, n + 1) && At(t.values, n).compressed == able(n)
  {
    hide Run;
    var s1 := Apply(able, s, Check);
    var s2 := Apply(able, s1, Exchange);
    var s3 := Apply(able, s2, CompressOwn);
    if able(n) {
      Four(able, s, Check, s1, Exchange, s2, CompressOwn, s3, ReleaseOwn);
      var s4 := Apply(able, s3, ReleaseOwn);
      One(able, s4, Use);
      RunAppend(able, s, [Check, Exchange, CompressOwn, ReleaseOwn], [Use]);
      steps := [Check, Exchange, CompressOwn, ReleaseOwn] + [Use];
    } else {
      Four(able, s, Check, s1, Exchange, s2, CompressOwn, s3, Use);
      steps := [Check, Exchange, CompressOwn, Use];
    }
  }

  lemma One(able: nat -> bool, s: State, a: Step)
    requires Enabled(s, a)
    ensures Run(able, s, [a]) == Some(Apply(able, s, a))
  {
    assert [a][1..] == [];
  }

  lemma {:induction false} Comes(able: nat -> bool, n: nat) returns (steps: seq<Step>)
    ensures Run(able, INITIAL, steps).Some? && Before(Run(able, INITIAL, steps).value, n)
  {
    if n == 0 {
      steps := [];
    } else {
      hide Before, Run;
      var first := Comes(able, n - 1);
      var rest := TakesOwn(able, Run(able, INITIAL, first).value, n - 1);
      RunAppend(able, INITIAL, first, rest);
      steps := first + rest;
    }
  }

  /** A worker claims value `n` and gives up, then the writer comes to wait for it. */
  lemma GivesUp(able: nat -> bool, s: State, n: nat) returns (steps: seq<Step>)
    requires Before(s, n) && !able(n)
    ensures Run(able, s, steps).Some?
    ensures Run(able, s, steps).value.at == n && Abandoned(Run(able, s, steps).value)
  {
    hide Run;
    steps := [Take(n), Compress(n), Check, Exchange];
    var s1 := Apply(able, s, Take(n));
    var s2 := Apply(able, s1, Compress(n));
    var s3 := Apply(able, s2, Check);
    Four(able, s, Take(n), s1, Compress(n), s2, Check, s3, Exchange);
  }

  ghost predicate HangsAt(able: nat -> bool, steps: seq<Step>, v: nat) {
    var s := Run(able, INITIAL, steps);
    s.Some? && s.value.at == v && Abandoned(s.value)
  }

  /** Some run leaves the writer waiting for value `v` for ever, if and only if compressing `v` produces nothing. */
  lemma HangsIff(able: nat -> bool, v: nat)
    ensures (exists steps :: HangsAt(able, steps, v)) <==> !able(v)
  {
    hide Run, Abandoned;
    if able(v) {
      forall steps | HangsAt(able, steps, v) ensures false {
        WaitIsSignalled(able, steps);
      }
    } else {
      var first := Comes(able, v);
      var rest := GivesUp(able, Run(able, INITIAL, first).value, v);
      RunAppend(able, INITIAL, first, rest);
      assert HangsAt(able, first + rest, v);
    }
  }

  ghost predicate UsesUncompressed(able: nat -> bool, steps: seq<Step>, v: nat) {
    var s := Run(able, INITIAL, steps);
    s.Some? && Uses(s.value, v) && !At(s.value.values, v).compressed
  }

  /**
  Some run has the writer take the bits of an uncompressed pointer for the address of value `v`, if and only if
  compressing `v` produces nothing: the writer that compresses itself does not look at the result.
  */
  lemma UsesUncompressedIff(able: nat -> bool, v: nat)
    ensures (exists steps :: UsesUncompressed(able, steps, v)) <==> !able(v)
  {
    hide Run, At;
    if able(v) {
      forall steps | UsesUncompressed(able, steps, v) ensures false {
        CompressedOnce(able, steps, v);
      }
    } else {
      var first := Comes(able, v);
      var rest := TakesOwn(able, Run(able, INITIAL, first).value, v);
      RunAppend(able, INITIAL, first, rest);
      assert UsesUncompressed(able, first + rest, v);
    }
  }
}
