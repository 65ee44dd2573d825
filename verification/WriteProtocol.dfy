/**
The status-word protocol between the JavaScript thread, which publishes instructions, and the write
worker, which executes them. Every step is one memory access or one atomic operation of one thread.
Slots are the positions of the instruction stream; buffers and their links are in InstructionLayout.
*/
module WriteProtocol {
  import opened Bytes

  /** A 32-bit status word: the instruction bits (here: present or not) and the flags above them. */
  datatype Word = Word(code: bool, finished: bool, failed: bool, waiting: bool, delimiter: bool, committed: bool)

  const ZERO := Word(false, false, false, false, false, false)
  const PUBLISHED := ZERO.(code := true)
  const WAITING := ZERO.(waiting := true)
  const DELIMITER := ZERO.(delimiter := true)
  /** Contents of the very first slot of the first buffer. */
  const ORIGIN := ZERO.(delimiter := true, committed := true)

  /** What an instruction does to the nesting of blocks. */
  datatype Kind = BlockStart | BlockEnd | Plain

  type Stream = nat -> Kind

  /** Number of blocks open in front of slot `k`. */
  function Depth(stream: Stream, k: nat): int {
    if k == 0 then 0 else Depth(stream, k - 1) + Nesting(stream(k - 1))
  }

  function Nesting(kind: Kind): int {
    match kind
    case BlockStart => 1
    case BlockEnd => -1
    case Plain => 0
  }

  // ---------------------------------------------------------------- state

  /** Between the plain load and the plain store of a publication inside a batch, or not. */
  datatype Publisher = Ready | Loaded(k: nat, status: Word)

  datatype Phase =
    | Fetching                       // about to read the word of the current slot
    | Empty(seen: Word, wait: bool)  // read a word without an instruction; about to compare-and-swap
    | Waiting                        // inside WaitForCallbacks
    | Executing                      // read an instruction
    | Marking(failed: bool)          // executed it; about to mark it finished
    | Storing(loaded: Word, failed: bool) // loaded the word for a plain read-modify-write

  datatype Writer =
    | Idle
    | Running(first: nat, overlapped: bool, depth: int, phase: Phase)

  /**
  `at` is the slot the worker stands at, or stopped at. `start` is startAddress, `queued` the workers started but
  not yet holding the lock, `committing` the delimiters whose transaction has committed without showing it yet.
  `published`, `committed` and `log` are history: slots published, delimiters marked committed, and the
  instructions executed with whether they failed.
  */
  datatype State = State(
    words: map<nat, Word>, publisher: Publisher, start: Option<nat>, queued: seq<nat>,
    at: nat, writer: Writer, committing: set<nat>,
    published: set<nat>, committed: set<nat>, log: seq<(nat, bool)>)

  function At(words: map<nat, Word>, k: nat): Word { if k in words then words[k] else ZERO }

  /** Stores a word; every other word stays. */
  function Put(words: map<nat, Word>, k: nat, word: Word): (r: map<nat, Word>)
    ensures forall j: nat :: At(r, j) == if j == k then word else At(words, j)
  {
    words[k := word]
  }

  const INITIAL := State(map[0 := ORIGIN], Ready, None, [], 0, Idle, {}, {}, {0}, [])

  // ---------------------------------------------------------------- steps

  datatype Step =
    | PublishAtomic(k: nat)   // Atomics.or outside a batch
    | PublishLoad(k: nat)     // plain load, then
    | PublishStore            // plain store, inside a batch
    | ClearNext(k: nat)       // finishBatch clears the slot behind the block end it is about to publish
    | StartWriting            // env.startWriting(startAddress)
    | Begin(i: nat)           // a queued worker gets the lock
    | Fetch(busy: bool)       // read the word; `busy`: callbacks are outstanding
    | Swap                    // compare-and-swap to WAITING or TXN_DELIMITER
    | Wake                    // WaitForCallbacks returns
    | Execute(fail: bool)
    | MarkAtomic | MarkLoad | MarkStore
    | ShowCommitted(k: nat)   // atomic or of TXN_COMMITTED

  predicate Enabled(stream: Stream, s: State, step: Step) {
    match step
    case PublishAtomic(k) => s.publisher.Ready? && k !in s.published
    case PublishLoad(k) => s.publisher.Ready? && k !in s.published && Depth(stream, k) > 0
    case PublishStore => s.publisher.Loaded?
    case ClearNext(k) => s.publisher.Ready? && stream(k) == BlockEnd && k !in s.published && k + 1 !in s.published
    case StartWriting => s.publisher.Ready? && s.start.Some?
    case Begin(i) => s.writer.Idle? && i < |s.queued|
    case Fetch(_) => s.writer.Running? && s.writer.phase.Fetching?
    case Swap => s.writer.Running? && s.writer.phase.Empty?
    case Wake => s.writer.Running? && s.writer.phase.Waiting? && (At(s.words, s.at).code || s.writer.depth == 0)
    case Execute(_) => s.writer.Running? && s.writer.phase.Executing?
    case MarkAtomic => s.writer.Running? && s.writer.phase.Marking? && s.writer.overlapped
    case MarkLoad => s.writer.Running? && s.writer.phase.Marking? && !s.writer.overlapped
    case MarkStore => s.writer.Running? && s.writer.phase.Storing?
    case ShowCommitted(k) => k in s.committing
  }

  /** The publisher that reads a delimiter takes its slot as the next start address, unless it has one. */
  function Publish(s: State, k: nat, status: Word, word: Word): State {
    s.(words := Put(s.words, k, word), published := s.published + {k}, publisher := Ready,
       start := if status.delimiter && s.start.None? then Some(k) else s.start)
  }

  function MoveOn(s: State, word: Word): State
    requires s.writer.Running?
  {
    s.(words := Put(s.words, s.at, word), at := s.at + 1, writer := s.writer.(phase := Fetching, overlapped := false))
  }

  function Apply(stream: Stream, s: State, step: Step): State
    requires Enabled(stream, s, step)
  {
    match step
    case PublishAtomic(k) => Publish(s, k, At(s.words, k), At(s.words, k).(code := true))
    case PublishLoad(k) => s.(publisher := Loaded(k, At(s.words, k)))
    case PublishStore => Publish(s, s.publisher.k, s.publisher.status, PUBLISHED)
    case ClearNext(k) => s.(words := Put(s.words, k + 1, ZERO))
    case StartWriting => s.(queued := s.queued + [s.start.value], start := None)
    case Begin(i) =>
      s.(queued := s.queued[..i] + s.queued[i + 1..], at := s.queued[i],
         writer := Running(s.queued[i], true, 0, Fetching))
    case Fetch(busy) =>
      var word := At(s.words, s.at);
      s.(writer := s.writer.(phase := if word.code then Executing else Empty(word, busy || s.writer.depth != 0)))
    case Swap =>
      if At(s.words, s.at) != s.writer.phase.seen then s.(writer := s.writer.(phase := Fetching))
      else if s.writer.phase.wait then s.(words := Put(s.words, s.at, WAITING), writer := s.writer.(phase := Waiting))
      else s.(words := Put(s.words, s.at, DELIMITER), writer := Idle, committing := s.committing + {s.at})
    case Wake => s.(writer := s.writer.(phase := Fetching))
    case Execute(fail) =>
      var t := s.(log := s.log + [(s.at, fail)], writer := s.writer.(depth := s.writer.depth + Nesting(stream(s.at))));
      if stream(s.at) == BlockEnd then t.(at := s.at + 1, writer := t.writer.(phase := Fetching))
      else t.(writer := t.writer.(phase := Marking(fail)))
    case MarkAtomic => MoveOn(s, At(s.words, s.at).(finished := true, failed := s.writer.phase.failed))
    case MarkLoad => s.(writer := s.writer.(phase := Storing(At(s.words, s.at), s.writer.phase.failed)))
    case MarkStore => MoveOn(s, s.writer.phase.loaded.(finished := true, failed := s.writer.phase.failed))
    case ShowCommitted(k) =>
      s.(words := Put(s.words, k, At(s.words, k).(committed := true)),
         committing := s.committing - {k}, committed := s.committed + {k})
  }

  /** `s` reaches the result by `steps`; None when some step is not possible. */
  function Run(stream: Stream, s: State, steps: seq<Step>): Option<State>
    decreases |steps|
  {
    if steps == [] then Some(s)
    else if Enabled(stream, s, steps[0]) then Run(stream, Apply(stream, s, steps[0]), steps[1..])
    else None
  }

  /** No block is closed that was not opened. */
  ghost predicate WellNested(stream: Stream) { forall k: nat :: Depth(stream, k) >= 0 }

  ghost predicate Reachable(stream: Stream, s: State) {
    exists steps :: Run(stream, INITIAL, steps) == Some(s)
  }

  // ---------------------------------------------------------------- invariant

  ghost predicate Done(s: State) { s.writer.Running? && (s.writer.phase.Marking? || s.writer.phase.Storing?) }

  /**
  Executed so far: every slot in front of the current one, once and in order, and the current one once it is done.
  */
  ghost predicate InOrder(s: State) {
    && |s.log| == s.at + (if Done(s) then 1 else 0)
    && forall i :: 0 <= i < |s.log| ==> s.log[i].0 == i
  }

  /** Published slots are those with instruction bits; everything executed is published. */
  ghost predicate PublishedWords(s: State) {
    && (forall k: nat :: At(s.words, k).code <==> k in s.published)
    && (forall k: nat :: k < s.at ==> k in s.published)
    && (s.writer.Running? && (Done(s) || s.writer.phase.Executing?) ==> s.at in s.published)
    && (s.writer.Running? && s.writer.phase.Empty? ==> !s.writer.phase.seen.code)
  }

  /** Who starts next: a delimiter that can still be published is the slot an idle worker stopped at. */
  ghost predicate Handover(s: State) {
    && (forall k: nat :: k !in s.published ==> (At(s.words, k).delimiter <==> s.writer.Idle? && k == s.at))
    && (s.writer.Running? ==> s.start == None && s.queued == [])
    && (s.writer.Idle? && s.at !in s.published ==> s.start == None && s.queued == [])
    && (s.writer.Idle? && s.at in s.published ==>
          (s.start == Some(s.at) && s.queued == []) || (s.start == None && s.queued == [s.at]))
  }

  /**
  The worker's depth is the stream's; a transaction ends between blocks only; batches load and store inside blocks only.
  */
  ghost predicate Depths(stream: Stream, s: State) {
    && (s.writer.Running? ==> s.writer.depth == Depth(stream, s.at + (if Done(s) then 1 else 0)))
    && (s.writer.Running? && s.writer.phase.Empty? && !s.writer.phase.wait ==> s.writer.depth == 0)
    && (s.writer.Running? && s.writer.overlapped ==> Depth(stream, s.at) == 0)
    && (s.writer.Idle? ==> Depth(stream, s.at) == 0)
    && (s.publisher.Loaded? ==>
          s.publisher.k !in s.published && Depth(stream, s.publisher.k) > 0 && !s.publisher.status.delimiter)
  }

  /** First slot of the worker that may still mark with plain stores behind it. */
  function Base(s: State): nat { if s.writer.Running? then s.writer.first else s.at }

  /** Commit marks: only at or in front of the running worker's first slot, and never lost. */
  ghost predicate Commits(s: State) {
    && (forall k :: k in s.committing || k in s.committed ==> k <= Base(s))
    && (forall k: nat :: k in s.committed <==> At(s.words, k).committed)
    && (s.writer.Idle? ==> s.at in s.committing || s.at in s.committed)
    && (s.writer.Running? ==> s.writer.first in s.published && s.writer.first <= s.at)
    && (s.writer.Running? ==> (s.writer.overlapped <==> s.writer.first == s.at))
    && (s.writer.Running? && s.writer.phase.Storing? ==>
          !s.writer.overlapped && At(s.words, s.at) == s.writer.phase.loaded)
  }

  /** Every executed instruction shows its outcome, and nothing else shows one. */
  ghost predicate Marks(stream: Stream, s: State) {
    && |s.log| >= s.at + (if Done(s) then 1 else 0)
    && (forall k: nat :: k < s.at && stream(k) != BlockEnd ==>
          At(s.words, k).finished && At(s.words, k).failed == s.log[k].1)
    && (forall k: nat :: k >= s.at ==> !At(s.words, k).finished)
    && (s.writer.Running? && s.writer.phase.Marking? ==> s.log[s.at].1 == s.writer.phase.failed)
    && (s.writer.Running? && s.writer.phase.Storing? ==> s.log[s.at].1 == s.writer.phase.failed)
  }

  ghost predicate Inv(stream: Stream, s: State) {
    && WellNested(stream) && InOrder(s) && PublishedWords(s) && Handover(s)
    && Depths(stream, s) && Commits(s) && Marks(stream, s)
  }

  lemma InvInitial(stream: Stream)
    requires WellNested(stream)
    ensures Inv(stream, INITIAL)
  {
  }

  /** Steps of the JavaScript thread. */
  predicate OfPublisher(step: Step) {
    step.PublishAtomic? || step.PublishLoad? || step.PublishStore? || step.ClearNext? || step.StartWriting?
  }

  lemma InOrderKept(stream: Stream, s: State, step: Step)
    requires Inv(stream, s) && Enabled(stream, s, step)
    ensures InOrder(Apply(stream, s, step))
  {
    hide PublishedWords, Depths, Commits, Marks, Depth;
  }

  lemma PublisherPublishedKept(stream: Stream, s: State, step: Step)
    requires Inv(stream, s) && Enabled(stream, s, step) && OfPublisher(step)
    ensures PublishedWords(Apply(stream, s, step))
  {
    hide InOrder, Depths, Marks, Depth;
  }

  lemma WorkerPublishedKept(stream: Stream, s: State, step: Step)
    requires Inv(stream, s) && Enabled(stream, s, step) && !OfPublisher(step)
    ensures PublishedWords(Apply(stream, s, step))
  {
    hide InOrder, Depths, Marks, Depth;
  }

  lemma PublishedKept(stream: Stream, s: State, step: Step)
    requires Inv(stream, s) && Enabled(stream, s, step)
    ensures PublishedWords(Apply(stream, s, step))
  {
    hide Inv, Enabled, Apply, PublishedWords;
    if OfPublisher(step) { PublisherPublishedKept(stream, s, step); } else { WorkerPublishedKept(stream, s, step); }
  }

  lemma HandoverKept(stream: Stream, s: State, step: Step)
    requires Inv(stream, s) && Enabled(stream, s, step)
    ensures Handover(Apply(stream, s, step))
  {
    hide InOrder, Marks, Commits;
    if step.StartWriting? {
      assert [] + [s.start.value] == [s.at];
    } else if step.Begin? {
      assert [s.at][..0] + [s.at][1..] == [];
    }
  }

  lemma DepthsKept(stream: Stream, s: State, step: Step)
    requires Inv(stream, s) && Enabled(stream, s, step)
    ensures Depths(stream, Apply(stream, s, step))
  {
    hide InOrder, Marks, Commits;
  }

  lemma PublisherCommitsKept(stream: Stream, s: State, step: Step)
    requires Inv(stream, s) && Enabled(stream, s, step) && OfPublisher(step)
    ensures Commits(Apply(stream, s, step))
  {
    hide InOrder, Marks;
  }

  lemma WorkerCommitsKept(stream: Stream, s: State, step: Step)
    requires Inv(stream, s) && Enabled(stream, s, step) && !OfPublisher(step)
    ensures Commits(Apply(stream, s, step))
  {
    hide InOrder, Marks;
    assert Depth(stream, s.at + 1) >= 0;
  }

  lemma CommitsKept(stream: Stream, s: State, step: Step)
    requires Inv(stream, s) && Enabled(stream, s, step)
    ensures Commits(Apply(stream, s, step))
  {
    hide Inv, Enabled, Apply, Commits;
    if OfPublisher(step) { PublisherCommitsKept(stream, s, step); } else { WorkerCommitsKept(stream, s, step); }
  }

  lemma PublisherMarksKept(stream: Stream, s: State, step: Step)
    requires Inv(stream, s) && Enabled(stream, s, step) && OfPublisher(step)
    ensures Marks(stream, Apply(stream, s, step))
  {
    hide Depth;
  }

  lemma WorkerMarksKept(stream: Stream, s: State, step: Step)
    requires Inv(stream, s) && Enabled(stream, s, step) && !OfPublisher(step)
    ensures Marks(stream, Apply(stream, s, step))
  {
    hide Depth;
    if step.Begin? {
      assert s.queued == [s.at];
    }
  }

  lemma MarksKept(stream: Stream, s: State, step: Step)
    requires Inv(stream, s) && Enabled(stream, s, step)
    ensures Marks(stream, Apply(stream, s, step))
  {
    hide Inv, Enabled, Apply, Marks;
    if OfPublisher(step) { PublisherMarksKept(stream, s, step); } else { WorkerMarksKept(stream, s, step); }
  }

  lemma InvKept(stream: Stream, s: State, step: Step)
    requires Inv(stream, s) && Enabled(stream, s, step)
    ensures Inv(stream, Apply(stream, s, step))
  {
    hide Apply, Enabled, InOrder, PublishedWords, Handover, Depths, Commits, Marks;
    InOrderKept(stream, s, step);
    PublishedKept(stream, s, step);
    HandoverKept(stream, s, step);
    DepthsKept(stream, s, step);
    CommitsKept(stream, s, step);
    MarksKept(stream, s, step);
  }

  // ---------------------------------------------------------------- every run

  lemma {:induction false} RunKeeps(stream: Stream, s: State, steps: seq<Step>)
    requires Inv(stream, s)
    ensures Run(stream, s, steps).Some? ==> Inv(stream, Run(stream, s, steps).value)
    decreases |steps|
  {
    hide Apply, Enabled, Inv;
    if steps != [] && Enabled(stream, s, steps[0]) {
      InvKept(stream, s, steps[0]);
      RunKeeps(stream, Apply(stream, s, steps[0]), steps[1..]);
    }
  }

  /**
  In every interleaving the executed instructions are the first slots of the stream, each once, in order, published
  before.
  */
  lemma ExactlyOnceInOrder(stream: Stream, s: State)
    requires WellNested(stream) && Reachable(stream, s)
    ensures forall i :: 0 <= i < |s.log| ==> s.log[i].0 == i && i in s.published
    ensures |s.log| >= s.at
    ensures forall k: nat :: k < s.at && stream(k) != BlockEnd ==>
      At(s.words, k).finished && s.log[k].1 == At(s.words, k).failed
    ensures forall k: nat :: At(s.words, k).finished ==> k < |s.log|
    ensures forall k: nat :: k in s.committed <==> At(s.words, k).committed
  {
    hide Run, Depth;
    InvInitial(stream);
    var steps :| Run(stream, INITIAL, steps) == Some(s);
    RunKeeps(stream, INITIAL, steps);
  }

  /**
  A publication reads the delimiter exactly when it fills the slot an idle worker stopped at; it alone sets the start
  address.
  */
  lemma PublisherStarts(stream: Stream, s: State, k: nat)
    requires Inv(stream, s) && Enabled(stream, s, PublishAtomic(k))
    ensures At(s.words, k).delimiter <==> s.writer.Idle? && k == s.at
    ensures var t := Apply(stream, s, PublishAtomic(k));
      t.start == (if s.writer.Idle? && k == s.at then Some(k) else s.start)
  {
    hide Depth;
  }

  /** Inside a batch the plain store never hides a delimiter and never starts a transaction. */
  lemma BatchNeverStarts(stream: Stream, s: State)
    requires Inv(stream, s) && Enabled(stream, s, PublishStore)
    ensures !At(s.words, s.publisher.k).delimiter
    ensures Apply(stream, s, PublishStore).start == s.start
  {
    hide Depth;
  }

  /** A transaction starts exactly where the last one stopped, with no other worker about. */
  lemma StartsWhereStopped(stream: Stream, s: State, i: nat)
    requires Inv(stream, s) && Enabled(stream, s, Begin(i))
    ensures var t := Apply(stream, s, Begin(i));
      t.at == s.at && t.writer.first == s.at && t.queued == [] && t.start == None
  {
    hide Depth;
    assert s.queued == [s.at];
    assert [s.at][..0] + [s.at][1..] == [];
  }

  // ---------------------------------------------------------------- progress

  /** A step of a worker, or the start of one. */
  predicate PublishesNothing(step: Step) {
    !step.PublishAtomic? && !step.PublishLoad? && !step.PublishStore? && !step.ClearNext?
  }

  /** `steps` are possible from `s`, none of them publishes, and they execute the next instruction. */
  ghost predicate ExecutesNext(stream: Stream, s: State, steps: seq<Step>) {
    && (forall i :: 0 <= i < |steps| ==> PublishesNothing(steps[i]))
    && Run(stream, s, steps).Some?
    && var t := Run(stream, s, steps).value;
    && t.log == s.log + [(|s.log|, true)]
    && t.published == s.published && t.publisher == s.publisher
  }

  lemma First(stream: Stream, s: State, step: Step, rest: seq<Step>)
    requires Enabled(stream, s, step) && PublishesNothing(step) && ExecutesNext(stream, Apply(stream, s, step), rest)
    requires var t := Apply(stream, s, step);
      t.log == s.log && t.published == s.published && t.publisher == s.publisher
    ensures ExecutesNext(stream, s, [step] + rest)
  {
    hide Apply, Enabled, PublishesNothing;
    var all := [step] + rest;
    assert all[0] == step && all[1..] == rest;
    forall i | 0 <= i < |all| ensures PublishesNothing(all[i]) {
      if i > 0 { assert all[i] == rest[i - 1]; }
    }
  }

  lemma Finally(stream: Stream, s: State)
    requires Inv(stream, s) && s.writer.Running? && s.writer.phase.Executing?
    ensures ExecutesNext(stream, s, [Execute(true)])
  {
    hide Depth, PublishedWords, Handover, Depths, Commits, Marks;
    var t := Apply(stream, s, Execute(true));
    assert [Execute(true)][1..] == [];
    assert Run(stream, s, [Execute(true)]) == Run(stream, t, []) == Some(t);
  }

  function Rank(s: State): nat {
    match s.writer
    case Idle => if s.start.Some? then 7 else 6
    case Running(_, _, _, Storing(_, _)) => 4
    case Running(_, _, _, Marking(_)) => 5
    case Running(_, _, _, Fetching) => 2
    case Running(_, _, _, Executing) => 1
    case Running(_, _, _, _) => 3
  }

  /** The next step of the worker side towards executing the next instruction. */
  function Towards(s: State): Step {
    match s.writer
    case Idle => if s.start.Some? then StartWriting else Begin(0)
    case Running(_, overlapped, _, Marking(_)) => if overlapped then MarkAtomic else MarkLoad
    case Running(_, _, _, Storing(_, _)) => MarkStore
    case Running(_, _, _, Fetching) => Fetch(false)
    case Running(_, _, _, Empty(_, _)) => Swap
    case Running(_, _, _, Waiting) => Wake
    case Running(_, _, _, Executing) => Execute(true)
  }

  /**
  As long as the next instruction is published but not being executed, a worker-side step brings its execution closer.
  */
  lemma Approaches(stream: Stream, s: State)
    requires Inv(stream, s) && s.publisher.Ready? && |s.log| in s.published
    requires !(s.writer.Running? && s.writer.phase.Executing?)
    ensures Enabled(stream, s, Towards(s)) && PublishesNothing(Towards(s))
    ensures var t := Apply(stream, s, Towards(s));
      Rank(t) < Rank(s) && t.log == s.log && t.published == s.published && t.publisher == s.publisher
  {
    hide Depth, Depths, Marks;
    assert At(s.words, |s.log|).code;
  }

  /**
  No published instruction is stranded: from every reachable state the next one can be executed without further
  publications.
  */
  lemma {:induction false} NextIsExecuted(stream: Stream, s: State) returns (steps: seq<Step>)
    requires Inv(stream, s) && s.publisher.Ready? && |s.log| in s.published
    ensures ExecutesNext(stream, s, steps)
    decreases Rank(s)
  {
    hide Inv, ExecutesNext, Apply, Enabled, Towards, Rank;
    if s.writer.Running? && s.writer.phase.Executing? {
      Finally(stream, s);
      steps := [Execute(true)];
    } else {
      Approaches(stream, s);
      InvKept(stream, s, Towards(s));
      var rest := NextIsExecuted(stream, Apply(stream, s, Towards(s)));
      First(stream, s, Towards(s), rest);
      steps := [Towards(s)] + rest;
    }
  }

  lemma {:induction false} RunAppend(stream: Stream, s: State, a: seq<Step>, b: seq<Step>)
    requires Run(stream, s, a).Some?
    ensures Run(stream, s, a + b) == Run(stream, Run(stream, s, a).value, b)
    decreases |a|
  {
    hide Apply, Enabled;
    if a == [] {
      assert a + b == b;
    } else {
      assert (a + b)[0] == a[0] && (a + b)[1..] == a[1..] + b;
      RunAppend(stream, Apply(stream, s, a[0]), a[1..], b);
    }
  }

  /** Whatever prefix of the stream has been published, all of it can be executed without further publications. */
  lemma {:induction false} PrefixIsExecuted(stream: Stream, s: State, n: nat) returns (steps: seq<Step>)
    requires Inv(stream, s) && s.publisher.Ready? && (forall k: nat :: k < n ==> k in s.published)
    ensures Run(stream, s, steps).Some? && |Run(stream, s, steps).value.log| >= n
    ensures Run(stream, s, steps).value.published == s.published
    decreases n - |s.log|
  {
    hide Inv, Apply, Enabled;
    if |s.log| >= n {
      steps := [];
    } else {
      var now := NextIsExecuted(stream, s);
      RunKeeps(stream, s, now);
      var rest := PrefixIsExecuted(stream, Run(stream, s, now).value, n);
      RunAppend(stream, s, now, rest);
      steps := now + rest;
    }
  }
}
