/**
How the promises of writes are settled: the chain of resolutions, the queue of transaction ends, and
resolveWrites, on top of the status-word protocol. A resolution is named by its slot; block ends have none.
Each turn of the two loops of resolveWrites is a step that reads the status words as they are then, with steps of
the workers in between.
*/
module Settlement {
  import opened Bytes
  import opened W = WriteProtocol

  datatype Resolving = Away | Scanning | Committing

  /**
  `unwritten` and `uncommitted` are where the two resolution pointers stand (-1: the sentinel in front of the
  first resolution), `flags` the outcomes noted while scanning, `txn` and `nextTxn` the queue of transaction ends,
  `isTxn` the resolutions ever queued. `settled` is history: the promises settled, with their values.
  `overrun` tells that a commit loop started at the transaction end it was to stop at.
  */
  datatype Resolutions = Resolutions(
    unwritten: nat, uncommitted: int, flags: map<nat, bool>,
    txn: Option<nat>, nextTxn: map<nat, nat>, isTxn: set<nat>,
    phase: Resolving, settled: seq<(nat, bool)>, overrun: bool)

  datatype State = Both(p: W.State, r: Resolutions)

  const INITIAL := Both(W.INITIAL, Resolutions(0, -1, map[], None, map[], {}, Away, [], false))

  /** The stream, and which writes resolve to true whatever their condition did. */
  datatype Client = Client(stream: Stream, unconditional: nat -> bool)

  datatype Step =
    | Protocol(step: W.Step)
    | Callback(k: nat)        // a worker's callback finds the next slot, k, delimited
    | BeginResolve
    | Scan | ScanDone
    | Commit | CommitDone

  /** queueCommitResolution. */
  function Queue(r: Resolutions, k: nat): Resolutions {
    if k in r.isTxn then r
    else if r.txn.Some? then r.(isTxn := r.isTxn + {k}, nextTxn := r.nextTxn[r.txn.value := k])
    else r.(isTxn := r.isTxn + {k}, txn := Some(k))
  }

  /** The slot a protocol step publishes and the status it reads there. */
  function Published(p: W.State, step: W.Step): Option<(nat, Word)> {
    match step
    case PublishAtomic(k) => Some((k, At(p.words, k)))
    case PublishStore => if p.publisher.Loaded? then Some((p.publisher.k, p.publisher.status)) else None
    case _ => None
  }

  /** The list of resolutions passes slot `k`: its instruction is finished, or it is a block end. */
  predicate Passes(stream: Stream, words: map<nat, Word>, k: nat) {
    At(words, k).code && (stream(k) == BlockEnd || At(words, k).finished)
  }

  /** What the promises of slots from..to get: false for a noted failure, unless unconditional. */
  function Settle(c: Client, flags: map<nat, bool>, from: nat, to: nat): seq<(nat, bool)>
    requires from <= to
  {
    if from == to then []
    else Settle(c, flags, from, to - 1) + Promise(c, to - 1, to - 1 in flags && flags[to - 1])
  }

  function Promise(c: Client, k: nat, failed: bool): seq<(nat, bool)> {
    if c.stream(k) == BlockEnd then [] else [(k, c.unconditional(k) || !failed)]
  }

  /** Steps of the JavaScript thread cannot happen while it is resolving. */
  predicate Enabled(c: Client, s: State, step: Step) {
    match step
    case Protocol(q) => W.Enabled(c.stream, s.p, q) && (s.r.phase.Away? || !OfPublisher(q))
    case Callback(k) => s.r.phase.Away? && s.p.publisher.Ready? && k !in s.p.published
    case BeginResolve => s.r.phase.Away? && s.p.publisher.Ready?
    case Scan => s.r.phase.Scanning? && Passes(c.stream, s.p.words, s.r.unwritten)
    case ScanDone => s.r.phase.Scanning? && !Passes(c.stream, s.p.words, s.r.unwritten)
    case Commit => s.r.phase.Committing? && s.r.txn.Some? && At(s.p.words, s.r.txn.value).committed
    case CommitDone => s.r.phase.Committing? && !(s.r.txn.Some? && At(s.p.words, s.r.txn.value).committed)
  }

  function Apply(c: Client, s: State, step: Step): State
    requires Enabled(c, s, step)
  {
    match step
    case Protocol(q) =>
      var hit := Published(s.p, q);
      Both(W.Apply(c.stream, s.p, q), if hit.Some? && hit.value.1.delimiter then Queue(s.r, hit.value.0) else s.r)
    case Callback(k) => s.(r := if At(s.p.words, k).delimiter then Queue(s.r, k) else s.r)
    case BeginResolve => s.(r := s.r.(phase := Scanning))
    case Scan =>
      var k := s.r.unwritten;
      var flags := if c.stream(k) == BlockEnd then s.r.flags else s.r.flags[k := At(s.p.words, k).failed];
      s.(r := s.r.(unwritten := k + 1, flags := flags))
    case ScanDone => s.(r := s.r.(phase := Committing))
    case Commit => s.(r := ResolveCommit(c, s.r))
    case CommitDone => s.(r := s.r.(phase := Away))
  }

  /** resolveCommit: settles everything in front of the transaction's end and takes the next queued end. */
  function ResolveCommit(c: Client, r: Resolutions): Resolutions
    requires r.txn.Some?
  {
    var t := r.txn.value;
    if r.uncommitted >= t then r.(overrun := true)
    else
      r.(settled := r.settled + Settle(c, r.flags, Max(r.uncommitted, 0), t), uncommitted := t,
         txn := if t in r.nextTxn then Some(r.nextTxn[t]) else None)
  }

  function Run(c: Client, s: State, steps: seq<Step>): Option<State>
    decreases |steps|
  {
    if steps == [] then Some(s)
    else if Enabled(c, s, steps[0]) then Run(c, Apply(c, s, steps[0]), steps[1..])
    else None
  }

  // ---------------------------------------------------------------- invariant

  /** What the promises of the first `n` slots should get, by the outcomes of the instructions. */
  function Outcomes(c: Client, log: seq<(nat, bool)>, n: nat): seq<(nat, bool)>
    requires n <= |log|
  {
    if n == 0 then [] else Outcomes(c, log, n - 1) + Promise(c, n - 1, log[n - 1].1)
  }

  /** Slots that delimit a transaction. */
  function Ends(p: W.State): set<nat> { p.committing + p.committed }

  /**
  The words only show what is so: outcomes of executed instructions, and commits and transaction ends behind passed
  ones.
  */
  ghost predicate Honest(stream: Stream, p: W.State) {
    && (forall k: nat :: At(p.words, k).finished && stream(k) != BlockEnd ==>
         k < |p.log| && At(p.words, k).failed == p.log[k].1)
    && (forall t: nat :: At(p.words, t).committed ==> t in p.committed)
    && (forall t :: t in Ends(p) ==> t <= |p.log| && forall j: nat :: j < t ==> Passes(stream, p.words, j))
  }

  ghost predicate Noted(c: Client, s: State) {
    forall k: nat :: k < s.r.unwritten && c.stream(k) != BlockEnd ==>
      k < |s.p.log| && k in s.r.flags && s.r.flags[k] == s.p.log[k].1
  }

  /** Once the first loop is done, everything in front of every queued transaction end has been noted. */
  ghost predicate Phases(s: State) {
    && (!s.r.phase.Away? ==> s.p.publisher.Ready?)
    && (s.r.phase.Committing? ==> forall t :: t in s.r.isTxn ==> t <= s.r.unwritten)
  }

  ghost predicate Queued(s: State) {
    && (forall k :: k in s.r.isTxn ==> k in Ends(s.p))
    && (s.r.uncommitted == -1 || (s.r.uncommitted >= 0 && s.r.uncommitted in s.r.isTxn))
    && (s.r.txn.Some? ==> s.r.txn.value in s.r.isTxn && s.r.uncommitted < s.r.txn.value)
    && (forall t :: t in s.r.nextTxn ==> s.r.nextTxn[t] in s.r.isTxn && t < s.r.nextTxn[t])
    && !s.r.overrun
  }

  ghost predicate Settled(c: Client, s: State) {
    && -1 <= s.r.uncommitted <= s.r.unwritten && Max(s.r.uncommitted, 0) <= |s.p.log|
    && s.r.settled == Outcomes(c, s.p.log, Max(s.r.uncommitted, 0))
  }

  ghost predicate Inv(c: Client, s: State) {
    W.Inv(c.stream, s.p) && Noted(c, s) && Phases(s) && Queued(s) && Settled(c, s)
  }

  lemma InvInitial(c: Client)
    requires WellNested(c.stream)
    ensures Inv(c, INITIAL)
  {
    W.InvInitial(c.stream);
  }

  // ---------------------------------------------------------------- the invariant is kept

  /** The history of the protocol only grows. */
  ghost predicate Grows(p: W.State, q: W.State) {
    && |p.log| <= |q.log| && (forall k :: 0 <= k < |p.log| ==> q.log[k] == p.log[k])
    && p.committed <= q.committed && Ends(p) <= Ends(q)
  }

  lemma StepGrows(stream: Stream, p: W.State, step: W.Step)
    requires W.Enabled(stream, p, step)
    ensures Grows(p, W.Apply(stream, p, step))
  {
  }

  lemma {:induction false} OutcomesGrow(c: Client, p: W.State, q: W.State, n: nat)
    requires Grows(p, q) && n <= |p.log|
    ensures Outcomes(c, p.log, n) == Outcomes(c, q.log, n)
  {
    if n > 0 { OutcomesGrow(c, p, q, n - 1); }
  }

  lemma HonestNow(stream: Stream, p: W.State)
    requires W.Inv(stream, p)
    ensures Honest(stream, p)
  {
    hide Depth, Depths, Handover;
  }

  /** A delimiter that can still be published is the newest transaction end. */
  lemma DelimiterIsNewest(stream: Stream, p: W.State, k: nat)
    requires W.Inv(stream, p) && k !in p.published && At(p.words, k).delimiter
    ensures k in Ends(p) && forall e :: e in Ends(p) ==> e <= k
  {
    hide Depth, Depths, Marks, InOrder;
  }

  lemma QueueKeeps(c: Client, s: State, k: nat)
    requires Inv(c, s) && s.r.phase.Away? && k in Ends(s.p) && forall e :: e in Ends(s.p) ==> e <= k
    ensures Inv(c, s.(r := Queue(s.r, k)))
  {
    hide W.Inv, Honest, Outcomes, Passes;
  }

  lemma ProtocolKeeps(c: Client, s: State, q: W.Step)
    requires Inv(c, s) && W.Enabled(c.stream, s.p, q) && (s.r.phase.Away? || !OfPublisher(q))
    ensures Inv(c, s.(p := W.Apply(c.stream, s.p, q)))
  {
    hide W.Inv, Honest, Outcomes, Passes;
    var p := W.Apply(c.stream, s.p, q);
    W.InvKept(c.stream, s.p, q);
    StepGrows(c.stream, s.p, q);
    OutcomesGrow(c, s.p, p, Max(s.r.uncommitted, 0));
    if !s.r.phase.Away? {
      PublisherRests(c.stream, s.p, q);
    }
  }

  lemma PublisherRests(stream: Stream, p: W.State, q: W.Step)
    requires W.Enabled(stream, p, q) && !OfPublisher(q)
    ensures W.Apply(stream, p, q).publisher == p.publisher
  {
  }

  lemma ScanKeeps(c: Client, s: State)
    requires Inv(c, s) && Enabled(c, s, Scan)
    ensures Inv(c, Apply(c, s, Scan))
  {
    hide W.Inv, Outcomes, W.Apply, W.Enabled;
    HonestNow(c.stream, s.p);
  }

  lemma ScanDoneKeeps(c: Client, s: State)
    requires Inv(c, s) && Enabled(c, s, ScanDone)
    ensures Inv(c, Apply(c, s, ScanDone))
  {
    hide W.Inv, Outcomes, W.Apply, W.Enabled, Passes, Noted, Settled;
    HonestNow(c.stream, s.p);
    NotedSame(c, s, Apply(c, s, ScanDone));
  }

  lemma NotedSame(c: Client, s: State, t: State)
    requires Noted(c, s) && Settled(c, s) && t.p == s.p && t.r == s.r.(phase := t.r.phase)
    ensures Noted(c, t) && Settled(c, t)
  {
    hide Outcomes;
  }

  lemma {:induction false} SettleIsOutcomes(c: Client, s: State, from: nat, to: nat)
    requires Noted(c, s) && from <= to <= s.r.unwritten && to <= |s.p.log|
    ensures Outcomes(c, s.p.log, from) + Settle(c, s.r.flags, from, to) == Outcomes(c, s.p.log, to)
  {
    if from < to {
      SettleIsOutcomes(c, s, from, to - 1);
      var a, b := Outcomes(c, s.p.log, from), Settle(c, s.r.flags, from, to - 1);
      var d := Promise(c, to - 1, s.p.log[to - 1].1);
      assert a + (b + d) == a + b + d;
    }
  }

  lemma CommitKeeps(c: Client, s: State)
    requires Inv(c, s) && Enabled(c, s, Commit)
    ensures Inv(c, Apply(c, s, Commit))
  {
    hide W.Inv, Outcomes, W.Apply, W.Enabled, Settle, Passes;
    HonestNow(c.stream, s.p);
    var t := s.r.txn.value;
    assert t <= s.r.unwritten;
    SettleIsOutcomes(c, s, Max(s.r.uncommitted, 0), t);
  }

  lemma InvKept(c: Client, s: State, step: Step)
    requires Inv(c, s) && Enabled(c, s, step)
    ensures Inv(c, Apply(c, s, step))
  {
    hide W.Inv, Outcomes, W.Apply, W.Enabled, Passes, Queue;
    match step
    case Protocol(q) =>
      ProtocolKeeps(c, s, q);
      PublishedDelimiter(c, s, q);
    case Callback(k) =>
      if At(s.p.words, k).delimiter {
        DelimiterIsNewest(c.stream, s.p, k);
        QueueKeeps(c, s, k);
      }
    case BeginResolve =>
    case Scan => ScanKeeps(c, s);
    case ScanDone => ScanDoneKeeps(c, s);
    case Commit => CommitKeeps(c, s);
    case CommitDone =>
  }

  /** A publication that reads a delimiter queues the newest transaction end. */
  lemma PublishedDelimiter(c: Client, s: State, q: W.Step)
    requires Inv(c, s) && Enabled(c, s, Protocol(q))
    requires Inv(c, s.(p := W.Apply(c.stream, s.p, q)))
    ensures Inv(c, Apply(c, s, Protocol(q)))
  {
    hide W.Inv, Outcomes, Passes, Noted, Phases, Queued, Settled, Inv, Queue, W.Apply;
    var hit := Published(s.p, q);
    if hit.Some? && hit.value.1.delimiter {
      var k := hit.value.0;
      HitIsOpen(c, s, q);
      DelimiterIsNewest(c.stream, s.p, k);
      EndsSame(c.stream, s.p, q);
      QueueKeeps(c, s.(p := W.Apply(c.stream, s.p, q)), k);
    }
  }

  lemma HitIsOpen(c: Client, s: State, q: W.Step)
    requires Inv(c, s) && Enabled(c, s, Protocol(q)) && Published(s.p, q).Some? && Published(s.p, q).value.1.delimiter
    ensures var k := Published(s.p, q).value.0;
      k !in s.p.published && At(s.p.words, k).delimiter && W.Inv(c.stream, s.p)
  {
    hide Outcomes, Passes, Noted, Phases, Queued, Settled, Depth, Marks, Commits, InOrder;
  }

  lemma EndsSame(stream: Stream, p: W.State, q: W.Step)
    requires W.Enabled(stream, p, q) && Published(p, q).Some?
    ensures Ends(W.Apply(stream, p, q)) == Ends(p)
  {
  }

  lemma {:induction false} RunKeeps(c: Client, s: State, steps: seq<Step>)
    requires Inv(c, s)
    ensures Run(c, s, steps).Some? ==> Inv(c, Run(c, s, steps).value)
    decreases |steps|
  {
    hide Apply, Enabled, Inv;
    if steps != [] && Enabled(c, s, steps[0]) {
      InvKept(c, s, steps[0]);
      RunKeeps(c, Apply(c, s, steps[0]), steps[1..]);
    }
  }

  // ---------------------------------------------------------------- settled once and in order

  /**
  `o` settles the promises of the first `n` slots: in stream order, hence each once, and by the outcomes in `log`.
  */
  ghost predicate InOrderOnce(c: Client, log: seq<(nat, bool)>, n: nat, o: seq<(nat, bool)>)
    requires n <= |log|
  {
    && (forall i, j :: 0 <= i < j < |o| ==> o[i].0 < o[j].0)
    && (forall i :: 0 <= i < |o| ==> o[i].0 < n && c.stream(o[i].0) != BlockEnd)
    && (forall i :: 0 <= i < |o| ==> o[i].0 < n && o[i].1 == (c.unconditional(o[i].0) || !log[o[i].0].1))
  }

  lemma {:induction false} OutcomesInOrder(c: Client, log: seq<(nat, bool)>, n: nat)
    requires n <= |log|
    ensures InOrderOnce(c, log, n, Outcomes(c, log, n))
  {
    if n > 0 {
      OutcomesInOrder(c, log, n - 1);
      InOrderOnceMore(c, log, n - 1, Outcomes(c, log, n - 1));
    }
  }

  lemma InOrderOnceMore(c: Client, log: seq<(nat, bool)>, n: nat, o: seq<(nat, bool)>)
    requires n < |log| && InOrderOnce(c, log, n, o)
    ensures InOrderOnce(c, log, n + 1, o + Promise(c, n, log[n].1))
  {
    var q := o + Promise(c, n, log[n].1);
    assert forall i :: 0 <= i < |o| ==> q[i] == o[i];
  }

  lemma {:induction false} OutcomesComplete(c: Client, log: seq<(nat, bool)>, n: nat, k: nat) returns (i: nat)
    requires k < n <= |log| && c.stream(k) != BlockEnd
    ensures i < |Outcomes(c, log, n)| && Outcomes(c, log, n)[i].0 == k
  {
    if k == n - 1 {
      i := |Outcomes(c, log, n - 1)|;
    } else {
      i := OutcomesComplete(c, log, n - 1, k);
    }
  }

  /**
  Over every run: promises are settled in stream order, each at most once, and each with the outcome of its
  executed instruction; and every instruction in front of the last settled transaction end is among them.
  */
  lemma SettledOnceInOrder(c: Client, steps: seq<Step>)
    requires WellNested(c.stream) && Run(c, INITIAL, steps).Some?
    ensures var s := Run(c, INITIAL, steps).value;
      var n := Max(s.r.uncommitted, 0);
      && !s.r.overrun && n <= |s.p.log|
      && InOrderOnce(c, s.p.log, n, s.r.settled)
      && forall k: nat :: k < n && c.stream(k) != BlockEnd ==>
           exists i :: 0 <= i < |s.r.settled| && s.r.settled[i].0 == k
  {
    hide Run, Outcomes, W.Inv, Honest, InOrderOnce;
    InvInitial(c);
    RunKeeps(c, INITIAL, steps);
    var s := Run(c, INITIAL, steps).value;
    var n := Max(s.r.uncommitted, 0);
    OutcomesInOrder(c, s.p.log, n);
    forall k: nat | k < n && c.stream(k) != BlockEnd
      ensures exists i :: 0 <= i < |s.r.settled| && s.r.settled[i].0 == k
    {
      var i := OutcomesComplete(c, s.p.log, n, k);
    }
  }

  // ---------------------------------------------------------------- settled in time

  /** `e` is the end of the transaction that executes slot `k`. */
  ghost predicate EndOf(p: W.State, k: nat, e: nat) {
    k < e && e in Ends(p) && forall f :: f in Ends(p) ==> f <= k || e <= f
  }

  /** The promise of slot `k` is settled although the end of its transaction does not show TXN_COMMITTED. */
  ghost predicate SettledBefore(c: Client, s: State, k: nat, e: nat) {
    k < s.r.uncommitted && c.stream(k) != BlockEnd && EndOf(s.p, k, e) && !At(s.p.words, e).committed
  }

  ghost predicate Early(c: Client, s: State) { exists k, e :: SettledBefore(c, s, k, e) }

  /** Every transaction end up to the last settled one shows TXN_COMMITTED. */
  ghost predicate Timely(s: State) { forall e :: e in Ends(s.p) && e <= s.r.uncommitted ==> e in s.p.committed }

  /** Transactions end between blocks, the first of them at slot 0; and every published end has been queued. */
  ghost predicate EndsKnown(c: Client, s: State) {
    && 0 in s.p.committed
    && (forall e :: e in Ends(s.p) ==> Depth(c.stream, e) == 0)
    && (forall e :: e in Ends(s.p) && e in s.p.published ==> e in s.r.isTxn)
  }

  lemma EndsKnownProtocol(c: Client, s: State, q: W.Step)
    requires Inv(c, s) && EndsKnown(c, s) && Enabled(c, s, Protocol(q))
    ensures EndsKnown(c, Apply(c, s, Protocol(q)))
  {
    hide Outcomes, Noted, Phases, Settled, Depth, Marks, InOrder, Settle, Queued;
  }

  lemma EndsKnownKept(c: Client, s: State, step: Step)
    requires Inv(c, s) && EndsKnown(c, s) && Enabled(c, s, step)
    ensures EndsKnown(c, Apply(c, s, step))
  {
    if step.Protocol? {
      EndsKnownProtocol(c, s, step.step);
    } else {
      hide Outcomes, Depth, W.Inv, Settle, W.Apply, W.Enabled, Passes, Inv;
    }
  }

  /** The transaction end in front of another. */
  lemma PreviousEnd(p: W.State, k: nat, e: nat) returns (f: nat)
    requires e in Ends(p) && 0 in Ends(p) && k < e && forall g :: g in Ends(p) ==> g <= k || e <= g
    ensures f <= k && f in Ends(p) && EndOf(p, f, e)
    decreases k
  {
    if k in Ends(p) { f := k; } else { f := PreviousEnd(p, k - 1, e); }
  }

  /** The marks up to the last settled end say it all: they are complete exactly if no promise is settled early. */
  lemma TimelyIff(c: Client, s: State)
    requires Inv(c, s) && EndsKnown(c, s)
    ensures Timely(s) <==> !Early(c, s)
  {
    hide Outcomes, Noted, Phases, Settled, Marks, InOrder, Handover, Depths, PublishedWords;
    assert s.r.uncommitted >= 0 ==> s.r.uncommitted in Ends(s.p);
    if !Timely(s) {
      var e :| e in Ends(s.p) && e <= s.r.uncommitted && e !in s.p.committed;
      HonestNow(c.stream, s.p);
      var f := PreviousEnd(s.p, e - 1, e);
      assert Depth(c.stream, f + 1) >= 0;
      assert SettledBefore(c, s, f, e);
    }
  }

  /** The queue no longer leads to the end `e`, which is still to be settled. */
  ghost predicate Dropped(r: Resolutions, e: nat) {
    && e in r.isTxn && r.uncommitted < e && r.txn != Some(e)
    && !(r.txn.Some? && r.txn.value in r.nextTxn && r.nextTxn[r.txn.value] == e)
  }

  /** Every end that was dropped in front of the one about to be settled shows TXN_COMMITTED. */
  ghost predicate Clean(s: State) {
    s.r.txn.Some? ==> forall e: nat :: Dropped(s.r, e) && e < s.r.txn.value ==> At(s.p.words, e).committed
  }

  /**
  Exactly when a commit step settles early: an end in front of it was dropped from the queue and is still unmarked.
  */
  lemma CommitIsTimelyIff(c: Client, s: State)
    requires Inv(c, s) && EndsKnown(c, s) && !Early(c, s) && Enabled(c, s, Commit)
    ensures Early(c, Apply(c, s, Commit)) <==> !Clean(s)
  {
    hide Outcomes, Early, W.Apply, W.Enabled, Settle, Passes, Noted, Depth, Marks, InOrder, Handover, Depths;
    TimelyIff(c, s);
    InvKept(c, s, Commit);
    EndsKnownKept(c, s, Commit);
    TimelyIff(c, Apply(c, s, Commit));
    var t := s.r.txn.value;
    forall e | e in Ends(s.p) && s.r.uncommitted < e < t ensures Dropped(s.r, e) {
      assert t in Ends(s.p);
    }
  }

  /** A step of the protocol never makes a settled transaction end unmarked, nor adds one below it. */
  lemma ProtocolTimely(c: Client, s: State, q: W.Step)
    requires Inv(c, s) && Timely(s) && Enabled(c, s, Protocol(q))
    ensures Timely(Apply(c, s, Protocol(q)))
  {
    hide Outcomes, Noted, Phases, Settled, Depth, Depths, Marks, InOrder;
    assert s.r.uncommitted >= 0 ==> s.r.uncommitted in Ends(s.p);
  }

  /** No step but a commit settles early. */
  lemma OthersTimely(c: Client, s: State, step: Step)
    requires Inv(c, s) && EndsKnown(c, s) && !Early(c, s) && Enabled(c, s, step) && !step.Commit?
    ensures !Early(c, Apply(c, s, step))
  {
    hide Outcomes, W.Apply, W.Enabled, Settle, Passes, Noted, Inv, Early, EndsKnown, Run;
    TimelyIff(c, s);
    InvKept(c, s, step);
    EndsKnownKept(c, s, step);
    TimelyIff(c, Apply(c, s, step));
    if step.Protocol? { ProtocolTimely(c, s, step.step); }
  }

  // ---------------------------------------------------------------- whole runs

  /** No state of the run has a promise settled early. */
  ghost predicate TimelyRun(c: Client, s: State, steps: seq<Step>)
    decreases |steps|
  {
    && !Early(c, s)
    && (steps != [] && Enabled(c, s, steps[0]) ==> TimelyRun(c, Apply(c, s, steps[0]), steps[1..]))
  }

  /** Each commit step of the run finds the dropped ends in front of its own marked. */
  ghost predicate CleanRun(c: Client, s: State, steps: seq<Step>)
    decreases |steps|
  {
    steps != [] && Enabled(c, s, steps[0]) ==>
      (steps[0].Commit? ==> Clean(s)) && CleanRun(c, Apply(c, s, steps[0]), steps[1..])
  }

  lemma {:induction false} TimelyRunFrom(c: Client, s: State, steps: seq<Step>)
    requires Inv(c, s) && EndsKnown(c, s) && !Early(c, s)
    ensures TimelyRun(c, s, steps) <==> CleanRun(c, s, steps)
    decreases |steps|
  {
    hide Apply, Enabled, Inv, Early, Clean, EndsKnown;
    if steps != [] && Enabled(c, s, steps[0]) {
      var t := Apply(c, s, steps[0]);
      if steps[0].Commit? { CommitIsTimelyIff(c, s); } else { OthersTimely(c, s, steps[0]); }
      if !Early(c, t) {
        InvKept(c, s, steps[0]);
        EndsKnownKept(c, s, steps[0]);
        TimelyRunFrom(c, t, steps[1..]);
      }
    }
  }

  lemma Begins(c: Client)
    requires WellNested(c.stream)
    ensures Inv(c, INITIAL) && EndsKnown(c, INITIAL) && !Early(c, INITIAL)
  {
    InvInitial(c);
  }

  /**
  Over every run: no promise is ever settled before the end of its transaction shows TXN_COMMITTED, if and only if
  each commit step finds the ends that the queue had dropped in front of it marked.
  */
  lemma TimelyRunIff(c: Client, steps: seq<Step>)
    requires WellNested(c.stream)
    ensures TimelyRun(c, INITIAL, steps) <==> CleanRun(c, INITIAL, steps)
  {
    hide Inv, Early, EndsKnown, TimelyRun, CleanRun;
    Begins(c);
    TimelyRunFrom(c, INITIAL, steps);
  }

  /** The end a step queues. */
  function QueuedBy(s: State, step: Step): Option<nat> {
    match step
    case Protocol(q) =>
      var hit := Published(s.p, q);
      if hit.Some? && hit.value.1.delimiter then Some(hit.value.0) else None
    case Callback(k) => if At(s.p.words, k).delimiter then Some(k) else None
    case _ => None
  }

  /** The step does not overwrite the successor of the end at the head of the queue. */
  predicate Lossless(s: State, step: Step) {
    var k := QueuedBy(s, step);
    k.Some? && k.value !in s.r.isTxn && s.r.txn.Some? ==> s.r.txn.value !in s.r.nextTxn
  }

  ghost predicate LosslessRun(c: Client, s: State, steps: seq<Step>)
    decreases |steps|
  {
    steps != [] && Enabled(c, s, steps[0]) ==>
      Lossless(s, steps[0]) && LosslessRun(c, Apply(c, s, steps[0]), steps[1..])
  }

  ghost predicate NothingDropped(r: Resolutions) { forall e :: e in r.isTxn ==> !Dropped(r, e) }

  /** Overwriting is the one way to drop an end. */
  lemma NothingDroppedKept(c: Client, s: State, step: Step)
    requires Inv(c, s) && NothingDropped(s.r) && Enabled(c, s, step) && Lossless(s, step)
    ensures NothingDropped(Apply(c, s, step).r)
  {
    hide Outcomes, W.Apply, W.Enabled, W.Inv, Settle, Passes, Noted, Settled;
  }

  lemma {:induction false} LosslessIsClean(c: Client, s: State, steps: seq<Step>)
    requires Inv(c, s) && NothingDropped(s.r) && LosslessRun(c, s, steps)
    ensures CleanRun(c, s, steps)
    decreases |steps|
  {
    hide Apply, Enabled, Inv, Lossless;
    if steps != [] && Enabled(c, s, steps[0]) {
      InvKept(c, s, steps[0]);
      NothingDroppedKept(c, s, steps[0]);
      LosslessIsClean(c, Apply(c, s, steps[0]), steps[1..]);
    }
  }

  /** As long as no queued successor is overwritten no promise is settled early, in whatever order the marks appear. */
  lemma LosslessIsTimely(c: Client, steps: seq<Step>)
    requires WellNested(c.stream) && LosslessRun(c, INITIAL, steps)
    ensures TimelyRun(c, INITIAL, steps)
  {
    hide Inv, TimelyRun, CleanRun, LosslessRun;
    InvInitial(c);
    LosslessIsClean(c, INITIAL, steps);
    TimelyRunIff(c, steps);
  }

  /** Commit marks appear in the order of the transactions. */
  ghost predicate Ordered(s: State, step: Step) {
    step.Protocol? && step.step.ShowCommitted? ==> forall e :: e in s.p.committing ==> step.step.k <= e
  }

  ghost predicate OrderedRun(c: Client, s: State, steps: seq<Step>)
    decreases |steps|
  {
    steps != [] && Enabled(c, s, steps[0]) ==> Ordered(s, steps[0]) && OrderedRun(c, Apply(c, s, steps[0]), steps[1..])
  }

  /** Marked ends come before unmarked ones. */
  ghost predicate MarkedFirst(p: W.State) {
    forall e, f :: e in p.committing && f in p.committed ==> f < e || e in p.committed
  }

  lemma MarkedFirstKept(c: Client, s: State, q: W.Step)
    requires Inv(c, s) && MarkedFirst(s.p) && Enabled(c, s, Protocol(q)) && Ordered(s, Protocol(q))
    ensures MarkedFirst(W.Apply(c.stream, s.p, q))
  {
    hide Outcomes, Noted, Phases, Settled, Queued, Depth, Depths, Marks, InOrder;
  }

  lemma MarkedFirstIsClean(c: Client, s: State)
    requires Inv(c, s) && MarkedFirst(s.p) && Enabled(c, s, Commit)
    ensures Clean(s)
  {
    hide Outcomes, Settle, Passes, Noted, Settled, Depth, Depths, Marks, InOrder, Handover, PublishedWords;
    assert s.r.txn.value in s.p.committed;
  }

  lemma {:induction false} OrderedIsClean(c: Client, s: State, steps: seq<Step>)
    requires Inv(c, s) && MarkedFirst(s.p) && OrderedRun(c, s, steps)
    ensures CleanRun(c, s, steps)
    decreases |steps|
  {
    hide Enabled, Inv, MarkedFirst, Ordered, Clean, W.Apply;
    if steps != [] && Enabled(c, s, steps[0]) {
      InvKept(c, s, steps[0]);
      if steps[0].Protocol? { MarkedFirstKept(c, s, steps[0].step); }
      if steps[0].Commit? { MarkedFirstIsClean(c, s); }
      OrderedIsClean(c, Apply(c, s, steps[0]), steps[1..]);
    }
  }

  /** When commit marks appear in order no promise is settled early, whatever the queue has dropped. */
  lemma OrderedIsTimely(c: Client, steps: seq<Step>)
    requires WellNested(c.stream) && OrderedRun(c, INITIAL, steps)
    ensures TimelyRun(c, INITIAL, steps)
  {
    hide Inv, TimelyRun, CleanRun, OrderedRun;
    InvInitial(c);
    OrderedIsClean(c, INITIAL, steps);
    TimelyRunIff(c, steps);
  }

  // ---------------------------------------------------------------- settled early

  /** A client of plain conditional writes. */
  const PLAIN := Client((k: nat) => W.Plain, (k: nat) => false)

  /** Nothing published at or behind slot `n`, where an idle worker left its delimiter. */
  ghost predicate Rests(p: W.State, n: nat) {
    && p.writer.Idle? && p.publisher.Ready? && p.at == n && p.start == None && p.queued == []
    && (forall k: nat :: k >= n ==> k !in p.published)
    && At(p.words, n).delimiter && !At(p.words, n).code
    && forall k: nat :: k > n ==> At(p.words, k) == ZERO
  }

  /** One write that forms a transaction of its own. */
  function OneWrite(n: nat): seq<Step> {
    [Protocol(PublishAtomic(n)), Protocol(StartWriting), Protocol(Begin(0)), Protocol(Fetch(false))]
    + [Protocol(Execute(false)), Protocol(MarkAtomic), Protocol(Fetch(false)), Protocol(Swap)]
  }

  lemma Four(c: Client, s: State, a: Step, s1: State, b: Step, s2: State, d: Step, s3: State, e: Step)
    requires Enabled(c, s, a) && s1 == Apply(c, s, a)
    requires Enabled(c, s1, b) && s2 == Apply(c, s1, b)
    requires Enabled(c, s2, d) && s3 == Apply(c, s2, d)
    requires Enabled(c, s3, e)
    ensures Run(c, s, [a, b, d, e]) == Some(Apply(c, s3, e))
  {
    hide Apply, Enabled;
    assert [a, b, d, e][1..] == [b, d, e] && [b, d, e][1..] == [d, e] && [d, e][1..] == [e] && [e][1..] == [];
    assert Run(c, s3, [e]) == Some(Apply(c, s3, e));
    assert Run(c, s2, [d, e]) == Run(c, s3, [e]);
    assert Run(c, s1, [b, d, e]) == Run(c, s2, [d, e]);
  }

  lemma {:induction false} RunAppend(c: Client, s: State, a: seq<Step>, b: seq<Step>)
    requires Run(c, s, a).Some?
    ensures Run(c, s, a + b) == Run(c, Run(c, s, a).value, b)
    decreases |a|
  {
    hide Apply, Enabled;
    if a == [] {
      assert a + b == b;
    } else {
      assert (a + b)[0] == a[0] && (a + b)[1..] == a[1..] + b;
      RunAppend(c, Apply(c, s, a[0]), a[1..], b);
    }
  }

  /** State with the write at `n` published and read by its worker. */
  function Taken(s: State, n: nat): State {
    Both(s.p.(words := Put(s.p.words, n, At(s.p.words, n).(code := true)), published := s.p.published + {n},
              writer := Running(n, true, 0, Executing)),
         Queue(s.r, n))
  }

  lemma TakesWrite(s: State, n: nat)
    requires Rests(s.p, n) && s.r.phase.Away?
    ensures Run(PLAIN, s,
                [Protocol(PublishAtomic(n)), Protocol(StartWriting), Protocol(Begin(0)), Protocol(Fetch(false))])
      == Some(Taken(s, n))
  {
    hide Run;
    var s1 := Apply(PLAIN, s, Protocol(PublishAtomic(n)));
    assert s1.p.start == Some(n);
    var s2 := Apply(PLAIN, s1, Protocol(StartWriting));
    assert s2.p.queued == [n];
    var s3 := Apply(PLAIN, s2, Protocol(Begin(0)));
    assert s3.p.queued == [];
    Four(PLAIN, s, Protocol(PublishAtomic(n)), s1, Protocol(StartWriting), s2, Protocol(Begin(0)), s3,
         Protocol(Fetch(false)));
  }

  /** State with the write at `n` executed and its transaction ended behind it. */
  function Ended(s: State, n: nat): State {
    var done := At(s.p.words, n).(code := true, finished := true, failed := false);
    s.(p := s.p.(words := Put(Put(s.p.words, n, done), n + 1, DELIMITER), published := s.p.published + {n},
                 at := n + 1, committing := s.p.committing + {n + 1}, log := s.p.log + [(n, false)]),
       r := Queue(s.r, n))
  }

  /** State with the write at `n` executed and marked. */
  function Marked(s: State, n: nat): State {
    var done := At(s.p.words, n).(code := true, finished := true, failed := false);
    Both(s.p.(words := Put(s.p.words, n, done), published := s.p.published + {n}, at := n + 1,
              log := s.p.log + [(n, false)], writer := Running(n, false, 0, Fetching)),
         Queue(s.r, n))
  }

  lemma MarksWrite(s: State, n: nat)
    requires Rests(s.p, n)
    ensures Enabled(PLAIN, Taken(s, n), Protocol(Execute(false)))
    ensures var t := Apply(PLAIN, Taken(s, n), Protocol(Execute(false)));
      Enabled(PLAIN, t, Protocol(MarkAtomic)) && Apply(PLAIN, t, Protocol(MarkAtomic)) == Marked(s, n)
  {
    hide Queue;
    var t := Apply(PLAIN, Taken(s, n), Protocol(Execute(false)));
    assert Apply(PLAIN, t, Protocol(MarkAtomic)).p.words == Marked(s, n).p.words;
  }

  lemma EndsWrite(s: State, n: nat)
    requires Rests(s.p, n) && s.r.phase.Away?
    ensures Run(PLAIN, Taken(s, n),
                [Protocol(Execute(false)), Protocol(MarkAtomic), Protocol(Fetch(false)), Protocol(Swap)])
      == Some(Ended(s, n))
  {
    hide Run, Queue, Taken;
    MarksWrite(s, n);
    var t := Taken(s, n);
    var s1 := Apply(PLAIN, t, Protocol(Execute(false)));
    var s2 := Marked(s, n);
    var s3 := Apply(PLAIN, s2, Protocol(Fetch(false)));
    assert s3.p.writer == Running(n, false, 0, Empty(ZERO, false));
    Four(PLAIN, t, Protocol(Execute(false)), s1, Protocol(MarkAtomic), s2, Protocol(Fetch(false)), s3, Protocol(Swap));
  }

  lemma WritesOne(s: State, n: nat)
    requires Rests(s.p, n) && s.r.phase.Away?
    ensures Run(PLAIN, s, OneWrite(n)) == Some(Ended(s, n))
    ensures Rests(Ended(s, n).p, n + 1) && Ended(s, n).r.phase.Away?
  {
    hide Run, Taken;
    TakesWrite(s, n);
    EndsWrite(s, n);
    RunAppend(PLAIN, s,
              [Protocol(PublishAtomic(n)), Protocol(StartWriting), Protocol(Begin(0)), Protocol(Fetch(false))],
              [Protocol(Execute(false)), Protocol(MarkAtomic), Protocol(Fetch(false)), Protocol(Swap)]);
  }

  const THREE := Ended(Ended(Ended(INITIAL, 0), 1), 2)

  lemma WritesThree()
    ensures Run(PLAIN, INITIAL, OneWrite(0) + OneWrite(1) + OneWrite(2)) == Some(THREE)
  {
    hide Run, OneWrite, Ended;
    WritesOne(INITIAL, 0);
    WritesOne(Ended(INITIAL, 0), 1);
    WritesOne(Ended(Ended(INITIAL, 0), 1), 2);
    RunAppend(PLAIN, INITIAL, OneWrite(0), OneWrite(1));
    RunAppend(PLAIN, INITIAL, OneWrite(0) + OneWrite(1), OneWrite(2));
  }

  /**
  What matters of the state after three writes of one transaction each: the end at slot 1 has dropped out of the queue.
  */
  lemma ThreeIs()
    ensures THREE.p.committing == {1, 2, 3} && THREE.p.committed == {0}
    ensures At(THREE.p.words, 0) == Word(true, true, false, false, true, true)
    ensures At(THREE.p.words, 1) == At(THREE.p.words, 2) == Word(true, true, false, false, true, false)
    ensures At(THREE.p.words, 3) == DELIMITER
    ensures THREE.r == INITIAL.r.(txn := Some(0), nextTxn := map[0 := 2], isTxn := {0, 1, 2})
    ensures THREE.p.publisher == Ready
  {
    hide Put;
  }

  /**
  The commit mark of the third transaction end appears while the second is still unmarked; then the promises are
  resolved.
  */
  const LATE: seq<Step> :=
    [Protocol(ShowCommitted(2)), BeginResolve, Scan, Scan] + [Scan, ScanDone, Commit, Commit]

  lemma SettleTwo(flags: map<nat, bool>)
    requires flags == map[0 := false, 1 := false, 2 := false]
    ensures Settle(PLAIN, flags, 0, 0) == [] && Settle(PLAIN, flags, 0, 2) == [(0, true), (1, true)]
  {
    assert Settle(PLAIN, flags, 0, 1) == [(0, true)];
  }

  /** After the late mark and the first two scan turns. */
  function Late(s: State): State {
    var words := Put(s.p.words, 2, At(s.p.words, 2).(committed := true));
    Both(s.p.(words := words, committing := s.p.committing - {2}, committed := s.p.committed + {2}),
         s.r.(phase := Scanning, unwritten := 2, flags := map[0 := false, 1 := false]))
  }

  lemma ResolvesHalf()
    ensures Run(PLAIN, THREE, [Protocol(ShowCommitted(2)), BeginResolve, Scan, Scan]) == Some(Late(THREE))
  {
    hide Run, Ended, Put;
    ThreeIs();
    var s := THREE;
    var s1 := Apply(PLAIN, s, Protocol(ShowCommitted(2)));
    var s2 := Apply(PLAIN, s1, BeginResolve);
    var s3 := Apply(PLAIN, s2, Scan);
    Four(PLAIN, s, Protocol(ShowCommitted(2)), s1, BeginResolve, s2, Scan, s3, Scan);
  }

  lemma ResolvesRest()
    ensures var t := Run(PLAIN, Late(THREE), [Scan, ScanDone, Commit, Commit]);
      t.Some? && t.value.r.settled == [(0, true), (1, true)] && t.value.p == Late(THREE).p
  {
    hide Run, Ended, Put, Settle;
    ThreeIs();
    var s4 := Late(THREE);
    var s5 := Apply(PLAIN, s4, Scan);
    assert s5.r.flags == map[0 := false, 1 := false, 2 := false];
    var s6 := Apply(PLAIN, s5, ScanDone);
    var s7 := Apply(PLAIN, s6, Commit);
    SettleTwo(s5.r.flags);
    Four(PLAIN, s4, Scan, s5, ScanDone, s6, Commit, s7, Commit);
  }

  /**
  Out of order, a promise can be settled early: the queue keeps only its first and its newest entry, so the
  transaction of slot 0, which ends at slot 1, is settled by the mark at slot 2.
  */
  lemma SettledEarly() returns (steps: seq<Step>)
    ensures Run(PLAIN, INITIAL, steps).Some?
    ensures var s := Run(PLAIN, INITIAL, steps).value;
      (0, true) in s.r.settled && EndOf(s.p, 0, 1) && !At(s.p.words, 1).committed
  {
    hide Run, OneWrite, Ended;
    WritesThree();
    ResolvesHalf();
    ResolvesRest();
    ThreeIs();
    RunAppend(PLAIN, THREE, [Protocol(ShowCommitted(2)), BeginResolve, Scan, Scan], [Scan, ScanDone, Commit, Commit]);
    RunAppend(PLAIN, INITIAL, OneWrite(0) + OneWrite(1) + OneWrite(2), LATE);
    steps := OneWrite(0) + OneWrite(1) + OneWrite(2) + LATE;
    var s := Run(PLAIN, INITIAL, steps).value;
    assert s.r.settled[0] == (0, true);
  }
}
