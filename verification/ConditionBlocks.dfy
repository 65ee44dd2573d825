/**
What a stream of instructions does to the store: the loop of DoWrites with its two counters, conditionDepth
and validatedDepth, against the meaning of nested condition blocks. Stored values are raw bytes, with the
eight bytes of a version in front when one is set; versions are compared as those bytes.
*/
module ConditionBlocks {
  import opened Bytes

  type Key = (nat, seq<byte>) // database and key
  type Store = map<Key, seq<byte>>
  type Version = v: seq<byte> | |v| == 8 witness [0, 0, 0, 0, 0, 0, 0, 0]

  /** CONDITIONAL_VERSION: nothing, a version, or the special value that any version meets. */
  datatype VersionCheck = Unchecked | Exactly(version: Version) | Existing

  /**
  The conditions an instruction carries; `noExists` is IF_NO_EXISTS, which applies to every instruction with a key.
  */
  datatype Condition = Condition(check: VersionCheck, noExists: bool)

  datatype Operation = Put(value: seq<byte>, version: Option<Version>) | Delete | Drop

  datatype Instruction =
    | StartBlock                                 // no key, no condition
    | StartConditionBlock(key: Key, condition: Condition)
    | BlockEnd
    | Write(key: Key, condition: Condition, operation: Operation)

  /** What the worker leaves in an instruction's status word. */
  datatype Mark = Unmarked | Finished(failed: bool)

  // ---------------------------------------------------------------- one write

  predicate Holds(store: Store, key: Key, condition: Condition) {
    && (condition.noExists ==> key !in store)
    && (!condition.check.Unchecked? ==> key in store)
    && (condition.check.Exactly? ==> |store[key]| >= 8 && store[key][..8] == condition.check.version)
  }

  /** A write takes effect: its condition holds, and a deletion finds its key. */
  predicate Takes(store: Store, w: Instruction)
    requires w.Write?
  {
    Holds(store, w.key, w.condition) && (w.operation.Delete? ==> w.key in store)
  }

  /** The bytes a put hands to the database: a version condition leaves the looked-up value in the value's place. */
  function Payload(store: Store, w: Instruction): seq<byte>
    requires w.Write? && w.operation.Put?
  {
    if !w.condition.check.Unchecked? && w.key in store then store[w.key] else w.operation.value
  }

  function WithVersion(version: Option<Version>, data: seq<byte>): seq<byte> {
    if version.Some? then version.value + data else data
  }

  function Effect(store: Store, w: Instruction): Store
    requires w.Write?
  {
    match w.operation
    case Put(_, version) => store[w.key := WithVersion(version, Payload(store, w))]
    case Delete => store - {w.key}
    case Drop => map k | k in store && k.0 != w.key.0 :: store[k]
  }

  /** The store agrees with another on one key. */
  predicate Same(store: Store, store': Store, key: Key) {
    (key in store' <==> key in store) && (key in store ==> store'[key] == store[key])
  }

  /** What a write that takes effect does to the store, key by key. */
  ghost predicate Written(store: Store, w: Instruction, store': Store)
    requires w.Write?
  {
    match w.operation
    case Put(value, version) =>
      && (forall k :: k != w.key ==> Same(store, store', k))
      && w.key in store'
      && var data := if w.condition.check.Unchecked? || w.key !in store then value else store[w.key];
      && (version.None? ==> store'[w.key] == data)
      && (version.Some? ==> |store'[w.key]| >= 8 && store'[w.key][..8] == version.value && store'[w.key][8..] == data)
    case Delete => w.key !in store' && forall k :: k != w.key ==> Same(store, store', k)
    case Drop => forall k: Key :: if k.0 == w.key.0 then k !in store' else Same(store, store', k)
  }

  lemma EffectWrites(store: Store, w: Instruction)
    requires w.Write?
    ensures Written(store, w, Effect(store, w))
  {
    if w.operation.Put? && w.operation.version.Some? {
      var v: seq<byte>, data := w.operation.version.value, Payload(store, w);
      assert (v + data)[..8] == v && (v + data)[8..] == data;
    }
  }

  /** A put without a version condition stores its value; under one exactly if the old bytes were the value. */
  lemma PutStoresValue(store: Store, w: Instruction)
    requires w.Write? && w.operation.Put? && Takes(store, w)
    ensures Effect(store, w)[w.key] == WithVersion(w.operation.version, w.operation.value)
      <==> w.condition.check.Unchecked? || store[w.key] == w.operation.value
  {
    if !w.condition.check.Unchecked? && w.operation.version.Some? {
      var v := w.operation.version.value;
      assert (v + store[w.key])[8..] == store[w.key] && (v + w.operation.value)[8..] == w.operation.value;
    }
  }

  // ---------------------------------------------------------------- meaning of nested blocks

  datatype Node =
    | One(write: Instruction)
    | Block(start: Instruction, body: seq<Node>)

  predicate WellFormed(nodes: seq<Node>) {
    nodes == [] || (WellFormedNode(nodes[0]) && WellFormed(nodes[1..]))
  }

  predicate WellFormedNode(node: Node) {
    match node
    case One(w) => w.Write?
    case Block(start, body) => (start.StartBlock? || start.StartConditionBlock?) && WellFormed(body)
  }

  /** The stream of a list of writes and blocks. */
  function Flatten(nodes: seq<Node>): seq<Instruction> {
    if nodes == [] then [] else FlattenNode(nodes[0]) + Flatten(nodes[1..])
  }

  function FlattenNode(node: Node): seq<Instruction> {
    match node
    case One(w) => [w]
    case Block(start, body) => [start] + Flatten(body) + [BlockEnd]
  }

  predicate Opens(store: Store, start: Instruction) {
    start.StartConditionBlock? ==> Holds(store, start.key, start.condition)
  }

  /** Store and marks after running `nodes`; `live` tells that all enclosing conditions held. */
  function Meaning(store: Store, nodes: seq<Node>, live: bool): (r: (Store, seq<Mark>))
    requires WellFormed(nodes)
    decreases nodes
  {
    if nodes == [] then (store, [])
    else
      var (s, m) := MeaningNode(store, nodes[0], live);
      var (t, n) := Meaning(s, nodes[1..], live);
      (t, m + n)
  }

  function MeaningNode(store: Store, node: Node, live: bool): (r: (Store, seq<Mark>))
    requires WellFormedNode(node)
    decreases node
  {
    match node
    case One(w) => if live && Takes(store, w) then (Effect(store, w), [Finished(false)]) else (store, [Finished(true)])
    case Block(start, body) =>
      var open := live && Opens(store, start);
      var (s, m) := Meaning(store, body, open);
      (s, [Finished(!open)] + m + [Unmarked])
  }

  /** Marks of writes and blocks that are all failed. */
  function AllFailed(nodes: seq<Node>): seq<Mark> {
    if nodes == [] then [] else AllFailedNode(nodes[0]) + AllFailed(nodes[1..])
  }

  function AllFailedNode(node: Node): seq<Mark> {
    match node
    case One(_) => [Finished(true)]
    case Block(_, body) => [Finished(true)] + AllFailed(body) + [Unmarked]
  }

  /** Nothing below a failed condition reaches the store, and every write and block there is marked failed. */
  lemma {:induction false} DeadMeaning(store: Store, nodes: seq<Node>)
    requires WellFormed(nodes)
    ensures Meaning(store, nodes, false) == (store, AllFailed(nodes))
  {
    if nodes != [] {
      DeadNode(store, nodes[0]);
      DeadMeaning(store, nodes[1..]);
    }
  }

  lemma {:induction false} DeadNode(store: Store, node: Node)
    requires WellFormedNode(node)
    ensures MeaningNode(store, node, false) == (store, AllFailedNode(node))
  {
    if node.Block? { DeadMeaning(store, node.body); }
  }

  /** One write on its own: it is done and marked so, or its condition fails and it is marked failed. */
  lemma OneWrite(store: Store, w: Instruction)
    requires w.Write?
    ensures WellFormed([One(w)])
    ensures var (store', marks) := Meaning(store, [One(w)], true);
      if Takes(store, w) then Written(store, w, store') && marks == [Finished(false)]
      else store' == store && marks == [Finished(true)]
  {
    hide Effect;
    var nodes := [One(w)];
    assert nodes[1..] == [];
    assert WellFormed(nodes);
    var r := MeaningNode(store, nodes[0], true);
    assert Meaning(r.0, nodes[1..], true) == (r.0, []);
    assert r.1 + [] == r.1;
    EffectWrites(store, w);
  }

  /** Some write below `node` is on the key, or drops its database. */
  predicate Touches(nodes: seq<Node>, key: Key) {
    nodes != [] && (TouchesNode(nodes[0], key) || Touches(nodes[1..], key))
  }

  predicate TouchesNode(node: Node, key: Key) {
    match node
    case One(w) => w.Write? && (w.key == key || (w.operation.Drop? && w.key.0 == key.0))
    case Block(_, body) => Touches(body, key)
  }

  /** A stream leaves every key alone that none of its writes is on, and whose database it does not drop. */
  lemma {:induction false} OthersStay(store: Store, nodes: seq<Node>, live: bool, key: Key)
    requires WellFormed(nodes) && !Touches(nodes, key)
    ensures Same(store, Meaning(store, nodes, live).0, key)
    decreases nodes
  {
    hide MeaningNode;
    if nodes != [] {
      OthersStayNode(store, nodes[0], live, key);
      OthersStay(MeaningNode(store, nodes[0], live).0, nodes[1..], live, key);
    }
  }

  lemma {:induction false} OthersStayNode(store: Store, node: Node, live: bool, key: Key)
    requires WellFormedNode(node) && !TouchesNode(node, key)
    ensures Same(store, MeaningNode(store, node, live).0, key)
    decreases node
  {
    hide Effect;
    match node
    case One(w) => EffectWrites(store, w);
    case Block(start, body) => OthersStay(store, body, live && Opens(store, start), key);
  }

  // ---------------------------------------------------------------- the loop

  /** Variables of DoWrites between instructions. */
  datatype Machine = Machine(store: Store, conditionDepth: int, validatedDepth: int, marks: seq<Mark>)

  /** `validated` after the conditions of an instruction have been looked up, one after the other. */
  function LookUp(store: Store, key: Key, condition: Condition, validated: bool): bool {
    var checked :=
      match condition.check
      case Unchecked => validated
      case Exactly(v) => if key !in store then false else validated && |store[key]| >= 8 && v == store[key][..8]
      case Existing => if key !in store then false else validated;
    if condition.noExists then checked && key !in store else checked
  }

  /** One turn of the loop. */
  function Turn(m: Machine, i: Instruction): Machine {
    match i
    case BlockEnd =>
      var depth := m.conditionDepth - 1;
      m.(conditionDepth := depth,
         validatedDepth := if m.validatedDepth > depth then m.validatedDepth - 1 else m.validatedDepth,
         marks := m.marks + [Unmarked])
    case StartBlock => Enter(m, Live(m))
    case StartConditionBlock(_, _) => Enter(m, LookUp(m.store, i.key, i.condition, Live(m)))
    case Write(key, _, operation) =>
      if !LookUp(m.store, key, i.condition, Live(m)) || (operation.Delete? && key !in m.store) then
        m.(marks := m.marks + [Finished(true)])
      else m.(store := Effect(m.store, i), marks := m.marks + [Finished(false)])
  }

  function Enter(m: Machine, validated: bool): Machine {
    m.(conditionDepth := m.conditionDepth + 1,
       validatedDepth := if validated then m.validatedDepth + 1 else m.validatedDepth,
       marks := m.marks + [Finished(!validated)])
  }

  function Turns(m: Machine, instructions: seq<Instruction>): Machine
    decreases |instructions|
  {
    if instructions == [] then m else Turns(Turn(m, instructions[0]), instructions[1..])
  }

  lemma {:induction false} TurnsAppend(m: Machine, a: seq<Instruction>, b: seq<Instruction>)
    ensures Turns(m, a + b) == Turns(Turns(m, a), b)
    decreases |a|
  {
    hide Turn;
    if a == [] {
      assert a + b == b;
    } else {
      assert (a + b)[0] == a[0] && (a + b)[1..] == a[1..] + b;
      TurnsAppend(Turn(m, a[0]), a[1..], b);
    }
  }

  /**
  The machine after the meaning of some nodes: the counters are back, the store and the marks are those of the meaning.
  */
  function After(m: Machine, r: (Store, seq<Mark>)): Machine { m.(store := r.0, marks := m.marks + r.1) }

  predicate Live(m: Machine) { m.conditionDepth == m.validatedDepth }

  /**
  For every well-nested stream the counters act as a stack of block outcomes: the loop computes the meaning of the
  blocks.
  */
  lemma {:induction false} CountersAreAStack(m: Machine, nodes: seq<Node>)
    requires WellFormed(nodes) && m.validatedDepth <= m.conditionDepth
    ensures Turns(m, Flatten(nodes)) == After(m, Meaning(m.store, nodes, Live(m)))
    decreases nodes
  {
    hide Turn, Turns, FlattenNode, MeaningNode;
    if nodes == [] {
      TurnsNone(m);
      assert m.marks + [] == m.marks;
    } else {
      var r := MeaningNode(m.store, nodes[0], Live(m));
      var n := After(m, r);
      TurnsAppend(m, FlattenNode(nodes[0]), Flatten(nodes[1..]));
      NodeIsAStack(m, nodes[0]);
      CountersAreAStack(n, nodes[1..]);
      var q := Meaning(n.store, nodes[1..], Live(m));
      assert m.marks + r.1 + q.1 == m.marks + (r.1 + q.1);
    }
  }

  lemma TurnsNone(m: Machine)
    ensures Turns(m, []) == m
  {
  }

  lemma TurnsOne(m: Machine, i: Instruction)
    ensures Turns(m, [i]) == Turn(m, i)
  {
    hide Turn;
    assert [i][1..] == [];
    TurnsNone(Turn(m, i));
  }

  lemma {:induction false} NodeIsAStack(m: Machine, node: Node)
    requires WellFormedNode(node) && m.validatedDepth <= m.conditionDepth
    ensures Turns(m, FlattenNode(node)) == After(m, MeaningNode(m.store, node, Live(m)))
    decreases node
  {
    hide Turns;
    match node
    case One(w) => TurnsOne(m, w);
    case Block(start, body) =>
      hide Effect;
      var open := Live(m) && Opens(m.store, start);
      var inside := Enter(m, open);
      assert Turn(m, start) == inside;
      CountersAreAStack(inside, body);
      BlockTurns(m, start, body);
      var r := Meaning(m.store, body, open);
      assert m.marks + [Finished(!open)] + r.1 + [Unmarked] == m.marks + ([Finished(!open)] + r.1 + [Unmarked]);
  }

  lemma BlockTurns(m: Machine, start: Instruction, body: seq<Node>)
    ensures Turns(m, FlattenNode(Block(start, body))) == Turn(Turns(Turn(m, start), Flatten(body)), BlockEnd)
  {
    hide Turn, Turns;
    TurnsAppend(m, [start] + Flatten(body), [BlockEnd]);
    TurnsAppend(m, [start], Flatten(body));
    TurnsOne(m, start);
    TurnsOne(Turns(m, [start] + Flatten(body)), BlockEnd);
  }

  /** DoWrites on a stream of complete blocks. */
  method DoWrites(store: Store, instructions: seq<Instruction>, ghost nodes: seq<Node>)
      returns (store': Store, marks: seq<Mark>)
    requires WellFormed(nodes) && instructions == Flatten(nodes)
    ensures (store', marks) == Meaning(store, nodes, true)
    ensures |nodes| == 1 && nodes[0].One? && nodes[0].write.Write? && Takes(store, nodes[0].write) ==>
      Written(store, nodes[0].write, store') && marks == [Finished(false)]
    ensures forall key :: !Touches(nodes, key) ==> Same(store, store', key)
  {
    hide Flatten, Meaning, Effect, Turns;
    var conditionDepth, validatedDepth, i := 0, 0, 0;
    store', marks := store, [];
    ghost var start := Machine(store, 0, 0, []);
    assert instructions[0..] == instructions;
    while i < |instructions|
      invariant 0 <= i <= |instructions|
      invariant Turns(Machine(store', conditionDepth, validatedDepth, marks), instructions[i..])
        == Turns(start, instructions)
    {
      var instruction := instructions[i];
      ghost var m := Machine(store', conditionDepth, validatedDepth, marks);
      TurnsFirst(m, instructions, i);
      i := i + 1;
      if instruction.BlockEnd? {
        conditionDepth := conditionDepth - 1;
        if validatedDepth > conditionDepth {
          validatedDepth := validatedDepth - 1;
        }
        marks := marks + [Unmarked];
        continue;
      }
      var validated := conditionDepth == validatedDepth;
      if instruction.StartConditionBlock? || instruction.Write? {
        validated := LookUp(store', instruction.key, instruction.condition, validated);
      }
      var failed := !validated;
      if instruction.Write? {
        if validated {
          failed := instruction.operation.Delete? && instruction.key !in store';
          if !failed { store' := Effect(store', instruction); }
        }
      } else {
        if validated {
          validatedDepth := validatedDepth + 1;
        }
        conditionDepth := conditionDepth + 1;
      }
      marks := marks + [Finished(failed)];
    }
    TurnsNone(Machine(store', conditionDepth, validatedDepth, marks));
    assert instructions[i..] == [];
    CountersAreAStack(start, nodes);
    assert [] + Meaning(store, nodes, true).1 == Meaning(store, nodes, true).1;
    if |nodes| == 1 && nodes[0].One? && nodes[0].write.Write? {
      assert nodes == [One(nodes[0].write)];
      OneWrite(store, nodes[0].write);
    }
    forall key | !Touches(nodes, key) ensures Same(store, store', key) {
      OthersStay(store, nodes, true, key);
    }
  }

  lemma TurnsFirst(m: Machine, instructions: seq<Instruction>, i: nat)
    requires i < |instructions|
    ensures Turns(m, instructions[i..]) == Turns(Turn(m, instructions[i]), instructions[i + 1..])
  {
    hide Turn;
    assert instructions[i..][1..] == instructions[i + 1..];
  }
}
