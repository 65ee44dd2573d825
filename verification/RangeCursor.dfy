/**
Ranges over a sorted store: how the native cursor positions, skips, ends and counts, and how the JavaScript
iterator draws entries from it up to a limit, against the keys that lie in the range.
An empty key stands for an absent start or end.
*/
module RangeCursor {
  import opened Bytes
  import opened KeyOrder

  type Key = seq<byte>

  predicate Below(a: Key, b: Key) { Lex(a, b) == Less }

  ghost predicate Sorted(keys: seq<Key>) {
    forall i, j :: 0 <= i < j < |keys| ==> Below(keys[i], keys[j])
  }

  // ---------------------------------------------------------------- what a range holds

  /** Forward from start (inclusive) up to end; in reverse from start (inclusive) down to end. */
  predicate InRange(k: Key, start: Key, end: Key, reverse: bool) {
    if reverse then (start == [] || !Below(start, k)) && (end == [] || Below(end, k))
    else (start == [] || !Below(k, start)) && (end == [] || Below(k, end))
  }

  function Filter(keys: seq<Key>, start: Key, end: Key, reverse: bool): seq<Key> {
    if keys == [] then []
    else
      var n := |keys| - 1;
      Filter(keys[..n], start, end, reverse) + (if InRange(keys[n], start, end, reverse) then [keys[n]] else [])
  }

  function Reversed(keys: seq<Key>): (r: seq<Key>)
    ensures |r| == |keys|
  {
    seq(|keys|, i requires 0 <= i < |keys| => keys[|keys| - 1 - i])
  }

  /** The keys of the range in the order a reader sees them. */
  function Range(keys: seq<Key>, start: Key, end: Key, reverse: bool): seq<Key> {
    var r := Filter(keys, start, end, reverse);
    if reverse then Reversed(r) else r
  }

  lemma {:induction false} FilterKeeps(keys: seq<Key>, start: Key, end: Key, reverse: bool)
    ensures forall k :: k in Filter(keys, start, end, reverse) <==> k in keys && InRange(k, start, end, reverse)
    ensures Sorted(keys) ==> Sorted(Filter(keys, start, end, reverse))
  {
    hide Below, InRange;
    if keys != [] {
      var n := |keys| - 1;
      FilterKeeps(keys[..n], start, end, reverse);
      assert keys == keys[..n] + [keys[n]];
      var front := Filter(keys[..n], start, end, reverse);
      if Sorted(keys) {
        forall i | 0 <= i < |front| ensures Below(front[i], keys[n]) {
          assert front[i] in keys[..n];
        }
      }
    }
  }

  /** Descending order. */
  ghost predicate Falling(keys: seq<Key>) {
    forall i, j :: 0 <= i < j < |keys| ==> Below(keys[j], keys[i])
  }

  /**
  A range holds the keys of the interval and no others, [start, end) ascending or (end, start] descending, in terms of
  the order of the keys alone.
  */
  lemma RangeIsInterval(keys: seq<Key>, start: Key, end: Key, reverse: bool, k: Key)
    requires Sorted(keys)
    ensures var r := Range(keys, start, end, reverse);
      && (k in r <==>
          (&& k in keys
           && (start == [] || k == start || Lex(k, start) == (if reverse then Less else Greater))
           && (end == [] || Lex(k, end) == (if reverse then Greater else Less))))
      && (if reverse then Falling(r) else Sorted(r))
  {
    hide Lex, Filter;
    FilterKeeps(keys, start, end, reverse);
    TotalOrder(k, start, k);
    TotalOrder(start, k, start);
    TotalOrder(k, end, k);
    TotalOrder(end, k, end);
    var f := Filter(keys, start, end, reverse);
    ReversedKeeps(f, k);
  }

  lemma ReversedKeeps(f: seq<Key>, k: Key)
    ensures k in Reversed(f) <==> k in f
    ensures Sorted(f) ==> Falling(Reversed(f))
  {
    hide Below;
    var r := Reversed(f);
    if k in f {
      var i :| 0 <= i < |f| && f[i] == k;
      assert r[|f| - 1 - i] == k;
    }
  }

  /** In a sorted store a range is a slice. */
  lemma {:induction false} FilterIsSlice(keys: seq<Key>, start: Key, end: Key, reverse: bool, lo: nat, hi: nat)
    requires lo <= hi <= |keys|
    requires forall i :: 0 <= i < |keys| ==> (InRange(keys[i], start, end, reverse) <==> lo <= i < hi)
    ensures Filter(keys, start, end, reverse) == keys[lo..hi]
  {
    if keys != [] {
      var n := |keys| - 1;
      var front := keys[..n];
      if hi == n + 1 && lo <= n {
        FilterIsSlice(front, start, end, reverse, lo, n);
        SliceEnd(keys, lo, n);
      } else if hi == n + 1 {
        FilterIsSlice(front, start, end, reverse, n, n);
        assert front[n..n] == [];
      } else {
        FilterIsSlice(front, start, end, reverse, lo, hi);
        SliceFront(keys, lo, hi, n);
      }
    }
  }

  lemma SliceEnd(keys: seq<Key>, lo: nat, n: nat)
    requires lo <= n < |keys|
    ensures keys[lo..n + 1] == keys[..n][lo..n] + [keys[n]]
  {
  }

  lemma SliceFront(keys: seq<Key>, lo: nat, hi: nat, n: nat)
    requires lo <= hi <= n <= |keys|
    ensures keys[lo..hi] == keys[..n][lo..hi]
  {
  }

  // ---------------------------------------------------------------- order

  lemma BelowAsymmetric(a: Key, b: Key)
    ensures Below(a, b) ==> !Below(b, a)
    ensures !Below(a, b) && !Below(b, a) ==> a == b
    ensures !Below(a, a)
  {
    hide Lex;
    TotalOrder(a, b, a);
    TotalOrder(b, a, b);
    TotalOrder(a, a, a);
  }

  /** Number of keys below `k`: where MDB_SET_RANGE lands. */
  function CountBelow(keys: seq<Key>, k: Key): (n: nat)
    ensures n <= |keys|
  {
    if keys == [] || !Below(keys[0], k) then 0 else 1 + CountBelow(keys[1..], k)
  }

  lemma {:induction false} CountBelowSplits(keys: seq<Key>, k: Key, i: nat)
    requires Sorted(keys) && i < |keys|
    ensures Below(keys[i], k) <==> i < CountBelow(keys, k)
  {
    hide Lex;
    if !Below(keys[0], k) {
      if i > 0 && Below(keys[i], k) {
        assert Below(keys[0], keys[i]);
        TotalOrder(keys[0], keys[i], k);
      }
    } else if i > 0 {
      assert forall a, b :: 0 <= a < b < |keys[1..]| ==> Below(keys[1..][a], keys[1..][b]);
      CountBelowSplits(keys[1..], k, i - 1);
    }
  }

  /** Number of keys at or below `k`. */
  function CountUpTo(keys: seq<Key>, k: Key): (n: nat)
    ensures n <= |keys|
  {
    var n := CountBelow(keys, k);
    if n < |keys| && keys[n] == k then n + 1 else n
  }

  lemma CountUpToSplits(keys: seq<Key>, k: Key, i: nat)
    requires Sorted(keys) && i < |keys|
    ensures Below(k, keys[i]) <==> i >= CountUpTo(keys, k)
  {
    hide Lex, Below;
    var n := CountBelow(keys, k);
    CountBelowSplits(keys, k, i);
    BelowAsymmetric(k, keys[i]);
    BelowAsymmetric(keys[i], k);
    if n < |keys| {
      CountBelowSplits(keys, k, n);
      BelowAsymmetric(k, keys[n]);
    }
  }

  // ---------------------------------------------------------------- where a range lies

  /** Index of the first entry read, from which reading goes on up or down. */
  function First(keys: seq<Key>, start: Key, reverse: bool): int {
    if reverse then (if start == [] then |keys| else CountUpTo(keys, start)) - 1
    else if start == [] then 0 else CountBelow(keys, start)
  }

  /** Index of entry number `n` from there. */
  function Place(keys: seq<Key>, start: Key, reverse: bool, n: nat): int {
    if reverse then First(keys, start, reverse) - n else First(keys, start, reverse) + n
  }

  /** Entry number `n` of the range lies `n` places from the first, if there is one and it is not past the end. */
  function Entry(keys: seq<Key>, start: Key, end: Key, reverse: bool, n: nat): Option<Key> {
    var i := Place(keys, start, reverse, n);
    if 0 <= i < |keys| && !Past(keys[i], end, reverse) then Some(keys[i]) else None
  }

  /** The end test of returnEntry. */
  predicate Past(k: Key, end: Key, reverse: bool) {
    end != [] && (if reverse then !Below(end, k) else !Below(k, end))
  }

  function Get(keys: seq<Key>, n: nat): Option<Key> { if n < |keys| then Some(keys[n]) else None }

  lemma ForwardIsSlice(keys: seq<Key>, start: Key, end: Key)
    requires Sorted(keys)
    ensures var lo := First(keys, start, false); var hi := if end == [] then |keys| else CountBelow(keys, end);
      Filter(keys, start, end, false) == keys[lo..Max(lo, hi)]
  {
    hide Lex, Below, Filter, CountBelow;
    var lo, hi := First(keys, start, false), if end == [] then |keys| else CountBelow(keys, end);
    forall i | 0 <= i < |keys| ensures InRange(keys[i], start, end, false) <==> lo <= i < Max(lo, hi) {
      CountBelowSplits(keys, start, i);
      CountBelowSplits(keys, end, i);
    }
    FilterIsSlice(keys, start, end, false, lo, Max(lo, hi));
  }

  lemma ReverseIsSlice(keys: seq<Key>, start: Key, end: Key)
    requires Sorted(keys)
    ensures var hi := First(keys, start, true) + 1; var lo := if end == [] then 0 else CountUpTo(keys, end);
      Filter(keys, start, end, true) == keys[Min(lo, hi)..hi]
  {
    hide Lex, Below, Filter, CountUpTo;
    var hi, lo := First(keys, start, true) + 1, if end == [] then 0 else CountUpTo(keys, end);
    forall i | 0 <= i < |keys| ensures InRange(keys[i], start, end, true) <==> Min(lo, hi) <= i < hi && lo <= i {
      CountUpToSplits(keys, start, i);
      CountUpToSplits(keys, end, i);
    }
    if lo <= hi {
      FilterIsSlice(keys, start, end, true, lo, hi);
    } else {
      FilterIsSlice(keys, start, end, true, hi, hi);
    }
  }

  /** Reading entry by entry from the first, up to the end test, reads the range. */
  lemma EntryOfRange(keys: seq<Key>, start: Key, end: Key, reverse: bool, n: nat)
    requires Sorted(keys)
    ensures Entry(keys, start, end, reverse, n) == Get(Range(keys, start, end, reverse), n)
  {
    hide Lex, Below, Filter, CountBelow, CountUpTo;
    if reverse {
      ReverseIsSlice(keys, start, end);
      var i := First(keys, start, true) - n;
      if 0 <= i < |keys| { CountUpToSplits(keys, end, i); }
    } else {
      ForwardIsSlice(keys, start, end);
      var i := First(keys, start, false) + n;
      if i < |keys| { CountBelowSplits(keys, end, i); }
    }
  }

  // ---------------------------------------------------------------- the cursor

  /** A native cursor on a store without duplicates: LMDB's position, and whether the last move found an entry. */
  class Cursor {
    const keys: seq<Key>
    var index: int
    var found: bool
    var reverse: bool
    var endKey: Key

    constructor (keys: seq<Key>)
      ensures this.keys == keys
    {
      this.keys := keys;
      index, found, reverse, endKey := -1, false, false, [];
    }

    ghost predicate At(i: int)
      reads this
    {
      (found <==> 0 <= i < |keys|) && (found ==> index == i)
    }

    /** Moves to entry `i`, or finds nothing. */
    method MoveTo(i: int)
      modifies this`index, this`found
      ensures At(i)
    {
      found := 0 <= i < |keys|;
      if found { index := i; }
    }

    /** iteratingOp: MDB_PREV or MDB_NEXT. */
    method Step()
      requires found && 0 <= index < |keys|
      modifies this`index, this`found
      ensures At(if reverse then old(index) - 1 else old(index) + 1)
    {
      MoveTo(if reverse then index - 1 else index + 1);
    }

    /** returnEntry: nothing at the end of the store or of the range. */
    method ReturnEntry() returns (r: Option<Key>)
      requires found ==> 0 <= index < |keys|
      ensures r == if found && !Past(keys[index], endKey, reverse) then Some(keys[index]) else None
    {
      r := None;
      if found && !(endKey != [] && (if reverse then !Below(endKey, keys[index]) else !Below(keys[index], endKey))) {
        r := Some(keys[index]);
      }
    }

    /** The first part of doPosition: finds the first entry. */
    method Seek(start: Key)
      requires Sorted(keys)
      modifies this`index, this`found
      ensures At(First(keys, start, reverse))
    {
      hide Lex, Below;
      if start == [] {
        MoveTo(if reverse then |keys| - 1 else 0); // MDB_LAST or MDB_FIRST
      } else {
        var n := CountBelow(keys, start);
        MoveTo(n); // MDB_SET_RANGE
        if reverse {
          if !found {
            MoveTo(|keys| - 1); // MDB_LAST
          } else if start != keys[index] {
            Step(); // found the entry after the start
          }
        }
      }
    }

    /** doPosition without counting: finds the first entry, skips `offset` more, and returns the entry there. */
    method DoPosition(start: Key, end: Key, reverse: bool, offset: nat) returns (r: Option<Key>)
      requires Sorted(keys)
      modifies this
      ensures this.reverse == reverse && endKey == end
      ensures r == Entry(keys, start, end, reverse, offset)
      ensures r.Some? ==> found && At(Place(keys, start, reverse, offset))
    {
      hide Lex, Below, First;
      this.reverse, endKey := reverse, end;
      Skip(start, offset);
      r := ReturnEntry();
    }

    method Skip(start: Key, offset: nat)
      requires Sorted(keys)
      modifies this`index, this`found
      ensures At(Place(keys, start, reverse, offset))
    {
      hide Lex, Below, First;
      Seek(start);
      FirstInside(keys, start, reverse);
      var skipped := 0;
      while skipped < offset && found
        invariant 0 <= skipped <= offset
        invariant At(Place(keys, start, reverse, skipped))
      {
        Step();
        skipped := skipped + 1;
      }
    }

    /** doPosition with the count flag: the number of entries from there to the end of the range. */
    method Count(start: Key, end: Key, reverse: bool, offset: nat) returns (count: nat)
      requires Sorted(keys)
      modifies this
      ensures count == Max(0, |Range(keys, start, end, reverse)| - offset)
    {
      hide Lex, Below, First, Range, Past;
      this.reverse, endKey := reverse, end;
      Skip(start, offset);
      ghost var range := Range(keys, start, end, reverse);
      count := 0;
      EntryOfRange(keys, start, end, reverse, offset);
      while found && !Past(keys[index], endKey, reverse)
        invariant this.reverse == reverse && endKey == end
        invariant At(Place(keys, start, reverse, offset + count))
        invariant count > 0 ==> offset + count <= |range|
        invariant Entry(keys, start, end, reverse, offset + count) == Get(range, offset + count)
        decreases |range| - count
      {
        Step();
        count := count + 1;
        EntryOfRange(keys, start, end, reverse, offset + count);
      }
    }

    /** iterate. */
    method Iterate(ghost start: Key, ghost n: nat) returns (r: Option<Key>)
      requires At(Place(keys, start, reverse, n)) && found
      modifies this`index, this`found
      ensures r == Entry(keys, start, endKey, reverse, n + 1)
      ensures r.Some? ==> found && At(Place(keys, start, reverse, n + 1))
    {
      hide Lex, Below, First;
      Step();
      r := ReturnEntry();
    }
  }

  lemma FirstInside(keys: seq<Key>, start: Key, reverse: bool)
    ensures if reverse then -1 <= First(keys, start, reverse) < |keys| else 0 <= First(keys, start, reverse) <= |keys|
  {
  }

  // ---------------------------------------------------------------- the iterator

  /** The JavaScript iterator of getRange over a snapshot. */
  class Iterator {
    const cursor: Cursor
    const start: Key
    const end: Key
    const reverse: bool
    const offset: nat
    const limit: Option<nat>
    var count: nat
    var done: bool

    ghost function All(): seq<Key> { Range(cursor.keys, start, end, reverse) }

    ghost predicate Valid()
      reads this, cursor
    {
      && Sorted(cursor.keys)
      && (!done && count > 0 ==> offset + count <= |All()|)
      && (!done && count > 0 ==>
            && cursor.found && cursor.reverse == reverse && cursor.endKey == end
            && cursor.At(Place(cursor.keys, start, reverse, offset + count - 1)))
    }

    constructor (keys: seq<Key>, start: Key, end: Key, reverse: bool, offset: nat, limit: Option<nat>)
      requires Sorted(keys)
      ensures Valid() && count == 0 && !done && fresh(cursor) && cursor.keys == keys
      ensures this.start == start && this.end == end && this.reverse == reverse && this.offset == offset
      ensures this.limit == limit
    {
      cursor := new Cursor(keys);
      this.start, this.end, this.reverse, this.offset, this.limit := start, end, reverse, offset, limit;
      count, done := 0, false;
    }

    /** next: positions on the first call, moves on afterwards, and stops at the limit. */
    method Next() returns (r: Option<Key>)
      requires Valid() && !done
      modifies this`count, this`done, cursor
      ensures Valid()
      ensures r.Some? <==> offset + old(count) < |All()| && (limit.Some? ==> old(count) < limit.value)
      ensures r.Some? ==> offset + old(count) < |All()| && r.value == All()[offset + old(count)]
      ensures done <==> r.None?
      ensures !done ==> count == old(count) + 1
    {
      hide Lex, Below, First, Range, Entry;
      EntryOfRange(cursor.keys, start, end, reverse, offset + count);
      if count == 0 {
        r := cursor.DoPosition(start, end, reverse, offset);
      } else {
        r := cursor.Iterate(start, offset + count - 1);
      }
      if r.None? || (limit.Some? && count >= limit.value) {
        r, done := None, true;
      }
      count := count + 1;
    }
  }

  /** Reading an iterator to its end yields the range, in order, after the offset and up to the limit. */
  method Collect(keys: seq<Key>, start: Key, end: Key, reverse: bool, offset: nat, limit: Option<nat>)
      returns (out: seq<Key>)
    requires Sorted(keys)
    ensures var rest := Max(0, |Range(keys, start, end, reverse)| - offset);
      |out| == if limit.Some? then Min(limit.value, rest) else rest
    ensures forall i :: 0 <= i < |out| ==>
      offset + i < |Range(keys, start, end, reverse)| && out[i] == Range(keys, start, end, reverse)[offset + i]
  {
    hide Sorted, Range;
    var it := new Iterator(keys, start, end, reverse, offset, limit);
    ghost var all := it.All();
    out := [];
    while !it.done
      invariant it.Valid() && fresh(it) && fresh(it.cursor) && it.All() == all
      invariant it.offset == offset && it.limit == limit
      invariant !it.done ==> it.count == |out|
      invariant limit.Some? ==> |out| <= limit.value
      invariant |out| > 0 ==> offset + |out| <= |all|
      invariant forall i :: 0 <= i < |out| ==> offset + i < |all| && out[i] == all[offset + i]
      invariant it.done ==> offset + |out| >= |all| || (limit.Some? && |out| == limit.value)
      decreases !it.done, |all| - |out|
    {
      var r := it.Next();
      if r.Some? { out := out + [r.value]; }
    }
  }

  // ---------------------------------------------------------------- duplicates

  /** A key of a dupsort store with its values. */
  datatype Group = Group(key: Key, values: seq<seq<byte>>)

  function Keys(groups: seq<Group>): (keys: seq<Key>)
    ensures |keys| == |groups|
  {
    seq(|groups|, i requires 0 <= i < |groups| => groups[i].key)
  }

  ghost predicate Grouped(groups: seq<Group>) {
    Sorted(Keys(groups)) && forall i :: 0 <= i < |groups| ==> groups[i].values != []
  }

  function PairsOf(g: Group): (pairs: seq<(Key, seq<byte>)>)
    ensures |pairs| == |g.values|
  {
    seq(|g.values|, i requires 0 <= i < |g.values| => (g.key, g.values[i]))
  }

  /** The key and value pairs of a forward range. */
  function PairsInRange(groups: seq<Group>, start: Key, end: Key): seq<(Key, seq<byte>)> {
    if groups == [] then []
    else
      var n := |groups| - 1;
      PairsInRange(groups[..n], start, end)
      + (if InRange(groups[n].key, start, end, false) then PairsOf(groups[n]) else [])
  }

  /** Number of pairs. */
  function Size(groups: seq<Group>): nat {
    if groups == [] then 0 else Size(groups[..|groups| - 1]) + |groups[|groups| - 1].values|
  }

  lemma {:induction false} PairsOfSlice(groups: seq<Group>, start: Key, end: Key, lo: nat, hi: nat)
    requires lo <= hi <= |groups|
    requires forall i :: 0 <= i < |groups| ==> (InRange(groups[i].key, start, end, false) <==> lo <= i < hi)
    ensures |PairsInRange(groups, start, end)| == Size(groups[lo..hi])
  {
    hide InRange, PairsOf, Size, PairsInRange;
    if groups == [] {
      PairsOfNone(start, end);
      assert groups[lo..hi] == [];
    } else {
      var n := |groups| - 1;
      PairsOfLast(groups, start, end);
      if lo < hi == n + 1 {
        PairsOfSlice(groups[..n], start, end, lo, n);
        SizeOfLast(groups, lo, n);
      } else {
        var top := Min(hi, n);
        PairsOfSlice(groups[..n], start, end, Min(lo, top), top);
        assert groups[lo..hi] == groups[..n][Min(lo, top)..top];
      }
    }
  }

  lemma PairsOfNone(start: Key, end: Key)
    ensures PairsInRange([], start, end) == [] && Size([]) == 0
  {
  }

  lemma PairsOfLast(groups: seq<Group>, start: Key, end: Key)
    requires groups != []
    ensures var n := |groups| - 1;
      |PairsInRange(groups, start, end)|
      == |PairsInRange(groups[..n], start, end)|
         + (if InRange(groups[n].key, start, end, false) then |groups[n].values| else 0)
  {
    hide InRange, PairsOf;
  }

  lemma SizeOfLast(groups: seq<Group>, lo: nat, n: nat)
    requires lo <= n < |groups|
    ensures Size(groups[lo..n + 1]) == Size(groups[..n][lo..n]) + |groups[n].values|
  {
    assert groups[lo..n + 1][..n - lo] == groups[..n][lo..n];
  }

  /** Where a forward count starts, and where it stops: the groups between hold exactly the pairs of the range. */
  lemma GroupsOfRange(groups: seq<Group>, start: Key, end: Key, hi: nat)
    requires Grouped(groups)
    requires var lo := First(Keys(groups), start, false);
      && lo <= hi <= |groups| && (forall i :: lo <= i < hi ==> !Past(groups[i].key, end, false))
      && (hi < |groups| ==> Past(groups[hi].key, end, false))
    ensures |PairsInRange(groups, start, end)| == Size(groups[First(Keys(groups), start, false)..hi])
  {
    hide Lex, Below, CountBelow;
    var keys, lo := Keys(groups), First(Keys(groups), start, false);
    forall i | 0 <= i < |groups| ensures InRange(groups[i].key, start, end, false) <==> lo <= i < hi {
      CountBelowSplits(keys, start, i);
      if hi < |groups| {
        CountBelowSplits(keys, end, hi);
        CountBelowSplits(keys, end, i);
      }
    }
    PairsOfSlice(groups, start, end, lo, hi);
  }

  lemma NoSize(groups: seq<Group>, lo: nat)
    requires lo <= |groups|
    ensures Size(groups[lo..lo]) == 0
  {
  }

  lemma SizeGrows(groups: seq<Group>, lo: nat, i: nat)
    requires lo <= i < |groups|
    ensures Size(groups[lo..i + 1]) == Size(groups[lo..i]) + |groups[i].values|
  {
    assert groups[lo..i + 1][..i - lo] == groups[lo..i];
  }

  /** Counting a forward range pair by pair, with MDB_NEXT. */
  method CountPairs(groups: seq<Group>, start: Key, end: Key) returns (count: nat)
    requires Grouped(groups)
    ensures count == |PairsInRange(groups, start, end)|
  {
    hide Lex, Below, Sorted, Keys, First, PairsInRange, Size;
    FirstInside(Keys(groups), start, false);
    var i, j := First(Keys(groups), start, false), 0;
    ghost var lo := i;
    count := 0;
    NoSize(groups, lo);
    while i < |groups| && !Past(groups[i].key, end, false)
      invariant lo <= i <= |groups| && (i < |groups| ==> 0 <= j < |groups[i].values|) && (i == |groups| ==> j == 0)
      invariant forall k :: lo <= k < i ==> !Past(groups[k].key, end, false)
      invariant count == Size(groups[lo..i]) + j
      invariant i < |groups| && j > 0 ==> !Past(groups[i].key, end, false)
      decreases |groups| - i, if i < |groups| then |groups[i].values| - j else 0
    {
      count := count + 1;
      if j + 1 < |groups[i].values| {
        j := j + 1;
      } else {
        SizeGrows(groups, lo, i);
        i, j := i + 1, 0;
      }
    }
    GroupsOfRange(groups, start, end, i);
  }

  /** The shortcut: one step per key, with MDB_NEXT_NODUP, adding the number of its values. */
  method CountByKey(groups: seq<Group>, start: Key, end: Key) returns (count: nat)
    requires Grouped(groups)
    ensures count == |PairsInRange(groups, start, end)|
  {
    hide Lex, Below, Sorted, Keys, First, PairsInRange, Size;
    FirstInside(Keys(groups), start, false);
    var i := First(Keys(groups), start, false);
    ghost var lo := i;
    count := 0;
    NoSize(groups, lo);
    while i < |groups| && !Past(groups[i].key, end, false)
      invariant lo <= i <= |groups| && count == Size(groups[lo..i])
      invariant forall k :: lo <= k < i ==> !Past(groups[k].key, end, false)
    {
      SizeGrows(groups, lo, i);
      count := count + |groups[i].values|;
      i := i + 1;
    }
    GroupsOfRange(groups, start, end, i);
  }
}
