/**
The copy primitives of the LZ4 decoder: strided copies that overshoot their end on purpose, and the
table-driven start of an overlapping match. Each is proved against `m`, the history that the match
should produce byte by byte, laid over the buffer: buffer index k holds m[k].
*/
module Lz4Copy {
  import opened Bytes
  import opened Lz4Format

  twostate predicate OnlyWithin(buf: array<byte>, from: int, to: int)
    reads buf
  {
    forall k :: 0 <= k < buf.Length && !(from <= k < to) ==> buf[k] == old(buf[k])
  }

  /** buf[from..to] holds the bytes of `m`. */
  ghost predicate Holds(buf: array<byte>, m: seq<byte>, from: int, to: int)
    reads buf
  {
    && 0 <= from <= to <= buf.Length && to <= |m|
    && forall k :: from <= k < to ==> buf[k] == m[k]
  }

  /** From `from` to `to`, `m` repeats itself at distance `d`. */
  ghost predicate Repeats(m: seq<byte>, from: int, to: int, d: int) {
    && 0 <= d <= from && to <= |m|
    && forall i, k :: from <= k < to && i == k - d ==> m[k] == m[i]
  }

  /** From `from` to `to`, `m` is a match copied from `offset` back (zeros when the offset is zero). */
  ghost predicate Matches(m: seq<byte>, from: int, to: int, offset: nat) {
    if offset == 0 then 0 <= from && to <= |m| && forall k :: from <= k < to ==> m[k] == 0
    else Repeats(m, from, to, offset)
  }

  /** A match of period `offset` also repeats at every multiple of the offset. */
  lemma {:induction false} MultipleRepeats(m: seq<byte>, from: int, to: int, offset: nat, times: nat)
    requires Repeats(m, from, to, offset) && offset > 0 && times >= 1
    ensures Repeats(m, from + (times - 1) * offset, to, times * offset)
    decreases times
  {
    if times > 1 {
      MultipleRepeats(m, from, to, offset, times - 1);
      var start, d := from + (times - 2) * offset, (times - 1) * offset;
      assert start + offset == from + (times - 1) * offset && d + offset == times * offset;
      RepeatsOnceMore(m, from, start, to, offset, d);
    } else {
      assert (times - 1) * offset == 0 && times * offset == offset;
    }
  }

  lemma RepeatsOnceMore(m: seq<byte>, from: int, start: int, to: int, offset: nat, d: nat)
    requires Repeats(m, from, to, offset) && Repeats(m, start, to, d) && from <= start
    ensures Repeats(m, start + offset, to, d + offset)
  {
    forall i, k | start + offset <= k < to && i == k - (d + offset) ensures m[k] == m[i] {
      assert m[k] == m[k - offset];
      assert m[k - offset] == m[i];
    }
  }

  // ---------------------------------------------------------------- copies out of the input

  method CopyIn(buf: array<byte>, d: nat, src: seq<byte>, s: nat, n: nat)
    requires d + n <= buf.Length && s + n <= |src|
    modifies buf
    ensures forall k :: d <= k < d + n ==> buf[k] == src[s + k - d]
    ensures OnlyWithin(buf, d, d + n)
  {
    forall k | d <= k < d + n { buf[k] := src[s + k - d]; }
  }

  lemma Copied(buf: array<byte>, d: nat, src: seq<byte>, s: nat, n: nat)
    requires d + n <= buf.Length && s + n <= |src|
    requires forall k :: d <= k < d + n ==> buf[k] == src[s + k - d]
    ensures buf[d..d + n] == src[s..s + n]
  {
    var l, r := buf[d..d + n], src[s..s + n];
    forall k | 0 <= k < n ensures l[k] == r[k] {
      assert buf[d + k] == src[s + (d + k) - d];
    }
  }

  /** LZ4_wildCopy8 / LZ4_wildCopy32 from the input, in strides of `stride` that overshoot the end. */
  method WildCopyIn(buf: array<byte>, d: nat, e: nat, src: seq<byte>, s: nat, stride: nat)
    requires d <= e && stride > 0
    requires Max(d, e - 1) + stride <= buf.Length && s + (Max(d, e - 1) - d) + stride <= |src|
    modifies buf
    ensures forall k :: d <= k < e ==> buf[k] == src[s + k - d]
    ensures OnlyWithin(buf, d, Max(d, e - 1) + stride)
  {
    var n := 0;
    while true
      invariant 0 <= n && (n == 0 || d + n < e)
      invariant forall k :: d <= k < d + n ==> buf[k] == src[s + k - d]
      invariant OnlyWithin(buf, d, Max(d, e - 1) + stride)
      decreases e - d - n
    {
      CopyIn(buf, d + n, src, s + n, stride);
      n := n + stride;
      if d + n >= e { break; }
    }
  }

  // ---------------------------------------------------------------- copies within the buffer

  /** memcpy of `n` bytes that does not overlap, `shift` bytes forward. */
  method CopyWithin(buf: array<byte>, d: nat, shift: nat, n: nat, ghost m: seq<byte>, ghost from: int)
    requires n <= shift <= d - from && d + n <= buf.Length
    requires Holds(buf, m, from, d) && Repeats(m, d, d + n, shift)
    modifies buf
    ensures Holds(buf, m, from, d + n)
    ensures OnlyWithin(buf, d, d + n)
  {
    forall k | d <= k < d + n { buf[k] := buf[k - shift]; }
    forall k | from <= k < d + n ensures buf[k] == m[k] {
      if d <= k { assert old(buf[k - shift]) == m[k - shift]; }
    }
  }

  /** LZ4_wildCopy8 within the buffer; stores stay below Max(d, e - 1) + 8. */
  method WildCopy8(buf: array<byte>, d: nat, e: int, shift: nat, ghost m: seq<byte>, ghost from: int)
    requires 8 <= shift <= d - from
    requires Max(d, e - 1) + 8 <= buf.Length
    requires Holds(buf, m, from, d) && Repeats(m, d, Max(d, e - 1) + 8, shift)
    modifies buf
    ensures Holds(buf, m, from, Max(d, e))
    ensures OnlyWithin(buf, d, Max(d, e - 1) + 8)
  {
    var x := d;
    while true
      invariant d <= x && (x == d || x < e)
      invariant Holds(buf, m, from, x)
      invariant OnlyWithin(buf, d, Max(d, e - 1) + 8)
      decreases e - x
    {
      CopyWithin(buf, x, shift, 8, m, from);
      x := x + 8;
      if x >= e { break; }
    }
  }

  /** LZ4_wildCopy32 within the buffer: two 16-byte copies a round, so that offsets from 16 on are safe. */
  method WildCopy32(buf: array<byte>, d: nat, e: nat, shift: nat, ghost m: seq<byte>, ghost from: int)
    requires 16 <= shift <= d - from
    requires d < e && e - 1 + 32 <= buf.Length
    requires Holds(buf, m, from, d) && Repeats(m, d, e - 1 + 32, shift)
    modifies buf
    ensures Holds(buf, m, from, e)
    ensures OnlyWithin(buf, d, e - 1 + 32)
  {
    var x := d;
    while true
      invariant d <= x < e
      invariant Holds(buf, m, from, x)
      invariant OnlyWithin(buf, d, e - 1 + 32)
      decreases e - x
    {
      CopyWithin(buf, x, shift, 16, m, from);
      CopyWithin(buf, x + 16, shift, 16, m, from);
      x := x + 32;
      if x >= e { break; }
    }
  }

  /** Byte-by-byte copy from `shift` back. */
  method CopyBytes(buf: array<byte>, d: nat, e: nat, shift: nat, ghost m: seq<byte>, ghost from: int)
    requires 0 < shift <= d - from && d <= e <= buf.Length
    requires Holds(buf, m, from, d) && Repeats(m, d, e, shift)
    modifies buf
    ensures Holds(buf, m, from, e)
    ensures OnlyWithin(buf, d, e)
  {
    var x := d;
    while x < e
      invariant d <= x <= e
      invariant Holds(buf, m, from, x)
      invariant OnlyWithin(buf, d, e)
    {
      buf[x] := buf[x - shift];
      x := x + 1;
    }
  }

  const inc32table := [0, 1, 2, 1, 0, 4, 4, 4]
  const dec64table := [0, 0, 0, -1, -4, 1, 2, 3]

  /** Distance of the second 4-byte copy, and of everything after the first 8 bytes. */
  lemma TableDistances(offset: nat)
    requires offset < 8
    ensures var d4, d8 := 4 + offset - inc32table[offset], 8 + offset - inc32table[offset] + dec64table[offset];
      && 4 <= d4 <= 8 && 8 <= d8 <= 14
      && (offset == 0 ==> d4 == 4 && d8 == 8)
      && (offset == 1 ==> d4 == 4 && d8 == 8)
      && (offset == 2 ==> d4 == 4 && d8 == 8)
      && (offset == 3 ==> d4 == 6 && d8 == 9)
      && (offset == 4 ==> d4 == 8 && d8 == 8)
      && (offset >= 5 ==> d4 == offset && d8 == 2 * offset)
  {
  }

  lemma TableRepeats(m: seq<byte>, op: int, to: int, offset: nat)
    requires offset < 8 && Matches(m, op, to, offset) && op + 8 <= to
    ensures Repeats(m, op + 4, op + 8, 4 + offset - inc32table[offset])
    ensures Repeats(m, op + 8, to, 8 + offset - inc32table[offset] + dec64table[offset])
  {
    TableDistances(offset);
    if offset != 0 {
      var t4 := if offset == 1 then 4 else if offset <= 4 then 2 else 1;
      var t8 := if offset == 1 then 8 else if offset == 2 then 4 else if offset == 3 then 3 else 2;
      MultipleRepeats(m, op, to, offset, t4);
      MultipleRepeats(m, op, to, offset, t8);
    }
  }

  /** Four bytes cleared, then copied one by one from `offset` back. */
  method CopyFirst4(buf: array<byte>, op: nat, offset: nat, ghost m: seq<byte>, ghost from: int)
    requires offset < 8 && offset <= op - from && op + 4 <= buf.Length
    requires Holds(buf, m, from, op) && Matches(m, op, op + 4, offset)
    modifies buf
    ensures Holds(buf, m, from, op + 4)
    ensures OnlyWithin(buf, op, op + 4)
  {
    buf[op], buf[op + 1], buf[op + 2], buf[op + 3] := 0, 0, 0, 0;
    var match_ := op - offset;
    buf[op] := buf[match_];
    assert offset != 0 ==> m[op] == m[op - offset];
    buf[op + 1] := buf[match_ + 1];
    assert offset != 0 ==> m[op + 1] == m[op + 1 - offset];
    buf[op + 2] := buf[match_ + 2];
    assert offset != 0 ==> m[op + 2] == m[op + 2 - offset];
    buf[op + 3] := buf[match_ + 3];
    assert offset != 0 ==> m[op + 3] == m[op + 3 - offset];
    assert buf[op] == m[op] && buf[op + 1] == m[op + 1] && buf[op + 2] == m[op + 2] && buf[op + 3] == m[op + 3];
  }

  /** The first 8 bytes of a match of offset below 8; returns the distance that serves the rest. */
  method CopyFirst8(buf: array<byte>, op: nat, offset: nat, ghost m: seq<byte>, ghost from: int, ghost to: int)
    returns (shift: nat)
    requires offset < 8 && offset <= op - from && op + 8 <= to <= buf.Length
    requires Holds(buf, m, from, op) && Matches(m, op, to, offset)
    modifies buf
    ensures Holds(buf, m, from, op + 8)
    ensures OnlyWithin(buf, op, op + 8)
    ensures 8 <= shift <= 8 + offset && Repeats(m, op + 8, to, shift)
  {
    CopyFirst4(buf, op, offset, m, from);
    var match_ := op - offset;
    TableDistances(offset);
    TableRepeats(m, op, to, offset);
    match_ := match_ + inc32table[offset];
    CopyWithin(buf, op + 4, op + 4 - match_, 4, m, from);
    match_ := match_ - dec64table[offset];
    shift := op + 8 - match_;
  }

  /** LZ4_memcpy_using_offset: a match of offset below 16, written in strides of 8. */
  method CopyUsingOffset(buf: array<byte>, op: nat, e: nat, offset: nat, ghost m: seq<byte>, ghost from: int)
    requires offset < 16 && offset <= op - from && op + MINMATCH <= e && e + 16 <= buf.Length
    requires Holds(buf, m, from, op) && Matches(m, op, e + 16, offset)
    modifies buf
    ensures Holds(buf, m, from, e)
    ensures OnlyWithin(buf, op, e + 16)
  {
    var shift;
    if offset == 1 || offset == 2 || offset == 4 {
      CopyPattern(buf, op, e, offset, m, from);
    } else if offset < 8 {
      shift := CopyFirst8(buf, op, offset, m, from, e + 16);
      WildCopy8(buf, op + 8, e, shift, m, from);
    } else {
      MultipleRepeats(m, op, e + 16, offset, 1);
      CopyWithin(buf, op, offset, 8, m, from);
      WildCopy8(buf, op + 8, e, offset, m, from);
    }
  }

  /** The 1-, 2- and 4-byte patterns: eight bytes are built once and stored repeatedly. */
  method CopyPattern(buf: array<byte>, op: nat, e: nat, offset: nat, ghost m: seq<byte>, ghost from: int)
    requires (offset == 1 || offset == 2 || offset == 4) && offset <= op - from
    requires op <= e && e + 8 <= buf.Length
    requires Holds(buf, m, from, op) && Matches(m, op, e + 8, offset)
    modifies buf
    ensures Holds(buf, m, from, e)
    ensures OnlyWithin(buf, op, e + 8)
  {
    var a := buf[op - offset];
    var v := [a, a, a, a, a, a, a, a];
    if offset == 2 {
      var b := buf[op - 1];
      v := [a, b, a, b, a, b, a, b];
    } else if offset == 4 {
      var b, c, d := buf[op - 3], buf[op - 2], buf[op - 1];
      v := [a, b, c, d, a, b, c, d];
    }
    assert v[..offset] == m[op - offset..op];
    PatternBytes(m, op, e + 8, offset, v);
    StorePattern(buf, op, e, v, m, from);
  }

  method StorePattern(buf: array<byte>, op: nat, e: nat, v: seq<byte>, ghost m: seq<byte>, ghost from: int)
    requires |v| == 8 && op <= e && e + 8 <= buf.Length
    requires Holds(buf, m, from, op) && Repeats(m, op + 8, e + 8, 8) && m[op..op + 8] == v
    modifies buf
    ensures Holds(buf, m, from, e)
    ensures OnlyWithin(buf, op, e + 8)
  {
    var x := op;
    while true
      invariant op <= x && (x == op || x < e)
      invariant Holds(buf, m, from, x)
      invariant m[x..x + 8] == v
      invariant OnlyWithin(buf, op, e + 8)
      decreases e - x
    {
      CopyIn(buf, x, v, 0, 8);
      assert Holds(buf, m, from, x + 8) by {
        forall k | x <= k < x + 8 ensures buf[k] == m[k] { assert m[x..x + 8][k - x] == v[k - x]; }
      }
      x := x + 8;
      if x >= e { break; }
      forall k | 0 <= k < 8 ensures m[x..x + 8][k] == v[k] {
        assert m[x - 8..x][k] == v[k] && m[x + k] == m[x + k - 8];
      }
    }
  }

  lemma PatternBytes(m: seq<byte>, op: int, to: int, offset: nat, v: seq<byte>)
    requires (offset == 1 || offset == 2 || offset == 4) && Matches(m, op, to, offset) && op + 8 <= to
    requires |v| == 8
    requires v[..offset] == m[op - offset..op]
    requires Repeats(v, offset, 8, offset)
    ensures Repeats(m, op + 8, to, 8)
    ensures m[op..op + 8] == v
  {
    var t := if offset == 1 then 8 else if offset == 2 then 4 else 2;
    MultipleRepeats(m, op, to, offset, t);
    var n := 0;
    while n < 8
      invariant 0 <= n <= 8
      invariant m[op..op + n] == v[..n]
    {
      PatternByte(m, op, to, offset, v, n);
      assert m[op..op + n + 1] == m[op..op + n] + [m[op + n]];
      assert v[..n + 1] == v[..n] + [v[n]];
      n := n + 1;
    }
  }

  lemma PatternByte(m: seq<byte>, op: int, to: int, offset: nat, v: seq<byte>, n: nat)
    requires Repeats(m, op, to, offset) && 0 < offset < 8 && op + 8 <= to && n < 8
    requires |v| == 8
    requires v[..offset] == m[op - offset..op]
    requires Repeats(v, offset, 8, offset)
    requires m[op..op + n] == v[..n]
    ensures m[op + n] == v[n]
  {
    var i := op + n - offset;
    assert m[op + n] == m[i];
    if n >= offset {
      var j := n - offset;
      assert m[op..op + n][j] == v[..n][j];
      assert v[n] == v[j];
    } else {
      assert v[..offset][n] == m[op - offset..op][n];
    }
  }
}
