/**
The history of an LZ4 frame decoder in linked-block mode: where the last 64 KB of output lie, in the caller's
buffers or in tmpOutBuffer. All buffers are ranges of one memory; pointers are indices into it.
*/
module Lz4FrameHistory {
  import opened Bytes
  import opened Lz4Format
  import opened Lz4Copy
  import Lz4Decoder

  const WINDOW := 64 * KB
  const NULL := -1

  function Keep(n: nat): nat { if n < WINDOW then n else WINDOW }

  /** The most recent bytes of `s`, up to 64 KB of them, end at `end`. */
  ghost predicate Window(m: seq<byte>, s: seq<byte>, end: int) {
    && Keep(|s|) <= end <= |m|
    && m[end - Keep(|s|)..end] == s[|s| - Keep(|s|)..]
  }

  /** A dictionary size for a history of `length` bytes: all of it, or at least 64 KB. */
  predicate Exact(size: nat, length: nat) { if length < WINDOW then size == length else size >= WINDOW }

  // ---------------------------------------------------------------- windows

  /** Output right behind a window extends it. */
  lemma WindowExtends(m: seq<byte>, s: seq<byte>, d: seq<byte>, end: nat)
    requires Window(m, s, end) && end + |d| <= |m| && m[end..end + |d|] == d
    ensures Window(m, s + d, end + |d|)
  {
    hide Window;
    WindowBytes(m, s, end);
    var k := Keep(|s|);
    Split(m, end - k, end, end + |d|);
    SuffixOfSum(s, d, k);
    WindowOfRun(m, s + d, end - k, end + |d|);
  }

  lemma WindowBytes(m: seq<byte>, s: seq<byte>, end: int)
    requires Window(m, s, end)
    ensures Keep(|s|) <= end <= |m| && m[end - Keep(|s|)..end] == s[|s| - Keep(|s|)..]
  {
  }

  lemma SuffixOfSum(s: seq<byte>, d: seq<byte>, k: nat)
    requires k <= |s|
    ensures (s + d)[|s + d| - (k + |d|)..] == s[|s| - k..] + d
  {
  }

  /** The end of a long enough run of recent output is a window. */
  lemma WindowOfRun(m: seq<byte>, s: seq<byte>, a: nat, b: nat)
    requires a <= b <= |m| && b - a <= |s| && m[a..b] == s[|s| - (b - a)..] && (b - a >= WINDOW || b - a == |s|)
    ensures Window(m, s, b)
  {
    var k := Keep(|s|);
    assert m[b - k..b] == m[a..b][b - a - k..];
    assert s[|s| - k..] == s[|s| - (b - a)..][b - a - k..];
  }

  /** The same bytes elsewhere are the same window. */
  lemma WindowMoves(m: seq<byte>, m': seq<byte>, s: seq<byte>, end: nat, end': nat, n: nat)
    requires Window(m, s, end) && n >= Keep(|s|) && n <= end && n <= end' <= |m'|
    requires m'[end' - n..end'] == m[end - n..end]
    ensures Window(m', s, end')
  {
    var k := Keep(|s|);
    assert m'[end' - k..end'] == m'[end' - n..end'][n - k..];
    assert m[end - k..end] == m[end - n..end][n - k..];
  }

  /** The last `n` bytes in front of a window's end, as part of what they are a window of. */
  lemma WindowPart(m: seq<byte>, s: seq<byte>, at: nat, n: nat)
    requires Window(m, s, at + n) && n <= Keep(|s|)
    ensures m[at..at + n] == s[|s| - n..]
  {
    var k, end := Keep(|s|), at + n;
    assert m[at..end] == m[end - k..end][k - n..];
    assert s[|s| - n..] == s[|s| - k..][k - n..];
  }

  // ---------------------------------------------------------------- memory

  /** memcpy between ranges that do not overlap. */
  method Memcpy(mem: array<byte>, d: nat, s: nat, n: nat)
    requires d + n <= mem.Length && s + n <= mem.Length && (d + n <= s || s + n <= d)
    modifies mem
    ensures mem[..][d..d + n] == old(mem[..])[s..s + n]
    ensures Stored(old(mem[..]), mem[..], d, n)
  {
    var bytes := mem[s..s + n];
    CopyIn(mem, d, bytes, 0, n);
    Copied(mem, d, bytes, 0, n);
    assert mem[..][d..d + n] == mem[d..d + n] && old(mem[..])[s..s + n] == bytes;
  }

  /** Memory that differs at most in `n` bytes from `d` on. */
  ghost predicate Stored(m: seq<byte>, m': seq<byte>, d: nat, n: nat) {
    |m| == |m'| && d + n <= |m| && m'[..d] == m[..d] && m'[d + n..] == m[d + n..]
  }

  /** A range that a store did not touch. */
  lemma Untouched(m: seq<byte>, m': seq<byte>, d: nat, n: nat, a: nat, b: nat)
    requires Stored(m, m', d, n) && a <= b <= |m| && (b <= d || d + n <= a)
    ensures m'[a..b] == m[a..b]
  {
    if b <= d {
      assert m'[a..b] == m'[..d][a..b] && m[a..b] == m[..d][a..b];
    } else {
      forall k | a <= k < b ensures m'[k] == m[k] {
        assert m'[k] == m'[d + n..][k - d - n] && m[k] == m[d + n..][k - d - n];
      }
    }
  }

  lemma StoredWithin(m: seq<byte>, m': seq<byte>, d: nat, n: nat, from: nat, size: nat)
    requires Stored(m, m', d, n) && from <= d && d + n <= from + size <= |m|
    ensures Stored(m, m', from, size)
  {
    assert m'[..from] == m'[..d][..from] && m[..from] == m[..d][..from];
    var a := from + size - d - n;
    assert m'[from + size..] == m'[d + n..][a..] && m[from + size..] == m[d + n..][a..];
  }

  /** A window survives a store that does not reach into start..end. */
  lemma WindowKept(m: seq<byte>, m': seq<byte>, s: seq<byte>, start: nat, end: nat, d: nat, n: nat)
    requires Stored(m, m', d, n) && Window(m, s, end) && start + Keep(|s|) <= end <= |m| == |m'|
    requires end <= d || d + n <= start
    ensures Window(m', s, end)
  {
    Untouched(m, m', d, n, end - Keep(|s|), end);
  }

  lemma Halves(m: seq<byte>, at: nat, size: nat, n: nat)
    requires n <= size && at + size <= |m|
    ensures m[at..at + size][..n] == m[at..at + n] && m[at..at + size][n..] == m[at + n..at + size]
  {
  }

  lemma Split(m: seq<byte>, a: nat, b: nat, c: nat)
    requires a <= b <= c <= |m|
    ensures m[a..c] == m[a..b] + m[b..c]
  {
  }

  lemma StoredNothing(m: seq<byte>, d: nat, n: nat)
    requires d + n <= |m|
    ensures Stored(m, m, d, n)
  {
  }

  lemma StoredTwice(m: seq<byte>, m': seq<byte>, m'': seq<byte>, d: nat, n: nat)
    requires Stored(m, m', d, n) && Stored(m', m'', d, n)
    ensures Stored(m, m'', d, n)
  {
  }

  // ---------------------------------------------------------------- where the history lies

  /** The pointers and sizes that say where the history lies: tmpOutBuffer with its room, the dictionary, and tmpOut. */
  datatype Place = Place(
    tmp: nat, reserve: nat, maxBuffer: nat, dict: int, dictSize: nat, out: nat, size: nat, start: nat) {
    predicate Fits(memory: nat) { maxBuffer <= reserve && tmp + reserve <= memory }

    /** A range of memory that neither overlaps nor touches tmpOutBuffer. */
    predicate Outside(memory: nat, a: int, b: int) { 0 <= a <= b <= memory && (b < tmp || tmp + reserve < a) }

    /** The dictionary lies in tmpOutBuffer from its start, or outside of it. */
    predicate Located(memory: nat) {
      if dict == tmp then dictSize <= maxBuffer else Outside(memory, dict, dict + dictSize)
    }

    /** Output to a..b cannot overwrite the dictionary. */
    predicate Free(a: int, b: int) { dict == tmp || dictSize == 0 || dict + dictSize <= a || b <= dict }

    /** tmpOut holds a block that is being flushed. */
    predicate Holds(memory: nat) {
      Fits(memory) && tmp <= out <= tmp + 2 * WINDOW && start <= size && out + size <= tmp + maxBuffer
    }
  }

  /** Between blocks: the dictionary ends with the window of the output `s`. */
  ghost predicate ReadyIn(m: seq<byte>, s: seq<byte>, p: Place) {
    && p.Fits(|m|) && Exact(p.dictSize, |s|)
    && (p.dictSize > 0 ==> p.Located(|m|) && Window(m, s, p.dict + p.dictSize))
  }

  /** What of the block in tmpOut is still to be flushed. */
  ghost function PendingIn(m: seq<byte>, p: Place): (b: seq<byte>)
    requires p.Holds(|m|)
    ensures |b| == p.size - p.start
  {
    m[p.out + p.start..p.out + p.size]
  }

  /**
  While a block is flushed: if the dictionary is in tmpOutBuffer it goes on into the block, and the window ends with
  the block; otherwise the dictionary already ends with the window of what has been flushed.
  */
  ghost predicate FlushingIn(m: seq<byte>, s: seq<byte>, p: Place) {
    && p.Holds(|m|) && p.start <= |s| && Exact(p.out - p.tmp, |s| - p.start)
    && s[|s| - p.start..] == m[p.out..p.out + p.start]
    && (p.dict == p.tmp ==> p.dictSize == p.out - p.tmp + p.start && Window(m, s + PendingIn(m, p), p.out + p.size))
    && (p.dict != p.tmp ==> ReadyIn(m, s, p))
  }

  /** The bytes from `start` to `at` are the most recent output. */
  ghost predicate OutputIn(m: seq<byte>, s: seq<byte>, start: nat, at: nat) {
    start <= at <= |m| && at - start <= |s| && m[start..at] == s[|s| - (at - start)..]
  }

  /** A store outside tmpOutBuffer that spares the dictionary leaves the history as it is. */
  lemma ReadyStored(m: seq<byte>, m': seq<byte>, s: seq<byte>, p: Place, d: nat, n: nat)
    requires ReadyIn(m, s, p) && Stored(m, m', d, n) && |m| == |m'| && p.Outside(|m|, d, d + n) && p.Free(d, d + n)
    ensures ReadyIn(m', s, p)
  {
    hide Window, Stored, Keep;
    if p.dictSize > 0 {
      KeepFits(p.dictSize, s);
      WindowKept(m, m', s, p.dict, p.dict + p.dictSize, d, n);
    }
  }

  lemma FlushingStored(m: seq<byte>, m': seq<byte>, s: seq<byte>, p: Place, d: nat, n: nat)
    requires FlushingIn(m, s, p) && Stored(m, m', d, n) && |m| == |m'| && p.Outside(|m|, d, d + n) && p.Free(d, d + n)
    ensures FlushingIn(m', s, p) && PendingIn(m', p) == PendingIn(m, p)
  {
    hide Window, Stored, Keep, ReadyIn;
    Untouched(m, m', d, n, p.out, p.out + p.start);
    Untouched(m, m', d, n, p.out + p.start, p.out + p.size);
    if p.dict == p.tmp {
      FlushingRoom(m, s, p);
      WindowKept(m, m', s + PendingIn(m, p), p.tmp, p.out + p.size, d, n);
    } else {
      ReadyStored(m, m', s, p, d, n);
    }
  }

  lemma FlushingHolds(m: seq<byte>, s: seq<byte>, p: Place)
    requires FlushingIn(m, s, p)
    ensures p.Holds(|m|)
  {
    hide Window, ReadyIn, Exact;
  }

  lemma FlushedLast(m: seq<byte>, s: seq<byte>, p: Place)
    requires FlushingIn(m, s, p)
    ensures p.start <= |s| && s[|s| - p.start..] == m[p.out..p.out + p.start]
  {
    hide Window, ReadyIn, Exact;
  }

  lemma FlushingParts(m: seq<byte>, s: seq<byte>, p: Place)
    requires FlushingIn(m, s, p) && p.dict != p.tmp
    ensures p.dictSize > 0 || |s| == 0
  {
    hide Window;
  }

  lemma FlushingRoom(m: seq<byte>, s: seq<byte>, p: Place)
    requires FlushingIn(m, s, p)
    ensures p.tmp + Keep(|s + PendingIn(m, p)|) <= p.out + p.size
  {
    hide Window, ReadyIn;
  }

  /** Flushing `n` more bytes moves them from the pending part of the block to the output. */
  lemma AdvanceBlock(m: seq<byte>, s: seq<byte>, p: Place, n: nat)
    requires FlushingIn(m, s, p) && n <= p.size - p.start
    ensures var b := PendingIn(m, p); var t, q := s + b[..n], p.(start := p.start + n);
      && q.Holds(|m|) && q.start <= |t| && Exact(q.out - q.tmp, |t| - q.start)
      && t[|t| - q.start..] == m[q.out..q.out + q.start]
      && PendingIn(m, q) == b[n..] && t + PendingIn(m, q) == s + b
  {
    hide Window, ReadyIn, Exact;
    var b := PendingIn(m, p);
    var t, q := s + b[..n], p.(start := p.start + n);
    assert b[..n] == m[p.out + p.start..p.out + p.start + n];
    Split(m, p.out, p.out + p.start, p.out + q.start);
    assert t[|t| - q.start..] == s[|s| - p.start..] + b[..n];
    assert t + b[n..] == s + (b[..n] + b[n..]);
    assert b[..n] + b[n..] == b;
  }

  /** ... and with the dictionary in tmpOutBuffer, extending it is all there is to do. */
  lemma AdvanceInTmp(m: seq<byte>, s: seq<byte>, p: Place, n: nat)
    requires FlushingIn(m, s, p) && p.dict == p.tmp && n <= p.size - p.start
    ensures FlushingIn(m, s + PendingIn(m, p)[..n], p.(dictSize := p.dictSize + n, start := p.start + n))
    ensures PendingIn(m, p.(dictSize := p.dictSize + n, start := p.start + n)) == PendingIn(m, p)[n..]
  {
    hide Window, Exact;
    AdvanceBlock(m, s, p, n);
  }

  /** ... and so it is once the dictionary in the caller's buffer has taken them in. */
  lemma AdvanceOutside(m: seq<byte>, s: seq<byte>, p: Place, n: nat, q: Place)
    requires FlushingIn(m, s, p) && n <= p.size - p.start && q.dict != q.tmp
    requires q == p.(dict := q.dict, dictSize := q.dictSize)
    requires ReadyIn(m, s + PendingIn(m, p)[..n], q)
    ensures FlushingIn(m, s + PendingIn(m, p)[..n], q.(start := p.start + n))
    ensures PendingIn(m, q.(start := p.start + n)) == PendingIn(m, p)[n..]
  {
    hide Window, Exact;
    AdvanceBlock(m, s, p, n);
  }

  lemma ReadyParts(m: seq<byte>, s: seq<byte>, p: Place)
    requires ReadyIn(m, s, p)
    ensures p.Fits(|m|) && Exact(p.dictSize, |s|) && (p.dictSize > 0 || |s| == 0)
    ensures p.dictSize > 0 ==> p.Located(|m|) && Window(m, s, p.dict + p.dictSize)
  {
    hide Window;
  }

  /** A block stored at `out`, behind the dictionary if that is in tmpOutBuffer, can be flushed. */
  lemma BlockDecoded(m: seq<byte>, m': seq<byte>, s: seq<byte>, p: Place, size: nat, max: nat)
    requires ReadyIn(m, s, p) && Stored(m, m', p.out, max) && |m| == |m'| && size <= max
    requires p.out + max <= p.tmp + p.maxBuffer
    requires p.tmp <= p.out <= p.tmp + 2 * WINDOW && Exact(p.out - p.tmp, |s|)
    requires p.dict == p.tmp ==> p.dictSize == p.out - p.tmp
    ensures FlushingIn(m', s, p.(size := size, start := 0))
    ensures PendingIn(m', p.(size := size, start := 0)) == m'[p.out..p.out + size]
  {
    hide Window, Stored, Keep, Exact, ReadyIn;
    ReadyParts(m, s, p);
    if p.dict == p.tmp {
      DecodedInTmp(m, m', s, p, size, max);
    } else {
      DecodedElsewhere(m, m', s, p, max);
    }
    FlushBegins(m', s, p.(size := size, start := 0));
  }

  lemma FlushBegins(m: seq<byte>, s: seq<byte>, p: Place)
    requires p.Holds(|m|) && p.start == 0 && Exact(p.out - p.tmp, |s|)
    requires p.dict == p.tmp ==>
      p.dictSize == p.out - p.tmp && Window(m, s + m[p.out..p.out + p.size], p.out + p.size)
    requires p.dict != p.tmp ==> ReadyIn(m, s, p)
    ensures FlushingIn(m, s, p)
  {
    hide Window, Exact, ReadyIn;
    assert s[|s|..] == [] == m[p.out..p.out];
  }

  lemma DecodedElsewhere(m: seq<byte>, m': seq<byte>, s: seq<byte>, p: Place, max: nat)
    requires ReadyIn(m, s, p) && Stored(m, m', p.out, max) && |m| == |m'| && p.dict != p.tmp
    requires p.tmp <= p.out && p.out + max <= p.tmp + p.maxBuffer
    ensures forall size :: ReadyIn(m', s, p.(size := size, start := 0))
  {
    hide Window, Stored, Keep, Exact;
    KeepFits(p.dictSize, s);
    if p.dictSize > 0 {
      WindowKept(m, m', s, p.dict, p.dict + p.dictSize, p.out, max);
    }
  }

  lemma DecodedInTmp(m: seq<byte>, m': seq<byte>, s: seq<byte>, p: Place, size: nat, max: nat)
    requires ReadyIn(m, s, p) && Stored(m, m', p.out, max) && |m| == |m'| && size <= max && p.out + max <= |m|
    requires p.dict == p.tmp && p.tmp + p.dictSize == p.out
    ensures Window(m', s + m'[p.out..p.out + size], p.out + size)
  {
    hide Window, Stored, Keep;
    KeepFits(p.dictSize, s);
    if p.dictSize == 0 {
      EmptyWindow(m', s, p.out);
    } else {
      WindowKept(m, m', s, p.tmp, p.out, p.out, max);
    }
    WindowExtends(m', s, m'[p.out..p.out + size], p.out);
  }

  /** Output right behind a dictionary in the caller's buffer extends it. */
  lemma ReadyGrows(m: seq<byte>, s: seq<byte>, d: seq<byte>, p: Place)
    requires p.Fits(|m|) && p.dict != p.tmp && Exact(p.dictSize, |s|) && Window(m, s, p.dict + p.dictSize)
    requires p.Outside(|m|, p.dict, p.dict + p.dictSize + |d|)
    requires m[p.dict + p.dictSize..p.dict + p.dictSize + |d|] == d
    ensures ReadyIn(m, s + d, p.(dictSize := p.dictSize + |d|))
  {
    hide Window;
    WindowExtends(m, s, d, p.dict + p.dictSize);
  }

  /** Enough output in the caller's buffer is a dictionary by itself. */
  lemma ReadyInOutput(m: seq<byte>, s: seq<byte>, d: seq<byte>, p: Place, start: nat, at: nat)
    requires p.Fits(|m|) && OutputIn(m, s, start, at) && p.Outside(|m|, start, at + |d|) && m[at..at + |d|] == d
    requires at - start + |d| >= WINDOW
    ensures ReadyIn(m, s + d, p.(dict := start, dictSize := at - start + |d|))
  {
    hide Window, OutputIn;
    OutputMore(m, s, d, start, at);
    OutputWindow(m, s + d, start, at + |d|);
  }

  lemma OutputWindow(m: seq<byte>, s: seq<byte>, start: nat, at: nat)
    requires OutputIn(m, s, start, at) && at - start >= WINDOW
    ensures Window(m, s, at) && Exact(at - start, |s|)
  {
    hide Window;
    WindowOfRun(m, s, start, at);
  }

  lemma ReadyNone(m: seq<byte>, p: Place)
    requires p.Fits(|m|) && p.dictSize == 0
    ensures ReadyIn(m, [], p)
  {
  }

  lemma OutputRange(m: seq<byte>, s: seq<byte>, start: nat, at: nat)
    requires OutputIn(m, s, start, at)
    ensures start <= at <= |m| && at - start <= |s|
  {
  }

  /** Without a dictionary there is nothing to keep. */
  lemma ReadyEmpty(m: seq<byte>, p: Place)
    requires ReadyIn(m, [], p)
    ensures p.dictSize == 0
  {
  }

  lemma OutputMore(m: seq<byte>, s: seq<byte>, d: seq<byte>, start: nat, at: nat)
    requires OutputIn(m, s, start, at) && at + |d| <= |m| && m[at..at + |d|] == d
    ensures OutputIn(m, s + d, start, at + |d|)
  {
    Split(m, start, at, at + |d|);
  }

  /**
  In the middle of a flush: the part of the window that the memory is bound to hold in front of the rest of the block.
  */
  predicate WindowShown(p: Place, length: nat) {
    Keep(length) <= p.start || p.start >= p.size || length + (p.size - p.start) <= WINDOW
  }

  lemma WindowIfShown(m: seq<byte>, s: seq<byte>, p: Place)
    requires FlushingIn(m, s, p) && p.dict == p.tmp && WindowShown(p, |s|)
    ensures Window(m, s, p.dict + p.dictSize)
  {
    hide Window, ReadyIn;
    var t, n, end := s + PendingIn(m, p), p.size - p.start, p.out + p.size;
    if Keep(|s|) <= p.start {
      var k := Keep(|s|);
      assert m[p.out + p.start - k..p.out + p.start] == m[p.out..p.out + p.start][p.start - k..];
      assert s[|s| - k..] == s[|s| - p.start..][p.start - k..];
      WindowFromBytes(m, s, p.out + p.start);
    } else if n == 0 {
      assert t == s;
    } else {
      WindowPart(m, t, end - |t|, |t|);
      assert m[end - |t|..end - n] == m[end - |t|..end][..|s|];
      assert t[..|s|] == s;
      WindowFromBytes(m, s, end - n);
    }
  }

  lemma WindowFromBytes(m: seq<byte>, s: seq<byte>, end: nat)
    requires Keep(|s|) <= end <= |m| && m[end - Keep(|s|)..end] == s[|s| - Keep(|s|)..]
    ensures Window(m, s, end)
  {
  }

  /** The memory with the byte flipped that the window of the output would begin with. */
  ghost function Flipped(m: seq<byte>, s: seq<byte>, p: Place): (m': seq<byte>)
    requires Keep(|s|) <= p.out + p.start <= |m| && 0 < Keep(|s|)
    ensures Stored(m, m', p.out + p.start - Keep(|s|), 1)
    ensures !(Window(m, s, p.out + p.start) && Window(m', s, p.out + p.start))
  {
    var j, k := p.out + p.start - Keep(|s|), Keep(|s|);
    var m' := m[j := if m[j] == 0 then 1 else 0];
    assert m'[j..j + k][0] != m[j..j + k][0];
    m'
  }

  lemma FlippedFlushing(m: seq<byte>, s: seq<byte>, p: Place)
    requires FlushingIn(m, s, p) && p.dict == p.tmp && !WindowShown(p, |s|)
    ensures 0 < Keep(|s|) <= p.out + p.start <= |m| && FlushingIn(Flipped(m, s, p), s, p)
  {
    hide Window, ReadyIn, Stored;
    var m', j := Flipped(m, s, p), p.out + p.start - Keep(|s|);
    Untouched(m, m', j, 1, p.out, p.out + p.start);
    Untouched(m, m', j, 1, p.out + p.start, p.out + p.size);
    assert PendingIn(m', p) == PendingIn(m, p);
    var t := s + PendingIn(m, p);
    WindowKept(m, m', t, p.out + p.size - Keep(|t|), p.out + p.size, j, 1);
  }

  /**
  With the dictionary in tmpOutBuffer, in the middle of a flush: the dictionary is sure to end with the window of the
  output if and only if the window lies in the flushed part of the block, or the block is flushed, or the output and
  the rest of the block fit a window together.
  */
  lemma WindowInFlushIff(m0: seq<byte>, s: seq<byte>, p: Place)
    requires FlushingIn(m0, s, p) && p.dict == p.tmp
    ensures (forall m :: FlushingIn(m, s, p) ==> Window(m, s, p.dict + p.dictSize)) <==> WindowShown(p, |s|)
  {
    hide Window, FlushingIn, WindowShown, Flipped;
    if WindowShown(p, |s|) {
      forall m | FlushingIn(m, s, p) ensures Window(m, s, p.dict + p.dictSize) {
        WindowIfShown(m, s, p);
      }
    } else {
      FlippedFlushing(m0, s, p);
      FlushingEnd(m0, s, p);
      assert FlushingIn(Flipped(m0, s, p), s, p);
    }
  }

  lemma FlushingEnd(m: seq<byte>, s: seq<byte>, p: Place)
    requires FlushingIn(m, s, p) && p.dict == p.tmp
    ensures p.dict + p.dictSize == p.out + p.start
  {
    hide Window, ReadyIn;
  }

  lemma OutputStored(m: seq<byte>, m': seq<byte>, s: seq<byte>, start: nat, at: nat, d: nat, n: nat)
    requires OutputIn(m, s, start, at) && Stored(m, m', d, n) && |m| == |m'| && (at <= d || d + n <= start)
    ensures OutputIn(m', s, start, at)
  {
    hide Stored;
    Untouched(m, m', d, n, start, at);
  }

  /** Everything flushed: the dictionary is ready for the next block. */
  lemma FlushedReady(m: seq<byte>, s: seq<byte>, p: Place)
    requires FlushingIn(m, s, p) && p.start == p.size
    ensures ReadyIn(m, s, p)
  {
    hide Window;
    assert s + PendingIn(m, p) == s;
  }

  // ---------------------------------------------------------------- the history

  class History {
    const mem: array<byte>
    const tmp: nat       // tmpOutBuffer
    const reserve: nat   // room for it in memory
    var maxBuffer: nat   // maxBufferSize
    var dict: int
    var dictSize: nat
    var tmpOut: nat
    var tmpOutSize: nat
    var tmpOutStart: nat
    var linked: bool     // blockMode
    ghost var h: seq<byte> // output of the frame so far

    constructor (mem: array<byte>, tmp: nat, reserve: nat)
      requires tmp + reserve <= mem.Length
      ensures this.mem == mem && this.tmp == tmp && this.reserve == reserve
      ensures maxBuffer == 0 && dict == NULL && dictSize == 0 && h == []
    {
      this.mem, this.tmp, this.reserve := mem, tmp, reserve;
      maxBuffer, dict, dictSize, tmpOut, tmpOutSize, tmpOutStart, linked, h := 0, NULL, 0, tmp, 0, 0, false, [];
    }

    function Where(): Place
      reads this
    {
      Place(tmp, reserve, maxBuffer, dict, dictSize, tmpOut, tmpOutSize, tmpOutStart)
    }

    predicate Outside(a: int, b: int) { 0 <= a <= b <= mem.Length && (b < tmp || tmp + reserve < a) }

    ghost predicate Ready()
      reads this, mem
    {
      ReadyIn(mem[..], h, Where())
    }

    ghost predicate Flushing()
      reads this, mem
    {
      FlushingIn(mem[..], h, Where())
    }

    ghost function Pending(): seq<byte>
      requires Where().Holds(mem.Length)
      reads this, mem
    {
      PendingIn(mem[..], Where())
    }

    /** The output that blocks may refer to. */
    ghost function Past(): seq<byte>
      reads this
    {
      if linked then h else []
    }

    /** No block is being flushed. Independent blocks have no dictionary. */
    ghost predicate Between()
      reads this, mem
    {
      ReadyIn(mem[..], Past(), Where()) && (!linked ==> dict == NULL)
    }

    /** A block is being flushed. */
    ghost predicate InBlock()
      reads this, mem
    {
      if linked then Flushing() else Where().Holds(mem.Length) && dictSize == 0 && dict == NULL
    }

    /** The output of the current call so far, from `start` to `at`, is the most recent output. */
    ghost predicate Output(start: nat, at: nat)
      reads this, mem
    {
      OutputIn(mem[..], h, start, at)
    }

    /** As Ready, except that tmpOutBuffer may still lack the rest of a block that is being flushed from it. */
    ghost predicate Placed()
      reads this, mem
    {
      && Where().Fits(mem.Length) && Exact(dictSize, |h|)
      && (dictSize > 0 ==> Where().Located(mem.Length) && (dict != tmp ==> Window(mem[..], h, dict + dictSize)))
    }

    /** The first branches of LZ4F_updateDict: an empty history, a prefix, or enough output in the caller's buffer. */
    method UpdateInPlace(dstPtr: nat, n: nat, dstStart: nat) returns (done: bool)
      requires Placed() && Output(dstStart, dstPtr) && Outside(dstStart, dstPtr + n)
      modifies this`dict, this`dictSize, this`h
      ensures done ==>
        Ready() && dict != tmp && dict + dictSize == dstPtr + n && h == old(h) + mem[..][dstPtr..dstPtr + n]
      ensures !done ==> dict == old(dict) && dictSize == old(dictSize) > 0 && h == old(h) && n < WINDOW
      ensures old(dictSize) == 0 ==> done
    {
      hide Window, ReadyIn;
      ghost var m, d := mem[..], mem[..][dstPtr..dstPtr + n];
      if dictSize == 0 {
        dict := dstPtr;
        EmptyWindow(m, h, dstPtr);
      }
      if dict + dictSize == dstPtr {
        ReadyGrows(m, h, d, Where());
        dictSize := dictSize + n;
        h := h + d;
        return true;
      }
      if dstPtr - dstStart + n >= WINDOW {
        ReadyInOutput(m, h, d, Where(), dstStart, dstPtr);
        dict, dictSize, h := dstStart, dstPtr - dstStart + n, h + d;
        return true;
      }
      done := false;
    }

    /** LZ4F_updateDict for output that was written straight to the caller's buffer. */
    method UpdateDict(dstPtr: nat, n: nat, dstStart: nat)
      requires Ready() && Output(dstStart, dstPtr) && Outside(dstStart, dstPtr + n) && maxBuffer >= 3 * WINDOW
      modifies this`dict, this`dictSize, this`h, mem
      ensures Ready() && h == old(h) + old(mem[..])[dstPtr..dstPtr + n] && Output(dstStart, dstPtr + n)
      ensures dict == tmp || dict + dictSize == dstPtr + n
      ensures old(dictSize) == 0 ==> dict != tmp && mem[..] == old(mem[..])
      ensures Stored(old(mem[..]), mem[..], tmp, reserve)
    {
      hide Window, Stored, ReadyIn, OutputIn, Exact;
      ghost var m, s, d := mem[..], h, mem[..][dstPtr..dstPtr + n];
      assert dstStart <= dstPtr by { OutputRange(m, h, dstStart, dstPtr); }
      OutputMore(m, s, d, dstStart, dstPtr);
      ghost var p := Where();
      ReadyParts(m, s, p);
      StoredNothing(m, tmp, reserve);
      var done := UpdateInPlace(dstPtr, n, dstStart);
      if !done {
        assert Where() == p;
        TakeToTmp(dstPtr, n);
        OutputStored(m, mem[..], s + d, dstStart, dstPtr + n, tmp, reserve);
      }
    }

    /** The other branches of LZ4F_updateDict: the history moves to tmpOutBuffer, or is there. */
    method TakeToTmp(dstPtr: nat, n: nat)
      requires Ready() && 0 < dictSize && n < WINDOW && Outside(dstPtr, dstPtr + n) && maxBuffer >= 3 * WINDOW
      modifies this`dict, this`dictSize, this`h, mem
      ensures Ready() && dict == tmp && h == old(h) + old(mem[..])[dstPtr..dstPtr + n]
      ensures Stored(old(mem[..]), mem[..], tmp, reserve)
    {
      hide Stored, ReadyIn;
      if dict == tmp {
        AppendToTmp(dstPtr, n);
      } else {
        JoinInTmp(dstPtr, n);
      }
    }

    /** Copies output behind the dictionary in tmpOutBuffer. */
    method AppendToTmp(dstPtr: nat, n: nat)
      requires Ready() && dict == tmp && 0 < dictSize && n < WINDOW && Outside(dstPtr, dstPtr + n)
      requires maxBuffer >= 3 * WINDOW
      modifies this`dictSize, this`h, mem
      ensures Ready() && dict == tmp && h == old(h) + old(mem[..])[dstPtr..dstPtr + n]
      ensures Stored(old(mem[..]), mem[..], tmp, reserve)
    {
      hide Window;
      ghost var d, s := mem[..][dstPtr..dstPtr + n], h;
      h := h + d;
      if dictSize + n > maxBuffer {
        // no room: keep just enough of the dictionary
        JoinBytes(mem, tmp, reserve, tmp + dictSize - (WINDOW - n), WINDOW - n, dstPtr, n, s);
        JoinedWindow(mem[..], s, d, tmp, WINDOW - n);
        dictSize := WINDOW;
      } else {
        AppendBytes(dstPtr, n, s);
        dictSize := dictSize + n;
      }
    }

    method AppendBytes(dstPtr: nat, n: nat, ghost s: seq<byte>)
      requires Where().Fits(mem.Length) && dictSize + n <= maxBuffer && Outside(dstPtr, dstPtr + n)
      requires Exact(dictSize, |s|) && Window(mem[..], s, tmp + dictSize)
      modifies mem
      ensures Window(mem[..], s + old(mem[..])[dstPtr..dstPtr + n], tmp + dictSize + n)
      ensures Stored(old(mem[..]), mem[..], tmp, reserve)
    {
      hide Window, Stored, Keep;
      ghost var m, end := mem[..], tmp + dictSize;
      KeepFits(dictSize, s);
      Memcpy(mem, tmp + dictSize, dstPtr, n);
      StoredWithin(m, mem[..], end, n, tmp, reserve);
      WindowKept(m, mem[..], s, tmp, end, end, n);
      WindowExtends(mem[..], s, m[dstPtr..dstPtr + n], end);
    }

    /** Joins the end of the dictionary and the output in tmpOutBuffer. */
    method JoinInTmp(dstPtr: nat, n: nat)
      requires Ready() && dict != tmp && 0 < dictSize && n < WINDOW && Outside(dstPtr, dstPtr + n)
      requires maxBuffer >= 3 * WINDOW
      modifies this`dict, this`dictSize, this`h, mem
      ensures Ready() && dict == tmp && h == old(h) + old(mem[..])[dstPtr..dstPtr + n]
      ensures Stored(old(mem[..]), mem[..], tmp, reserve)
    {
      hide Window;
      ghost var d, s := mem[..][dstPtr..dstPtr + n], h;
      var preserve := Min(WINDOW - n, dictSize);
      KeepFits(dictSize, h);
      JoinBytes(mem, tmp, reserve, dict + dictSize - preserve, preserve, dstPtr, n, h);
      JoinedWindow(mem[..], s, d, tmp, preserve);
      dict := tmp;
      dictSize := preserve + n;
      h := h + d;
    }

    // -------------------------------------------------------------- decoding blocks

    /** The dictionary handed to the block decoder: at most the last 64 KB of a huge one. */
    function DictUsed(): nat
      reads this
    {
      if dictSize > 1024 * 1024 * KB then WINDOW else dictSize
    }

    /** LZ4_decompress_safe_usingDict on the history, into `at`: what the block means against all output so far. */
    method DecodeBlock(data: seq<byte>, at: nat, max: nat, ghost s: seq<byte>) returns (size: int)
      requires ReadyIn(mem[..], s, Where()) && |data| <= Lz4Decoder.INT_MAX && at + max <= mem.Length && 0 < max
      requires dictSize > 0 ==>
        0 <= dict && dict + dictSize <= mem.Length && (dict + dictSize <= at || at + max <= dict)
      modifies mem
      ensures size <= max && Stored(old(mem[..]), mem[..], at, max)
      ensures Legal(data, 0, s, |s| + max) ==> size >= 0
      ensures size >= 0 ==> Decode(data, 0, s) == Some(s + mem[..][at..at + size])
    {
      hide Window, Decode, Legal, Lz4Decoder.InReach;
      var used := DictUsed();
      var d := Lz4Decoder.Elsewhere([]);
      if used > 0 {
        d := if dict + dictSize == at then Lz4Decoder.Before(used)
             else Lz4Decoder.Elsewhere(mem[dict + dictSize - used..dict + dictSize]);
      }
      ghost var bytes, m := Lz4Decoder.DictionaryBytes(d, mem, at), mem[..];
      assert bytes == if used > 0 then m[dict + dictSize - used..dict + dictSize] else [];
      DictInReach(m, s, dict, dictSize, used, bytes);
      size := Lz4Decoder.DecompressSafeUsingDict(data, mem, at, max, d);
      StoredOnly(m, mem, at, max);
      Lz4Decoder.SameWindow(data, bytes, s, if size >= 0 then mem[at..at + size] else [], max);
      assert size >= 0 ==> mem[at..at + size] == mem[..][at..at + size];
    }

    // -------------------------------------------------------------- flushing a block from tmpOut

    lemma FlushingPlaced()
      requires Flushing()
      ensures Placed()
    {
      hide Window;
    }

    /**
    Copies as much of the dictionary in front of the block as the window will need; the dictionary is then in
    tmpOutBuffer.
    */
    method CopyInFront()
      requires Flushing() && dict != tmp && (dictSize > 0 || |h| == 0)
      modifies this`dict, this`dictSize, mem
      ensures Flushing() && dict == tmp && Stored(old(mem[..]), mem[..], tmp, reserve)
      ensures Where().Holds(mem.Length) && Pending() == old(Pending())
      ensures tmpOutSize >= WINDOW ==> mem[..] == old(mem[..])
    {
      hide Window, Stored, Exact, ReadyIn, FlushingIn, PendingIn;
      var p := Where();
      ghost var m := mem[..];
      FlushingHolds(m, h, p);
      if dictSize > 0 && tmpOutSize < WINDOW {
        FrontBytes(mem, p, h);
      } else {
        NothingInFront(m, h, p); // nothing to copy
      }
      NowInTmp(m, mem[..], h, p);
      dict := tmp;
      dictSize := tmpOut - tmp + tmpOutStart;
    }

    /** Bytes of the block to the caller's buffer. */
    method FlushCopy(dstPtr: nat, n: nat, ghost dstStart: nat)
      requires Flushing() && n <= tmpOutSize - tmpOutStart && Output(dstStart, dstPtr) && Outside(dstStart, dstPtr + n)
      requires Where().Free(dstPtr, dstPtr + n)
      modifies mem
      ensures Flushing() && Output(dstStart, dstPtr) && Pending() == old(Pending())
      ensures mem[..][dstPtr..dstPtr + n] == Pending()[..n]
      ensures Stored(old(mem[..]), mem[..], dstPtr, n)
    {
      hide Stored, ReadyIn, Window, Exact, FlushingIn, OutputIn;
      ghost var m := mem[..];
      FlushingHolds(m, h, Where());
      assert dstStart <= dstPtr by { OutputRange(m, h, dstStart, dstPtr); }
      Halves(m, tmpOut + tmpOutStart, tmpOutSize - tmpOutStart, n);
      Memcpy(mem, dstPtr, tmpOut + tmpOutStart, n);
      FlushingStored(m, mem[..], h, Where(), dstPtr, n);
      OutputStored(m, mem[..], h, dstStart, dstPtr, dstPtr, n);
    }

    /** LZ4F_updateDict for output that was flushed from tmpOut, and the step of tmpOutStart that follows it. */
    method UpdateDictTmp(dstPtr: nat, n: nat, dstStart: nat)
      requires Flushing() && n <= tmpOutSize - tmpOutStart && Output(dstStart, dstPtr) && Outside(dstStart, dstPtr + n)
      requires mem[..][dstPtr..dstPtr + n] == Pending()[..n]
      modifies this`dict, this`dictSize, this`h, this`tmpOutStart, mem
      ensures Flushing() && h == old(h) + old(Pending())[..n] && Pending() == old(Pending())[n..]
      ensures tmpOutStart == old(tmpOutStart) + n
      ensures Output(dstStart, dstPtr + n) && (dict == tmp || dict + dictSize == dstPtr + n)
      ensures Stored(old(mem[..]), mem[..], tmp, reserve)
    {
      hide Stored, ReadyIn, Window, Exact, OutputIn, FlushingIn, PendingIn;
      FlushingHolds(mem[..], h, Where());
      ghost var m, p := mem[..], Pending();
      FlushingPlaced();
      OutputMore(m, h, p[..n], dstStart, dstPtr);
      StoredNothing(m, tmp, reserve);
      var done := UpdateInPlace(dstPtr, n, dstStart);
      if done {
        AdvanceOutside(m, old(h), old(Where()), n, Where());
        tmpOutStart := tmpOutStart + n;
      } else {
        if dict != tmp {
          CopyInFront();
          OutputStored(m, mem[..], h + p[..n], dstStart, dstPtr + n, tmp, reserve);
        }
        ExtendTmp(n);
      }
    }

    /** Continues the dictionary in tmpOutBuffer into the block. */
    method ExtendTmp(n: nat)
      requires Flushing() && dict == tmp && n <= tmpOutSize - tmpOutStart
      modifies this`dictSize, this`h, this`tmpOutStart
      ensures Flushing() && dict == tmp && h == old(h) + old(Pending())[..n] && Pending() == old(Pending())[n..]
      ensures tmpOutStart == old(tmpOutStart) + n
    {
      hide ReadyIn, Window, Exact, FlushingIn, PendingIn;
      FlushingHolds(mem[..], h, Where());
      AdvanceInTmp(mem[..], h, Where(), n);
      h := h + Pending()[..n];
      dictSize := dictSize + n;
      tmpOutStart := tmpOutStart + n;
    }

    // -------------------------------------------------------------- decoding into tmpOut

    /** Makes room for a block in tmpOutBuffer, behind the history if that lies there. */
    method PrepareTmpOut(ghost s: seq<byte>)
      requires ReadyIn(mem[..], s, Where())
      modifies this`dictSize, this`tmpOut, mem
      ensures ReadyIn(mem[..], s, Where()) && tmp <= tmpOut <= tmp + 2 * WINDOW && Exact(tmpOut - tmp, |s|)
      ensures (dict == tmp ==> dictSize == tmpOut - tmp) && (dictSize == old(dictSize) || dict == tmp)
      ensures dict != tmp ==> tmpOut == tmp + Min(dictSize, WINDOW) && mem[..] == old(mem[..])
      ensures Stored(old(mem[..]), mem[..], tmp, reserve)
    {
      hide Window, Stored;
      StoredNothing(mem[..], tmp, reserve);
      if dict == tmp {
        if dictSize > 2 * WINDOW {
          Compact(s);
        }
        tmpOut := tmp + dictSize;
      } else {
        tmpOut := tmp + Min(dictSize, WINDOW);
      }
    }

    /** Keeps only the window, at the start of tmpOutBuffer. */
    method Compact(ghost s: seq<byte>)
      requires ReadyIn(mem[..], s, Where()) && dict == tmp && dictSize > 2 * WINDOW
      modifies this`dictSize, mem
      ensures ReadyIn(mem[..], s, Where()) && dictSize == WINDOW && Stored(old(mem[..]), mem[..], tmp, reserve)
    {
      hide Window, Stored;
      MoveWindow(mem, tmp, tmp + dictSize - WINDOW, WINDOW, reserve, s);
      dictSize := WINDOW;
    }

    /** Decodes a block into tmpOut, ready to be flushed. */
    method DecodeToTmp(data: seq<byte>, max: nat, ghost s: seq<byte>) returns (ok: bool)
      requires ReadyIn(mem[..], s, Where()) && |data| <= Lz4Decoder.INT_MAX && 0 < max <= maxBuffer
      requires dictSize > 0 || dict == tmp ==> max + 2 * WINDOW <= maxBuffer
      modifies this`dictSize, this`tmpOut, this`tmpOutSize, this`tmpOutStart, mem
      ensures Stored(old(mem[..]), mem[..], tmp, reserve) && (dictSize == old(dictSize) || dict == tmp)
      ensures dict != tmp ==> tmpOut == tmp + Min(dictSize, WINDOW) && Stored(old(mem[..]), mem[..], tmpOut, max)
      ensures Legal(data, 0, s, |s| + max) ==> ok
      ensures ok ==>
        && FlushingIn(mem[..], s, Where()) && Where().Holds(mem.Length) && tmpOutStart == 0 && tmpOutSize <= max
        && Decode(data, 0, s) == Some(s + Pending())
    {
      hide Window, Stored, ReadyIn, FlushingIn, PendingIn, Exact, Decode, Legal;
      PrepareTmpOut(s);
      ghost var m := mem[..];
      ReadyParts(m, s, Where());
      ok := DecodeBehind(data, max, s);
      StoredWithin(m, mem[..], tmpOut, max, tmp, reserve);
      StoredTwice(old(mem[..]), m, mem[..], tmp, reserve);
    }

    /** Decodes a block into tmpOut once there is room for it. */
    method DecodeBehind(data: seq<byte>, max: nat, ghost s: seq<byte>) returns (ok: bool)
      requires ReadyIn(mem[..], s, Where()) && |data| <= Lz4Decoder.INT_MAX && 0 < max
      requires tmp <= tmpOut <= tmp + 2 * WINDOW && tmpOut + max <= tmp + maxBuffer && Exact(tmpOut - tmp, |s|)
      requires dict == tmp ==> dictSize == tmpOut - tmp
      modifies this`tmpOutSize, this`tmpOutStart, mem
      ensures Stored(old(mem[..]), mem[..], tmpOut, max)
      ensures Legal(data, 0, s, |s| + max) ==> ok
      ensures ok ==>
        && FlushingIn(mem[..], s, Where()) && Where().Holds(mem.Length) && tmpOutStart == 0 && tmpOutSize <= max
        && Decode(data, 0, s) == Some(s + Pending())
    {
      hide Window, Stored, ReadyIn, FlushingIn, PendingIn, Exact, Decode, Legal;
      ghost var m, p := mem[..], Where();
      ReadyParts(m, s, p);
      var size := DecodeBlock(data, tmpOut, max, s);
      ok := size >= 0;
      if ok {
        BlockDecoded(m, mem[..], s, p, size, max);
        FlushingHolds(mem[..], s, p.(size := size, start := 0));
        tmpOutSize, tmpOutStart := size, 0;
      }
    }

    // -------------------------------------------------------------- output, in linked and independent blocks

    /** Bytes of an uncompressed block to the caller's buffer, and into the history. */
    method CopyRaw(bytes: seq<byte>, dstPtr: nat, dstStart: nat)
      requires Between() && Output(dstStart, dstPtr) && Outside(dstStart, dstPtr + |bytes|)
      requires Where().Free(dstPtr, dstPtr + |bytes|)
      requires linked ==> maxBuffer >= 3 * WINDOW
      modifies this`dict, this`dictSize, this`h, mem
      ensures Between() && h == old(h) + bytes && Output(dstStart, dstPtr + |bytes|)
      ensures dict == tmp || dictSize == 0 || dict + dictSize == dstPtr + |bytes|
      ensures linked && old(dictSize) == 0 ==> dict != tmp && Stored(old(mem[..]), mem[..], dstPtr, |bytes|)
    {
      hide Stored, ReadyIn, OutputIn;
      var n := |bytes|;
      ghost var m := mem[..];
      assert dstStart <= dstPtr by { OutputRange(m, h, dstStart, dstPtr); }
      CopyIn(mem, dstPtr, bytes, 0, n);
      Copied(mem, dstPtr, bytes, 0, n);
      assert mem[..][dstPtr..dstPtr + n] == bytes;
      StoredOnly(m, mem, dstPtr, n);
      Taken(m, dstPtr, n, n, dstStart);
      Take(dstPtr, n, dstStart);
    }

    /** A store to the caller's buffer leaves the history and the output before it as they are. */
    lemma Taken(m: seq<byte>, dstPtr: nat, n: nat, room: nat, dstStart: nat)
      requires ReadyIn(m, Past(), Where()) && OutputIn(m, h, dstStart, dstPtr) && Stored(m, mem[..], dstPtr, room)
      requires |m| == mem.Length
      requires Outside(dstPtr, dstPtr + room) && Where().Free(dstPtr, dstPtr + room)
      ensures ReadyIn(mem[..], Past(), Where()) && Output(dstStart, dstPtr)
    {
      hide Stored, ReadyIn, OutputIn;
      assert dstStart <= dstPtr by { OutputRange(m, h, dstStart, dstPtr); }
      ReadyStored(m, mem[..], Past(), Where(), dstPtr, room);
      OutputStored(m, mem[..], h, dstStart, dstPtr, dstPtr, room);
    }

    /** Output that has been written straight to the caller's buffer enters the history. */
    method Take(dstPtr: nat, n: nat, dstStart: nat)
      requires Between() && Output(dstStart, dstPtr) && Outside(dstStart, dstPtr + n)
      requires (linked ==> maxBuffer >= 3 * WINDOW) && dstStart <= dstPtr
      modifies this`dict, this`dictSize, this`h, mem
      ensures Between() && h == old(h) + old(mem[..])[dstPtr..dstPtr + n] && Output(dstStart, dstPtr + n)
      ensures dict == tmp || dictSize == 0 || dict + dictSize == dstPtr + n
      ensures linked && old(dictSize) == 0 ==> dict != tmp && mem[..] == old(mem[..])
    {
      hide Stored, ReadyIn, OutputIn;
      if linked {
        UpdateDict(dstPtr, n, dstStart);
      } else {
        ghost var d := mem[..][dstPtr..dstPtr + n];
        OutputMore(mem[..], h, d, dstStart, dstPtr);
        ReadyEmpty(mem[..], Where());
        h := h + d;
      }
    }

    /** A compressed block straight to the caller's buffer. */
    method DecodeToDst(data: seq<byte>, dstPtr: nat, max: nat, dstStart: nat) returns (size: int, block: seq<byte>)
      requires Between() && Output(dstStart, dstPtr) && Outside(dstStart, dstPtr + max)
      requires Where().Free(dstPtr, dstPtr + max)
      requires |data| <= Lz4Decoder.INT_MAX && 0 < max && (linked ==> maxBuffer >= 3 * WINDOW)
      modifies this`dict, this`dictSize, this`h, mem
      ensures size <= max && (Legal(data, 0, old(Past()), |old(Past())| + max) ==> size >= 0)
      ensures size >= 0 ==> Between() && Output(dstStart, dstPtr + size) && |block| == size && h == old(h) + block
      ensures size >= 0 ==> Decode(data, 0, old(Past())) == Some(old(Past()) + block)
      ensures size >= 0 ==> dict == tmp || dictSize == 0 || dict + dictSize == dstPtr + size
    {
      hide Stored, ReadyIn, OutputIn, Legal, Decode;
      ghost var m, s := mem[..], Past();
      assert dstStart <= dstPtr by { OutputRange(m, h, dstStart, dstPtr); }
      ReadyParts(m, s, Where());
      size := DecodeBlock(data, dstPtr, max, s);
      block := [];
      if size >= 0 {
        block := mem[dstPtr..dstPtr + size];
        assert block == mem[..][dstPtr..dstPtr + size];
        Taken(m, dstPtr, size, max, dstStart);
        Take(dstPtr, size, dstStart);
      }
    }

    /** A compressed block to tmpOut; the caller's buffer and the output before it stay as they are. */
    method DecodeToTmpOut(data: seq<byte>, max: nat, ghost dstStart: nat, ghost at: nat, ghost end: nat)
        returns (ok: bool, block: seq<byte>)
      requires Between() && Output(dstStart, at) && dstStart <= at <= end && Outside(dstStart, end)
      requires Where().Free(at, end)
      requires |data| <= Lz4Decoder.INT_MAX && 0 < max && max + (if linked then 2 * WINDOW else 0) <= maxBuffer
      modifies this`dictSize, this`tmpOut, this`tmpOutSize, this`tmpOutStart, mem
      ensures Legal(data, 0, Past(), |Past()| + max) ==> ok
      ensures dict != tmp ==> tmpOut == tmp + Min(dictSize, WINDOW) && dictSize == old(dictSize)
      ensures ok ==> tmpOutStart == 0
      ensures dict != tmp ==> Stored(old(mem[..]), mem[..], tmpOut, max)
      ensures ok ==>
        InBlock() && Where().Holds(mem.Length) && Pending() == block && Output(dstStart, at) && Where().Free(at, end)
      ensures ok ==> Decode(data, 0, Past()) == Some(Past() + block)
    {
      hide Stored, ReadyIn, OutputIn, FlushingIn, Legal, Decode;
      ghost var m := mem[..];
      if !linked { ReadyEmpty(m, Where()); }
      ok := DecodeToTmp(data, max, Past());
      block := [];
      if ok {
        FlushingHolds(mem[..], Past(), Where());
        OutputStored(m, mem[..], h, dstStart, at, tmp, reserve);
        block := mem[tmpOut..tmpOut + tmpOutSize];
        assert block == mem[..][tmpOut..tmpOut + tmpOutSize];
      }
    }

    /** Bytes of the block in tmpOut to the caller's buffer. */
    method Flush(dstPtr: nat, n: nat, dstStart: nat)
      requires InBlock() && n <= tmpOutSize - tmpOutStart && Output(dstStart, dstPtr) && Outside(dstStart, dstPtr + n)
      requires Where().Free(dstPtr, dstPtr + n)
      modifies this`dict, this`dictSize, this`h, this`tmpOutStart, mem
      ensures InBlock() && Where().Holds(mem.Length) && tmpOutStart == old(tmpOutStart) + n
      ensures h == old(h) + old(Pending())[..n] && Pending() == old(Pending())[n..] && Output(dstStart, dstPtr + n)
      ensures dict == tmp || dictSize == 0 || dict + dictSize == dstPtr + n
    {
      hide Stored, ReadyIn, OutputIn, FlushingIn;
      if linked {
        FlushCopy(dstPtr, n, dstStart);
        UpdateDictTmp(dstPtr, n, dstStart);
        FlushingHolds(mem[..], h, Where());
      } else {
        FlushPlain(dstPtr, n, dstStart);
      }
    }

    method FlushPlain(dstPtr: nat, n: nat, ghost dstStart: nat)
      requires Where().Holds(mem.Length) && n <= tmpOutSize - tmpOutStart && Output(dstStart, dstPtr)
      requires Outside(dstStart, dstPtr + n)
      modifies this`h, this`tmpOutStart, mem
      ensures Where().Holds(mem.Length) && tmpOutStart == old(tmpOutStart) + n
      ensures h == old(h) + old(Pending())[..n] && Pending() == old(Pending())[n..] && Output(dstStart, dstPtr + n)
    {
      hide Stored, OutputIn, PendingIn;
      ghost var m, p := mem[..], Pending();
      assert dstStart <= dstPtr by { OutputRange(m, h, dstStart, dstPtr); }
      FlushBytes(mem, dstPtr, Where(), n);
      OutputStored(m, mem[..], h, dstStart, dstPtr, dstPtr, n);
      OutputMore(mem[..], h, p[..n], dstStart, dstPtr);
      h := h + p[..n];
      tmpOutStart := tmpOutStart + n;
    }

    // -------------------------------------------------------------- end of a call

    /** Moves a history in the caller's buffer to tmpOutBuffer, between blocks. */
    method Preserve()
      requires Ready() && dict != tmp && maxBuffer >= WINDOW && (dictSize > 0 || |h| == 0)
      modifies this`dict, this`dictSize, this`tmpOut, mem
      ensures Ready() && dict == tmp && Stored(old(mem[..]), mem[..], tmp, reserve)
    {
      hide Window, Stored;
      var size := Min(dictSize, WINDOW);
      KeepFits(dictSize, h);
      if dictSize > 0 {
        MoveWindow(mem, tmp, dict + dictSize - size, size, reserve, h);
      } else {
        StoredNothing(mem[..], tmp, reserve);
      }
      dict, dictSize, tmpOut := tmp, size, tmp + size;
    }
  }

  /** A block of 64 KB of zeros. */
  const LONG := EncodeLast(Zeros(WINDOW))

  lemma LongDecodes(s: seq<byte>)
    ensures Decode(LONG, 0, s) == Some(s + Zeros(WINDOW)) && Legal(LONG, 0, s, |s| + 4 * WINDOW)
  {
    hide Decode, EncodeLast, Legal;
    var z := Zeros(WINDOW);
    DecodeOfEncode([], z, s);
    assert EncodeSequences([]) + LONG == LONG;
    LastLegal(s, z, |s| + 4 * WINDOW);
  }

  lemma LastLegal(s: seq<byte>, last: seq<byte>, cap: nat)
    requires |last| < U32 && |s| + |last| <= cap
    ensures Legal(EncodeLast(last), 0, s, cap)
  {
    hide EncodeLast;
    var src := EncodeLast(last);
    assert src[0..] == src;
    ParseEncodedLast(src, 0, last);
  }

  /** A decoder of linked blocks of up to 256 KB at the start of a frame; its buffer begins with a zero. */
  method BlankHistory() returns (t: History)
    ensures fresh(t) && fresh(t.mem) && t.linked && t.h == [] && t.tmp == 16 && t.maxBuffer == t.reserve == 6 * WINDOW
    ensures t.mem.Length == 16 + 6 * WINDOW && t.mem[16] == 0
    ensures t.Between() && t.dict == NULL && t.dictSize == 0
  {
    hide ReadyIn;
    var mem := new byte[16 + 6 * WINDOW](_ => 0);
    t := new History(mem, 16, 6 * WINDOW);
    t.maxBuffer, t.linked := 6 * WINDOW, true;
    ReadyNone(mem[..], t.Where());
  }

  /** It decodes a block of one byte to the caller's buffer. */
  method OneByteOut() returns (t: History)
    ensures fresh(t) && fresh(t.mem) && t.linked && t.h == [1] && t.tmp == 16 && t.maxBuffer == t.reserve == 6 * WINDOW
    ensures t.mem.Length == 16 + 6 * WINDOW && t.mem[16] == 0
    ensures t.Between() && t.Output(0, 1) && t.dict == 0 && t.dictSize == 1
  {
    hide ReadyIn, Stored, Window;
    t := BlankHistory();
    ghost var m := t.mem[..];
    t.CopyRaw([1], 0, 0);
    ReadyParts(t.mem[..], [1], t.Where());
    ByteKept(m, t.mem[..], 1, 16);
  }

  lemma ByteKept(m: seq<byte>, m': seq<byte>, n: nat, k: nat)
    requires Stored(m, m', 0, n) && n <= k < |m|
    ensures |m'| == |m| && m'[k] == m[k]
  {
    assert m'[k] == m'[n..][k - n] && m[k] == m[n..][k - n];
  }

  /**
  The decoder does come into such a state: a block of one byte goes to the caller's buffer, one of 64 KB to tmpOut,
  and then the call ends: the byte is not copied in front of the block, where the dictionary is now said to be.
  */
  method WindowLateInFlush() returns (t: History)
    ensures fresh(t) && t.linked && t.Flushing() && t.h == [1] && t.dict == t.tmp && t.dictSize == 1
    ensures !Window(t.mem[..], t.h, t.dict + t.dictSize)
  {
    hide Decode, Legal, ReadyIn, FlushingIn, Stored, OutputIn, Window, PendingIn;
    t := OneByteOut();
    ghost var m := t.mem[..];
    assert m[16..17] == [0];
    LongDecodes([1]);
    var ok, block := t.DecodeToTmpOut(LONG, 4 * WINDOW, 0, 1, 1);
    assert t.Past() == [1];
    assert ok && [1] + block == [1] + Zeros(WINDOW);
    assert |[1] + block| == 1 + WINDOW;
    ghost var m' := t.mem[..];
    t.CopyInFront();
    FlushingEnd(m', t.h, t.Where());
    Untouched(m, m', 17, 4 * WINDOW, 16, 17);
    NoWindow(m', 17);
  }

  lemma NoWindow(m: seq<byte>, end: nat)
    requires 0 < end <= |m| && m[end - 1..end] != [1]
    ensures !Window(m, [1], end)
  {
    assert [1][0..] == [1];
  }

  /** Moves the `n` bytes that end with a window from `from` to `at`. */
  method MoveWindow(mem: array<byte>, at: nat, from: nat, n: nat, ghost room: nat, ghost s: seq<byte>)
    requires n <= room && at + room <= mem.Length && from + n <= mem.Length && (at + n <= from || from + n <= at)
    requires Keep(|s|) <= n && Window(mem[..], s, from + n)
    modifies mem
    ensures Window(mem[..], s, at + n) && Stored(old(mem[..]), mem[..], at, room)
  {
    hide Window, Stored, Keep;
    ghost var m := mem[..];
    Memcpy(mem, at, from, n);
    StoredWithin(m, mem[..], at, n, at, room);
    WindowMoves(m, mem[..], s, from + n, at + n, n);
  }

  /** The first `n` bytes still to be flushed to `d`. */
  method FlushBytes(mem: array<byte>, d: nat, p: Place, n: nat)
    requires p.Holds(mem.Length) && p.start + n <= p.size && p.Outside(mem.Length, d, d + n)
    modifies mem
    ensures mem[..][d..d + n] == PendingIn(old(mem[..]), p)[..n]
    ensures PendingIn(mem[..], p.(start := p.start + n)) == PendingIn(old(mem[..]), p)[n..]
    ensures Stored(old(mem[..]), mem[..], d, n)
  {
    hide Stored;
    ghost var m := mem[..];
    var from := p.out + p.start;
    Halves(m, from, p.size - p.start, n);
    Memcpy(mem, d, from, n);
    Untouched(m, mem[..], d, n, from + n, p.out + p.size);
  }

  /** Moves the last `keep` bytes of a window, at `from`, to `at`, and `n` more bytes behind them. */
  method JoinBytes(mem: array<byte>, at: nat, ghost size: nat, from: nat, keep: nat, dstPtr: nat, n: nat,
      ghost s: seq<byte>)
    requires keep + n <= size && at + size <= mem.Length && from + keep <= mem.Length && dstPtr + n <= mem.Length
    requires at + keep <= from || from + keep <= at
    requires dstPtr + n <= at || at + size <= dstPtr
    requires keep <= Keep(|s|) && Window(mem[..], s, from + keep)
    modifies mem
    ensures mem[..][at..at + keep + n] == s[|s| - keep..] + old(mem[..])[dstPtr..dstPtr + n]
    ensures Stored(old(mem[..]), mem[..], at, size)
  {
    hide Window, Stored, Keep;
    ghost var m0 := mem[..];
    WindowPart(m0, s, from, keep);
    Memcpy(mem, at, from, keep);
    ghost var m1 := mem[..];
    Memcpy(mem, at + keep, dstPtr, n);
    CopiedTwice(m0, m1, mem[..], at, keep, dstPtr, n, size);
  }

  /** Two copies one behind the other, the second from a place the first did not touch. */
  lemma CopiedTwice(m0: seq<byte>, m1: seq<byte>, m2: seq<byte>, at: nat, a: nat, from: nat, b: nat, size: nat)
    requires Stored(m0, m1, at, a) && Stored(m1, m2, at + a, b) && a + b <= size && at + size <= |m0| == |m1| == |m2|
    requires from + b <= |m0| && (from + b <= at || at + a <= from) && m2[at + a..at + a + b] == m1[from..from + b]
    ensures m2[at..at + a + b] == m1[at..at + a] + m0[from..from + b] && Stored(m0, m2, at, size)
  {
    hide Stored;
    Untouched(m0, m1, at, a, from, from + b);
    Untouched(m1, m2, at + a, b, at, at + a);
    StoredWithin(m0, m1, at, a, at, size);
    StoredWithin(m1, m2, at + a, b, at, size);
    StoredTwice(m0, m1, m2, at, size);
    Split(m2, at, at + a, at + a + b);
  }

  lemma JoinedWindow(m: seq<byte>, s: seq<byte>, d: seq<byte>, at: nat, preserve: nat)
    requires preserve <= |s| && at + preserve + |d| <= |m| && m[at..at + preserve + |d|] == s[|s| - preserve..] + d
    requires preserve + |d| == WINDOW || (preserve == |s| && |s| + |d| < WINDOW)
    ensures Window(m, s + d, at + preserve + |d|) && Exact(preserve + |d|, |s + d|)
  {
    hide Window;
    assert s[|s| - preserve..] + d == (s + d)[|s + d| - (preserve + |d|)..];
    WindowOfRun(m, s + d, at, at + preserve + |d|);
  }

  /** What the block decoder gets as its dictionary agrees with the output as far as offsets reach. */
  lemma DictInReach(m: seq<byte>, s: seq<byte>, dict: int, dictSize: nat, used: nat, bytes: seq<byte>)
    requires Exact(dictSize, |s|) && (used == dictSize || used == WINDOW < dictSize)
    requires dictSize > 0 ==>
      && 0 <= dict && dict + dictSize <= |m| && Window(m, s, dict + dictSize)
      && bytes == m[dict + dictSize - used..dict + dictSize]
    requires dictSize == 0 ==> bytes == []
    ensures Lz4Decoder.InReach(bytes, s)
  {
    if |s| < WINDOW {
      if dictSize == 0 { assert s == []; } else { assert bytes == s[0..]; }
    } else {
      var end, n := dict + dictSize, DISTANCE_MAX;
      WindowPart(m, s, end - n, n);
      assert bytes[|bytes| - n..] == m[end - n..end];
    }
  }

  lemma StoredOnly(m: seq<byte>, mem: array<byte>, at: nat, n: nat)
    requires |m| == mem.Length && at + n <= |m|
    requires forall k :: 0 <= k < mem.Length && !(at <= k < at + n) ==> mem[k] == m[k]
    ensures Stored(m, mem[..], at, n)
  {
    assert mem[..][..at] == m[..at] && mem[..][at + n..] == m[at + n..];
  }

  /** Where the bytes in front of the flushed part of a block lie, and how many of them are needed. */
  function FrontSize(p: Place): int { Min(WINDOW - p.size, p.out - p.tmp) }

  function FrontFrom(p: Place): int { p.dict + p.dictSize - p.start - FrontSize(p) }

  lemma FrontFacts(m: seq<byte>, s: seq<byte>, p: Place)
    requires FlushingIn(m, s, p) && p.dict != p.tmp && p.dictSize > 0 && p.size < WINDOW
    ensures var c, from := FrontSize(p), FrontFrom(p);
      && 0 <= c && 0 <= from && p.tmp + c <= p.out && p.start + c <= Keep(|s|) <= |s|
      && from + c + p.start <= |m| && Window(m, s, from + (c + p.start))
      && (from + c <= p.tmp || p.tmp + p.reserve <= from)
      && (c + p.size == WINDOW || (c == |s| - p.start && c + p.size < WINDOW))
  {
    hide Window, Keep;
    FrontPart(p.out - p.tmp, p.dictSize, |s|, p.start, p.size, FrontSize(p));
    assert FrontFrom(p) + (FrontSize(p) + p.start) == p.dict + p.dictSize;
  }

  /** Copies what the window needs of the dictionary in front of the block in tmpOut. */
  method FrontBytes(mem: array<byte>, p: Place, ghost s: seq<byte>)
    requires FlushingIn(mem[..], s, p) && p.dict != p.tmp && p.dictSize > 0 && p.size < WINDOW
    modifies mem
    ensures Stored(old(mem[..]), mem[..], p.tmp, p.reserve)
    ensures p.Holds(mem.Length) && PendingIn(mem[..], p) == PendingIn(old(mem[..]), p)
    ensures Window(mem[..], s + PendingIn(mem[..], p), p.out + p.size)
    ensures mem[..][p.out..p.out + p.start] == old(mem[..])[p.out..p.out + p.start]
  {
    hide Window, Stored, Keep, Exact, ReadyIn, FrontSize, FrontFrom, FlushingIn;
    ghost var m := mem[..];
    FlushingHolds(m, s, p);
    FlushedLast(m, s, p);
    FrontFacts(m, s, p);
    PutFront(mem, p.out, p.size, FrontFrom(p), p.start, FrontSize(p), p.tmp, p.reserve, s, m);
    SameBlock(m, mem[..], p.out, p.size, p.start);
  }

  lemma NothingInFront(m: seq<byte>, s: seq<byte>, p: Place)
    requires FlushingIn(m, s, p) && (p.size >= WINDOW || |s| == 0)
    ensures Stored(m, m, p.tmp, p.reserve) && Window(m, s + PendingIn(m, p), p.out + p.size)
  {
    hide Window, Stored, Exact, ReadyIn;
    StoredNothing(m, p.tmp, p.reserve);
    BlockWindow(m, s, p.out, p.size, p.start);
  }

  /**
  With the window of the output and the block in place behind it, the dictionary may be taken to be in tmpOutBuffer.
  */
  lemma NowInTmp(m: seq<byte>, m': seq<byte>, s: seq<byte>, p: Place)
    requires FlushingIn(m, s, p) && |m'| == |m| && m'[p.out..p.out + p.start] == m[p.out..p.out + p.start]
    requires Window(m', s + PendingIn(m', p), p.out + p.size)
    ensures var q := p.(dict := p.tmp, dictSize := p.out - p.tmp + p.start);
      FlushingIn(m', s, q) && PendingIn(m', q) == PendingIn(m', p)
  {
    hide Window, Exact, ReadyIn;
  }

  /** Puts the bytes in front of the flushed part of a block also in front of the block itself. */
  method PutFront(mem: array<byte>, at: nat, ghost size: nat, from: nat, ghost flushed: nat, copySize: nat,
      ghost base: nat, ghost room: nat, ghost s: seq<byte>, ghost m: seq<byte>)
    requires m == mem[..] && base + copySize <= at && at + size <= base + room <= |m| && flushed <= size
    requires flushed + copySize <= Keep(|s|) <= |s| && s[|s| - flushed..] == m[at..at + flushed]
    requires from + copySize + flushed <= |m| && Window(m, s, from + (copySize + flushed))
    requires from + copySize <= base || base + room <= from
    requires copySize + size == WINDOW || (copySize == |s| - flushed && copySize + size < WINDOW)
    modifies mem
    ensures mem[..][at..at + size] == m[at..at + size] && Stored(m, mem[..], base, room)
    ensures Window(mem[..], s + m[at + flushed..at + size], at + size)
  {
    hide Window, Stored, Keep;
    Memcpy(mem, at - copySize, from, copySize);
    StoredWithin(m, mem[..], at - copySize, copySize, base, room);
    FrontCopied(m, mem[..], s, at, size, from, flushed, copySize);
  }

  lemma FrontCopied(m: seq<byte>, m': seq<byte>, s: seq<byte>, at: nat, size: nat, from: nat, flushed: nat,
      copySize: nat)
    requires copySize <= at && at + size <= |m| == |m'| && flushed <= size && from + copySize + flushed <= |m|
    requires Stored(m, m', at - copySize, copySize) && m'[at - copySize..at] == m[from..from + copySize]
    requires flushed + copySize <= Keep(|s|) <= |s| && s[|s| - flushed..] == m[at..at + flushed]
    requires Window(m, s, from + (copySize + flushed))
    requires copySize + size == WINDOW || (copySize == |s| - flushed && copySize + size < WINDOW)
    ensures m'[at..at + size] == m[at..at + size] && Window(m', s + m[at + flushed..at + size], at + size)
  {
    hide Window, Stored, Keep;
    Untouched(m, m', at - copySize, copySize, at, at + size);
    Halves(m, at, size, flushed);
    FrontWindow(m, m', s, m[at..at + size], at, from, flushed, copySize);
  }

  lemma FrontPart(preserve: nat, dictSize: nat, length: nat, flushed: nat, size: nat, copySize: nat)
    requires flushed <= length && flushed <= size < WINDOW && Exact(preserve, length - flushed)
    requires Exact(dictSize, length)
    requires copySize == Min(WINDOW - size, preserve)
    ensures flushed + copySize <= dictSize && flushed + copySize <= Keep(length) <= length
    ensures copySize + size == WINDOW || (copySize == length - flushed && copySize + size < WINDOW)
  {
  }

  lemma SameBlock(m: seq<byte>, m': seq<byte>, at: nat, size: nat, flushed: nat)
    requires at + size <= |m| == |m'| && flushed <= size && m'[at..at + size] == m[at..at + size]
    ensures m'[at..at + flushed] == m[at..at + flushed] && m'[at + flushed..at + size] == m[at + flushed..at + size]
  {
    Halves(m, at, size, flushed);
    Halves(m', at, size, flushed);
  }

  /** A block that is a window by itself, or all there is. */
  lemma BlockWindow(m: seq<byte>, s: seq<byte>, at: nat, size: nat, flushed: nat)
    requires at + size <= |m| && flushed <= size && flushed <= |s| && s[|s| - flushed..] == m[at..at + flushed]
    requires size >= WINDOW || |s| == flushed
    ensures Window(m, s + m[at + flushed..at + size], at + size)
  {
    hide Window;
    var t := s + m[at + flushed..at + size];
    Split(m, at, at + flushed, at + size);
    assert t[|t| - size..] == s[|s| - flushed..] + m[at + flushed..at + size];
    WindowOfRun(m, t, at, at + size);
  }

  /**
  The end of what has been flushed and what is to be flushed is the block, with the bytes before the flushed part in
  front.
  */
  lemma TailJoin(s: seq<byte>, b: seq<byte>, flushed: nat, copySize: nat)
    requires flushed <= |b| && flushed + copySize <= |s| && s[|s| - flushed..] == b[..flushed]
    ensures var t := s + b[flushed..];
      t[|t| - (copySize + |b|)..] == s[|s| - flushed - copySize..|s| - flushed] + b
  {
    var t, x := s + b[flushed..], s[|s| - flushed - copySize..|s| - flushed];
    assert s == s[..|s| - flushed - copySize] + x + s[|s| - flushed..];
    assert b == b[..flushed] + b[flushed..];
    assert t == s[..|s| - flushed - copySize] + (x + b);
  }

  /**
  With the `copySize` bytes at `from`, in front of the flushed part, put before the block `b`, the window of the output
  and the rest of the block ends with the block.
  */
  lemma FrontWindow(m: seq<byte>, m': seq<byte>, s: seq<byte>, b: seq<byte>, at: nat, from: nat, flushed: nat,
      copySize: nat)
    requires flushed <= |b| && copySize <= at && at + |b| <= |m'| && m'[at..at + |b|] == b
    requires flushed + copySize <= Keep(|s|) <= |s| && s[|s| - flushed..] == b[..flushed]
    requires from + copySize + flushed <= |m| && Window(m, s, from + (copySize + flushed))
    requires m'[at - copySize..at] == m[from..from + copySize]
    requires copySize + |b| == WINDOW || (copySize == |s| - flushed && copySize + |b| < WINDOW)
    ensures Window(m', s + b[flushed..], at + |b|)
  {
    hide Window, Keep;
    var n := copySize + flushed;
    WindowPart(m, s, from, n);
    Halves(m, from, n, copySize);
    FirstOfTail(s, n, copySize);
    TailJoin(s, b, flushed, copySize);
    Split(m', at - copySize, at, at + |b|);
    WindowOfRun(m', s + b[flushed..], at - copySize, at + |b|);
  }

  lemma FirstOfTail(s: seq<byte>, n: nat, k: nat)
    requires k <= n <= |s|
    ensures s[|s| - n..][..k] == s[|s| - n..|s| - n + k]
  {
  }

  /** A window of the history fits an exact dictionary. */
  lemma KeepFits(size: nat, s: seq<byte>)
    requires Exact(size, |s|)
    ensures Keep(|s|) <= size && (size < WINDOW ==> size == |s|)
  {
  }

  lemma EmptyWindow(m: seq<byte>, s: seq<byte>, end: nat)
    requires s == [] && end <= |m|
    ensures Window(m, s, end)
  {
  }
}
