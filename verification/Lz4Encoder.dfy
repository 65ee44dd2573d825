/**
LZ4_loadDict and LZ4_compress_fast_continue: the hash-table encoder with a dictionary, limited output
and 32-bit table entries. Positions are indices into the window `w`, the kept dictionary followed by
the source; table entries are the C code's indices, in which the source starts at 64 KB.
*/
module Lz4Encoder {
  import opened Bytes
  import opened Lz4Format
  import opened Lz4Copy

  const MAX_INPUT_SIZE := 0x7E00_0000
  const MIN_LENGTH := MFLIMIT + 1
  const SKIP_TRIGGER := 64
  const ACCELERATION_MAX := 65537
  const HASH_SIZE := 4096
  const HASH_UNIT := 8
  const START_INDEX := 64 * KB

  /** LZ4_COMPRESSBOUND. */
  function CompressBound(n: nat): nat { if n > MAX_INPUT_SIZE then 0 else n + n / 255 + 16 }

  // ---------------------------------------------------------------- emitting

  /** Length bytes of a literal run: 255 as often as it fits, then the rest. */
  method PutLength(dst: array<byte>, op: nat, n: nat) returns (op': nat)
    requires op + n / 255 + 1 <= dst.Length
    modifies dst
    ensures op' == op + n / 255 + 1 && dst[op..op'] == LengthBytes(n)
    ensures OnlyWithin(dst, op, op')
  {
    var len := n;
    op' := op;
    while len >= 255
      invariant 0 <= len && op <= op' && op' + len / 255 + 1 == op + n / 255 + 1
      invariant dst[op..op'] + LengthBytes(len) == LengthBytes(n)
      invariant OnlyWithin(dst, op, op')
      decreases len
    {
      ghost var before := dst[op..op'];
      dst[op'] := 255;
      op' := op' + 1;
      assert dst[op..op'] == before + [255];
      assert before + [255] + LengthBytes(len - 255) == before + LengthBytes(len);
      len := len - 255;
    }
    ghost var before := dst[op..op'];
    dst[op'] := len;
    op' := op' + 1;
    assert dst[op..op'] == before + [len];
  }

  /** Length bytes of a match: four 255s are stored at once and then partly kept, so stores run ahead of `op`. */
  method PutMatchLength(dst: array<byte>, op: nat, n: nat, ghost olimit: nat) returns (op': nat)
    requires op + n / 255 + 1 + 3 <= olimit <= dst.Length
    modifies dst
    ensures op' == op + n / 255 + 1 && dst[op..op'] == LengthBytes(n)
    ensures OnlyWithin(dst, op, olimit)
  {
    hide LengthBytes;
    var code := n;
    op' := op;
    Put4(dst, op', olimit);
    while code >= 4 * 255
      invariant 0 <= code && op <= op' && code + 255 * (op' - op) == n
      invariant forall k :: op <= k < op' + 4 ==> dst[k] == 255
      invariant OnlyWithin(dst, op, olimit)
      decreases code
    {
      op' := op' + 4;
      Put4(dst, op', olimit);
      code := code - 4 * 255;
    }
    op' := op' + code / 255;
    dst[op'] := code % 255;
    op' := op' + 1;
    LengthBytesAre(n, dst[op..op']);
  }

  /** LZ4_write32 of 0xFFFFFFFF. */
  method Put4(dst: array<byte>, op: nat, ghost olimit: nat)
    requires op + 4 <= olimit <= dst.Length
    modifies dst
    ensures forall k :: op <= k < op + 4 ==> dst[k] == 255
    ensures OnlyWithin(dst, op, op + 4)
  {
    dst[op], dst[op + 1], dst[op + 2], dst[op + 3] := 255, 255, 255, 255;
  }

  lemma {:induction false} LengthBytesAre(n: nat, s: seq<byte>)
    requires |s| >= 1 && n == 255 * (|s| - 1) + s[|s| - 1] && s[|s| - 1] < 255
    requires forall k :: 0 <= k < |s| - 1 ==> s[k] == 255
    ensures s == LengthBytes(n)
  {
    if |s| > 1 {
      LengthBytesAre(n - 255, s[1..]);
      assert s == [255] + s[1..];
    }
  }

  /** Token and length bytes of a run of `n` literals. */
  method PutRunHead(dst: array<byte>, op: nat, n: nat) returns (op': nat)
    requires op + 1 + TailSize(n) <= dst.Length
    modifies dst
    ensures op' == op + 1 + TailSize(n) && dst[op..op'] == [Nibble(n) * 16] + LengthTail(n)
    ensures OnlyWithin(dst, op, op')
  {
    hide LengthBytes;
    op' := op + 1;
    if n >= RUN_MASK {
      dst[op] := RUN_MASK * 16;
      op' := PutLength(dst, op', n - RUN_MASK);
    } else {
      dst[op] := n * 16;
    }
    assert dst[op + 1..op'] == LengthTail(n);
    assert dst[op..op'] == [dst[op]] + dst[op + 1..op'];
  }

  /** Literal run of a sequence that has a match: budget check, token, length, and an overshooting copy. */
  method PutLiterals(dst: array<byte>, op: nat, olimit: nat, w: seq<byte>, anchor: nat, ip: nat)
      returns (ok: bool, op': nat)
    requires anchor <= ip && ip + 8 <= |w| && op <= olimit <= dst.Length
    modifies dst
    ensures ok <==> op + 1 + (ip - anchor) + (2 + 1 + LASTLITERALS) + (ip - anchor) / 255 <= olimit
    ensures ok ==> op' == op + 1 + TailSize(ip - anchor) + (ip - anchor)
    ensures ok ==> dst[op..op'] == [Nibble(ip - anchor) * 16] + LengthTail(ip - anchor) + w[anchor..ip]
    ensures OnlyWithin(dst, op, olimit)
  {
    hide LengthTail;
    var litLength := ip - anchor;
    op' := op + 1;
    ok := op' + litLength + (2 + 1 + LASTLITERALS) + litLength / 255 <= olimit;
    if !ok { return; }
    op' := PutRunHead(dst, op, litLength);
    ghost var head := dst[op..op'];
    WildCopyIn(dst, op', op' + litLength, w, anchor, 8);
    Copied(dst, op', w, anchor, litLength);
    assert dst[op..op'] == head;
    op' := op' + litLength;
    assert dst[op..op'] == head + w[anchor..ip];
  }

  /** Offset and match length; the match nibble is added to the token written before. */
  method PutMatch(dst: array<byte>, token: nat, op: nat, olimit: nat, offset: nat, matchCode: nat)
      returns (ok: bool, op': nat)
    requires token < op && op + 2 <= olimit <= dst.Length && offset <= DISTANCE_MAX && dst[token] % 16 == 0
    modifies dst
    ensures ok <==> op + 2 + (1 + LASTLITERALS) + (matchCode + 240) / 255 <= olimit
    ensures ok ==> op' == op + 2 + TailSize(matchCode) && dst[token] == old(dst[token]) + Nibble(matchCode)
    ensures ok ==> dst[op..op'] == [offset % 256, offset / 256] + LengthTail(matchCode)
    ensures forall k :: 0 <= k < op && k != token ==> dst[k] == old(dst[k])
    ensures forall k :: olimit <= k < dst.Length ==> dst[k] == old(dst[k])
  {
    hide LengthBytes;
    dst[op], dst[op + 1] := offset % 256, offset / 256;
    op' := op + 2;
    ok := op' + (1 + LASTLITERALS) + (matchCode + 240) / 255 <= olimit;
    if !ok { return; }
    if matchCode >= ML_MASK {
      dst[token] := dst[token] + ML_MASK;
      op' := PutMatchLength(dst, op', matchCode - ML_MASK, olimit);
    } else {
      dst[token] := dst[token] + matchCode;
    }
    assert dst[op + 2..op'] == LengthTail(matchCode);
    assert dst[op..op'] == [dst[op], dst[op + 1]] + dst[op + 2..op'];
  }

  /** The last literals; here the copy is exact. */
  method PutLast(dst: array<byte>, op: nat, olimit: nat, w: seq<byte>, anchor: nat) returns (ok: bool, op': nat)
    requires anchor <= |w| && op <= olimit <= dst.Length
    modifies dst
    ensures ok <==> op + (|w| - anchor) + 1 + (|w| - anchor + 255 - RUN_MASK) / 255 <= olimit
    ensures ok ==> op <= op' <= olimit && dst[op..op'] == EncodeLast(w[anchor..])
    ensures OnlyWithin(dst, op, olimit)
  {
    hide LengthTail;
    var lastRun := |w| - anchor;
    op' := op;
    ok := op + lastRun + 1 + (lastRun + 255 - RUN_MASK) / 255 <= olimit;
    if !ok { return; }
    op' := PutRunHead(dst, op, lastRun);
    ghost var head := dst[op..op'];
    CopyIn(dst, op', w, anchor, lastRun);
    Copied(dst, op', w, anchor, lastRun);
    assert dst[op..op'] == head;
    op' := op' + lastRun;
    assert dst[op..op'] == head + w[anchor..];
  }

  // ---------------------------------------------------------------- sequences

  /** What has been emitted so far: sequences that expand the dictionary w[..d] to w[..anchor], politely. */
  ghost predicate Emitted(out: seq<byte>, w: seq<byte>, d: nat, anchor: nat, ss: seq<Sequence>) {
    && d <= anchor <= |w| && |w| < U32
    && (forall s :: s in ss ==> s.Valid())
    && out == EncodeSequences(ss)
    && Expand(w[..d], ss) == Some(w[..anchor])
    && Polite(w[..d], ss, |w|)
  }

  /** A verified match extends the expansion by the bytes it covers. */
  lemma MatchExpands(w: seq<byte>, ip: nat, end: nat, offset: nat)
    requires 0 < offset <= ip <= end <= |w| && Repeats(w, ip, end, offset)
    ensures CopyMatch(w[..ip], offset, end - ip) == w[..end]
  {
    var r := w[..end];
    assert r[..ip] == w[..ip];
    forall k | ip <= k < |r| ensures r[k] == r[k - offset] {
      assert w[k] == w[k - offset];
    }
    CopyMatchUnique(w[..ip], offset, end - ip, r);
  }

  lemma EmittedStep(out: seq<byte>, w: seq<byte>, d: nat, anchor: nat, ss: seq<Sequence>, ip: nat, end: nat,
      offset: nat)
    requires Emitted(out, w, d, anchor, ss)
    requires anchor <= ip <= |w| - MFLIMIT && ip + MINMATCH <= end <= |w| - LASTLITERALS
    requires 0 < offset <= ip && offset <= DISTANCE_MAX && Repeats(w, ip, end, offset)
    ensures var s := Sequence(w[anchor..ip], offset, end - ip);
      s.Valid() && Emitted(out + EncodeSequence(s), w, d, end, ss + [s])
  {
    hide EncodeSequence, CopyMatch;
    var s := Sequence(w[anchor..ip], offset, end - ip);
    var ss' := ss + [s];
    assert ss'[..|ss'| - 1] == ss && ss'[|ss'| - 1] == s;
    assert w[..anchor] + w[anchor..ip] == w[..ip];
    MatchExpands(w, ip, end, offset);
    assert Expand(w[..d], ss') == Some(w[..end]);
  }

  /** The laid-out sequence is the run head and literals, with the match nibble added, then offset and match length. */
  lemma SequenceLaidOut(head: seq<byte>, tail: seq<byte>, s: Sequence)
    requires s.Valid()
    requires head ==
      [Nibble(|s.literals|) * 16 + Nibble(s.matchLength - MINMATCH)] + LengthTail(|s.literals|) + s.literals
    requires tail == [s.offset % 256, s.offset / 256] + LengthTail(s.matchLength - MINMATCH)
    ensures head + tail == EncodeSequence(s)
  {
    assert head + tail == head + [s.offset % 256, s.offset / 256] + LengthTail(s.matchLength - MINMATCH);
  }

  /**
  A stored run whose token then got the match nibble, and the stored offset and match length, are the laid-out sequence.
  */
  lemma SequenceStored(dst: array<byte>, op: nat, mid: nat, end: nat, run: seq<byte>, s: Sequence)
    requires s.Valid() && op < mid <= end <= dst.Length && |run| == mid - op
    requires run == [Nibble(|s.literals|) * 16] + LengthTail(|s.literals|) + s.literals
    requires dst[op] == run[0] + Nibble(s.matchLength - MINMATCH) && dst[op + 1..mid] == run[1..]
    requires dst[mid..end] == [s.offset % 256, s.offset / 256] + LengthTail(s.matchLength - MINMATCH)
    ensures dst[op..end] == EncodeSequence(s)
  {
    hide EncodeSequence, LengthTail, Nibble;
    TokenReplaced(Nibble(|s.literals|) * 16, dst[op], LengthTail(|s.literals|), s.literals);
    SequenceLaidOut([dst[op]] + run[1..], dst[mid..end], s);
    assert dst[op..end] == [dst[op]] + dst[op + 1..mid] + dst[mid..end];
  }

  lemma TokenReplaced(a: byte, b: byte, x: seq<byte>, y: seq<byte>)
    ensures [b] + ([a] + x + y)[1..] == [b] + x + y
  {
    assert ([a] + x + y)[1..] == x + y;
  }

  /** Output never runs ahead of the worst case for the input consumed so far. */
  predicate Budget(op: nat, consumed: nat) { op <= consumed + consumed / 255 }

  lemma BudgetStep(op: nat, consumed: nat, literals: nat, matchLength: nat)
    requires Budget(op, consumed) && matchLength >= MINMATCH
    ensures Budget(op + 1 + TailSize(literals) + literals + 2 + TailSize(matchLength - MINMATCH),
                   consumed + literals + matchLength)
  {
  }

  /** With room for CompressBound(n) the limited-output checks of a sequence never fail. */
  lemma BudgetSuffices(op: nat, consumed: nat, literals: nat, matchLength: nat, n: nat)
    requires Budget(op, consumed) && matchLength >= MINMATCH
    requires consumed + literals + matchLength <= n - LASTLITERALS
    ensures op + 1 + literals + (2 + 1 + LASTLITERALS) + literals / 255 <= n + n / 255 + 16
    ensures op + 1 + TailSize(literals) + literals + 2 + (1 + LASTLITERALS) + (matchLength - MINMATCH + 240) / 255
      <= n + n / 255 + 16
  {
  }

  /** Budget checks of a sequence: before the literals (unless `direct`), and before the match length. */
  predicate Fits(op: nat, olimit: nat, literals: nat, matchCode: nat, direct: bool) {
    && (direct || op + 1 + literals + (2 + 1 + LASTLITERALS) + literals / 255 <= olimit)
    && op + 1 + TailSize(literals) + literals + 2 + (1 + LASTLITERALS) + (matchCode + 240) / 255 <= olimit
  }

  /**
  Token and literals of a sequence. `direct` is the path that follows a match at once (label _next_match):
  no literals, and no check before the token and the offset.
  */
  method PutRun(dst: array<byte>, op: nat, olimit: nat, w: seq<byte>, anchor: nat, ip: nat, direct: bool)
    returns (ok: bool, op': nat)
    requires op <= olimit <= dst.Length && anchor <= ip && ip + 8 <= |w|
    requires direct ==> ip == anchor && op < olimit
    modifies dst
    ensures ok <==> direct || op + 1 + (ip - anchor) + (2 + 1 + LASTLITERALS) + (ip - anchor) / 255 <= olimit
    ensures ok ==> op' == op + 1 + TailSize(ip - anchor) + (ip - anchor)
    ensures ok ==> dst[op..op'] == [Nibble(ip - anchor) * 16] + LengthTail(ip - anchor) + w[anchor..ip]
    ensures OnlyWithin(dst, op, olimit)
  {
    hide LengthTail;
    if direct {
      dst[op] := 0;
      ok, op' := true, op + 1;
      assert dst[op..op'] == [0] && w[anchor..ip] == [];
      EmptyRun();
    } else {
      ok, op' := PutLiterals(dst, op, olimit, w, anchor, ip);
    }
  }

  /** One sequence: literals w[anchor..ip], then a match. */
  method PutSequence(dst: array<byte>, op: nat, olimit: nat, w: seq<byte>, anchor: nat, ip: nat, offset: nat,
      matchCode: nat, direct: bool)
    returns (ok: bool, op': nat)
    requires op <= olimit <= dst.Length && anchor <= ip && ip + 8 <= |w| && offset <= DISTANCE_MAX
    requires ip - anchor < U32 && matchCode + MINMATCH < U32
    requires direct ==> ip == anchor && op + 1 + LASTLITERALS <= olimit
    modifies dst
    ensures ok <==> Fits(op, olimit, ip - anchor, matchCode, direct)
    ensures ok ==> op' == op + 1 + TailSize(ip - anchor) + (ip - anchor) + 2 + TailSize(matchCode)
    ensures ok ==> dst[op..op'] == EncodeSequence(Sequence(w[anchor..ip], offset, matchCode + MINMATCH))
    ensures OnlyWithin(dst, op, olimit)
  {
    hide EncodeSequence, LengthTail;
    ok, op' := PutRun(dst, op, olimit, w, anchor, ip, direct);
    if !ok { return; }
    ghost var run := dst[op..op'];
    assert dst[op] == run[0] && dst[op + 1..op'] == run[1..];
    var mid := op';
    ok, op' := PutMatch(dst, op, mid, olimit, offset, matchCode);
    if ok {
      assert dst[op + 1..mid] == run[1..];
      SequenceStored(dst, op, mid, op', run, Sequence(w[anchor..ip], offset, matchCode + MINMATCH));
    }
  }

  /** Emits a verified match and the literals before it. */
  method EmitSequence(dst: array<byte>, op: nat, olimit: nat, w: seq<byte>, anchor: nat, ip: nat, end: nat, offset: nat,
                      direct: bool, ghost d: nat, ghost ss: seq<Sequence>)
    returns (ok: bool, op': nat)
    requires op <= olimit <= dst.Length && d <= anchor && Budget(op, anchor - d) && Emitted(dst[..op], w, d, anchor, ss)
    requires anchor <= ip <= |w| - MFLIMIT && ip + MINMATCH <= end <= |w| - LASTLITERALS
    requires 0 < offset <= ip && offset <= DISTANCE_MAX && Repeats(w, ip, end, offset)
    requires direct ==> ip == anchor && op + 1 + LASTLITERALS <= olimit
    modifies dst
    ensures ok ==> op < op' && op' + 1 + LASTLITERALS <= olimit
    ensures ok ==> Emitted(dst[..op'], w, d, end, ss + [Sequence(w[anchor..ip], offset, end - ip)])
    ensures ok ==> Budget(op', end - d)
    ensures olimit >= CompressBound(|w| - d) > 0 ==> ok
    ensures OnlyWithin(dst, op, olimit)
  {
    hide EncodeSequence, Emitted, Repeats;
    EmittedRange(dst[..op], w, d, anchor, ss);
    EmittedStep(dst[..op], w, d, anchor, ss, ip, end, offset);
    BudgetStepIf(op, anchor - d, ip - anchor, end - ip, |w| - d);
    ok, op' := PutSequence(dst, op, olimit, w, anchor, ip, offset, end - ip - MINMATCH, direct);
    if ok {
      assert dst[..op] == old(dst[..op]);
      assert dst[..op'] == dst[..op] + dst[op..op'];
    }
  }

  lemma EmittedRange(out: seq<byte>, w: seq<byte>, d: nat, anchor: nat, ss: seq<Sequence>)
    requires Emitted(out, w, d, anchor, ss)
    ensures d <= anchor <= |w| && |w| < U32
  {
    hide EncodeSequences, Expand, Polite;
  }

  lemma EmptyRun()
    ensures [Nibble(0) * 16] + LengthTail(0) + [] == [0]
  {
  }

  lemma BudgetStepIf(op: nat, consumed: nat, literals: nat, matchLength: nat, n: nat)
    requires matchLength >= MINMATCH && consumed + literals + matchLength <= n - LASTLITERALS
    ensures Budget(op, consumed) ==>
      && Budget(op + 1 + TailSize(literals) + literals + 2 + TailSize(matchLength - MINMATCH),
                consumed + literals + matchLength)
      && op + 1 + literals + (2 + 1 + LASTLITERALS) + literals / 255 <= n + n / 255 + 16
      && op + 1 + TailSize(literals) + literals + 2 + (1 + LASTLITERALS) + (matchLength - MINMATCH + 240) / 255
         <= n + n / 255 + 16
  {
    if Budget(op, consumed) {
      BudgetStep(op, consumed, literals, matchLength);
      BudgetSuffices(op, consumed, literals, matchLength, n);
    }
  }

  // ---------------------------------------------------------------- counting

  predicate Same4(w: seq<byte>, x: nat, offset: nat)
    requires 0 < offset <= x && x + 4 <= |w|
  {
    && w[x] == w[x - offset] && w[x + 1] == w[x + 1 - offset]
    && w[x + 2] == w[x + 2 - offset] && w[x + 3] == w[x + 3 - offset]
  }

  lemma RepeatsMore(w: seq<byte>, from: nat, to: nat, offset: nat)
    requires 0 < offset <= from <= to < |w| && Repeats(w, from, to, offset) && w[to] == w[to - offset]
    ensures Repeats(w, from, to + 1, offset)
  {
  }

  lemma Repeats4(w: seq<byte>, from: nat, x: nat, offset: nat)
    requires 0 < offset <= from <= x && x + 4 <= |w| && Repeats(w, from, x, offset) && Same4(w, x, offset)
    ensures Repeats(w, from, x + 4, offset)
  {
    hide Repeats;
    RepeatsMore(w, from, x, offset);
    RepeatsMore(w, from, x + 1, offset);
    RepeatsMore(w, from, x + 2, offset);
    RepeatsMore(w, from, x + 3, offset);
  }

  /** The match cannot be continued at `end`. */
  predicate Stuck(w: seq<byte>, end: nat, limit: nat, offset: nat)
    requires 0 < offset <= end <= limit <= |w|
  {
    end == limit || w[end] != w[end - offset]
  }

  /** LZ4_NbCommonBytes: how many of the next eight bytes agree, when not all do. */
  method CommonBytes(w: seq<byte>, from: nat, x: nat, offset: nat) returns (end: nat)
    requires 0 < offset <= from <= x && x + 8 <= |w| && !(Same4(w, x, offset) && Same4(w, x + 4, offset))
    requires Repeats(w, from, x, offset)
    ensures x <= end < x + 8 && Repeats(w, from, end, offset) && w[end] != w[end - offset]
  {
    ghost var bad := Difference(w, x, offset);
    end := x;
    while w[end] == w[end - offset]
      invariant x <= end <= bad && Repeats(w, from, end, offset)
      decreases bad - end
    {
      RepeatsMore(w, from, end, offset);
      end := end + 1;
    }
  }

  lemma Difference(w: seq<byte>, x: nat, offset: nat) returns (bad: nat)
    requires 0 < offset <= x && x + 8 <= |w| && !(Same4(w, x, offset) && Same4(w, x + 4, offset))
    ensures x <= bad < x + 8 && w[bad] != w[bad - offset]
  {
    var from := if Same4(w, x, offset) then x + 4 else x;
    bad :=
      if w[from] != w[from - offset] then from
      else if w[from + 1] != w[from + 1 - offset] then from + 1
      else if w[from + 2] != w[from + 2 - offset] then from + 2
      else from + 3;
  }

  /** LZ4_count: the end of the longest match that starts at `from` and stays below `limit`. */
  method Count(w: seq<byte>, from: nat, offset: nat, limit: nat) returns (end: nat)
    requires 0 < offset <= from <= limit <= |w|
    ensures from <= end <= limit && Repeats(w, from, end, offset) && Stuck(w, end, limit, offset)
  {
    hide Repeats;
    end := from;
    assert Repeats(w, from, end, offset) by { RepeatsNone(w, from, offset); }
    while end < limit - 7
      invariant from <= end <= limit && Repeats(w, from, end, offset)
    {
      if !(Same4(w, end, offset) && Same4(w, end + 4, offset)) {
        end := CommonBytes(w, from, end, offset);
        return;
      }
      Repeats4(w, from, end, offset);
      Repeats4(w, from, end + 4, offset);
      end := end + 8;
    }
    end := CountTail(w, from, end, offset, limit);
  }

  lemma RepeatsNone(w: seq<byte>, from: nat, offset: nat)
    requires offset <= from <= |w|
    ensures Repeats(w, from, from, offset)
  {
  }

  /** The last seven bytes at most: four, two and one at a time. */
  method CountTail(w: seq<byte>, from: nat, x: nat, offset: nat, limit: nat) returns (end: nat)
    requires 0 < offset <= from <= x <= limit <= |w| && limit < x + 8 && Repeats(w, from, x, offset)
    ensures x <= end <= limit && Repeats(w, from, end, offset) && Stuck(w, end, limit, offset)
  {
    hide Repeats;
    end := x;
    if end < limit - 3 && Same4(w, end, offset) {
      Repeats4(w, from, end, offset);
      end := end + 4;
    }
    if end < limit - 1 && w[end] == w[end - offset] && w[end + 1] == w[end + 1 - offset] {
      RepeatsMore(w, from, end, offset);
      RepeatsMore(w, from, end + 1, offset);
      end := end + 2;
    }
    if end < limit && w[end] == w[end - offset] {
      RepeatsMore(w, from, end, offset);
      end := end + 1;
    }
  }

  lemma RepeatsJoin(w: seq<byte>, a: nat, b: nat, c: nat, offset: nat)
    requires offset <= a <= b <= c && Repeats(w, a, b, offset) && Repeats(w, b, c, offset)
    ensures Repeats(w, a, c, offset)
  {
  }

  /** Where a match known to reach `known` ends; inside the dictionary the count runs in two parts. */
  method MatchEnd(w: seq<byte>, d: nat, inDict: bool, ip: nat, offset: nat, ghost known: nat) returns (end: nat)
    requires 0 < offset <= ip && ip + MINMATCH <= known <= |w| - LASTLITERALS && Repeats(w, ip, known, offset)
    requires inDict ==> ip - offset < d <= ip && known - offset <= d
    ensures known <= end <= |w| - LASTLITERALS && Repeats(w, ip, end, offset)
    ensures Stuck(w, end, |w| - LASTLITERALS, offset)
  {
    hide Repeats;
    var matchlimit := |w| - LASTLITERALS;
    RepeatsPart(w, ip, known, ip + MINMATCH, offset);
    if inDict {
      var limit := Min(ip + (d - (ip - offset)), matchlimit);
      end := Count(w, ip + MINMATCH, offset, limit);
      Reaches(w, ip, known, end, limit, offset);
      RepeatsJoin(w, ip, ip + MINMATCH, end, offset);
      if end == limit {
        var more := Count(w, limit, offset, matchlimit);
        RepeatsJoin(w, ip, limit, more, offset);
        end := more;
      }
    } else {
      end := Count(w, ip + MINMATCH, offset, matchlimit);
      Reaches(w, ip, known, end, matchlimit, offset);
      RepeatsJoin(w, ip, ip + MINMATCH, end, offset);
    }
  }

  lemma RepeatsPart(w: seq<byte>, a: nat, b: nat, m: nat, offset: nat)
    requires offset <= a <= m <= b && Repeats(w, a, b, offset)
    ensures Repeats(w, a, m, offset)
  {
  }

  /** A count that got stuck got at least as far as the match is known to go. */
  lemma Reaches(w: seq<byte>, ip: nat, known: nat, end: nat, limit: nat, offset: nat)
    requires 0 < offset <= ip <= end <= limit <= |w| && known <= limit
    requires Repeats(w, ip, known, offset) && Stuck(w, end, limit, offset)
    ensures known <= end
  {
    if end != limit {
      var i := end - offset;
      assert w[end] != w[i];
    }
  }

  /** The catch-up loop: extends a match backwards over the pending literals. */
  method CatchUp(w: seq<byte>, anchor: nat, lowLimit: nat, start: nat, offset: nat, ghost known: nat) returns (ip: nat)
    requires anchor <= start <= known <= |w| && 0 < offset && lowLimit + offset <= start
    requires Repeats(w, start, known, offset)
    ensures anchor <= ip <= start && lowLimit + offset <= ip && Repeats(w, ip, known, offset)
    ensures ip == anchor || ip == lowLimit + offset || w[ip - 1] != w[ip - 1 - offset]
  {
    ip := start;
    while ip > anchor && ip - offset > lowLimit && w[ip - 1] == w[ip - 1 - offset]
      invariant anchor <= ip <= start && lowLimit + offset <= ip && Repeats(w, ip, known, offset)
    {
      ip := ip - 1;
    }
  }

  // ---------------------------------------------------------------- hash table

  /** LZ4_hash5 on the eight bytes at `p`, of which five count. */
  function Hash(w: seq<byte>, p: nat): (h: nat)
    requires p + HASH_UNIT <= |w|
    ensures h < HASH_SIZE
  {
    LE40(w[p], w[p + 1], w[p + 2], w[p + 3], w[p + 4])
    * 0x1000000 * 889523592379 % 0x1_0000_0000_0000_0000 / 0x10_0000_0000_0000
  }

  function LE40(a: int, b: int, c: int, d: int, e: int): int {
    a + 0x100 * b + 0x10000 * c + 0x1000000 * d + 0x100000000 * e
  }

  /** Every entry is empty or a position of the window before `bound`; dictionary entries leave room for a hash unit. */
  ghost predicate TableOk(table: array<nat>, low: nat, bound: nat)
    reads table
  {
    && table.Length == HASH_SIZE
    && forall h :: 0 <= h < HASH_SIZE ==>
         table[h] < bound && (table[h] == 0 || low <= table[h]) &&
           (table[h] < START_INDEX ==> table[h] + HASH_UNIT <= START_INDEX)
  }

  method PutPosition(table: array<nat>, w: seq<byte>, p: nat, low: nat, ghost bound: nat)
    requires p + HASH_UNIT <= |w| && TableOk(table, low, bound) && p + low < bound
    requires p + low < START_INDEX ==> p + low + HASH_UNIT <= START_INDEX
    modifies table
    ensures TableOk(table, low, bound)
    ensures table[..] == old(table[..])[Hash(w, p) := p + low]
  {
    hide Hash;
    var h := Hash(w, p);
    table[h] := p + low;
  }

  /** A match of at least four bytes at `ip` that an offset field can express and the window contains. */
  ghost predicate Found(w: seq<byte>, d: nat, ip: nat, offset: nat) {
    && ip + MFLIMIT <= |w| && 0 < offset <= DISTANCE_MAX && offset <= ip
    && Repeats(w, ip, ip + MINMATCH, offset)
    && (ip - offset < d ==> ip - offset + HASH_UNIT <= d)
  }

  /** An entry of the hash table is a match at `ip`: in the window, near enough, and with the same four bytes. */
  predicate Candidate(w: seq<byte>, d: nat, ip: nat, entry: nat)
    requires d <= START_INDEX && ip + MFLIMIT <= |w|
  {
    var low := START_INDEX - d;
    low <= entry < ip + low && ip + low - entry <= DISTANCE_MAX && Same4(w, ip, ip + low - entry)
  }

  /** Looks the position up, replaces the entry by it, and verifies the candidate. */
  method Probe(table: array<nat>, w: seq<byte>, d: nat, ip: nat) returns (found: bool, offset: nat)
    requires d <= START_INDEX && d <= ip && ip + MFLIMIT <= |w|
    requires TableOk(table, START_INDEX - d, ip + START_INDEX - d)
    modifies table
    ensures TableOk(table, START_INDEX - d, ip + 1 + START_INDEX - d)
    ensures found <==> Candidate(w, d, ip, old(table[Hash(w, ip)]))
    ensures found ==> Found(w, d, ip, offset) && offset == ip + START_INDEX - d - old(table[Hash(w, ip)])
    ensures table[..] == old(table[..])[Hash(w, ip) := ip + START_INDEX - d]
  {
    hide Hash;
    var low := START_INDEX - d;
    var h, current := Hash(w, ip), ip + low;
    var matchIndex := table[h];
    table[h] := current;
    found, offset := false, current - matchIndex;
    var dictSmall := d < START_INDEX;
    if dictSmall && matchIndex < low { return; }
    if matchIndex + DISTANCE_MAX < current { return; }
    found := Same4(w, ip, offset);
    if found {
      RepeatsNone(w, ip, offset);
      Repeats4(w, ip, ip, offset);
    }
  }

  /** Where the search looks for the k-th time: the next position first, then further and further apart. */
  function Position(from: nat, acceleration: nat, k: nat): (p: nat)
    requires acceleration >= 1
    ensures p >= from + k
  {
    if k == 0 then from
    else if k == 1 then from + 1
    else Position(from, acceleration, k - 1) + acceleration + (k - 2) / SKIP_TRIGGER
  }

  /** The table after `p` has been put in. */
  function With(t: seq<nat>, w: seq<byte>, d: nat, p: nat): (t': seq<nat>)
    requires |t| == HASH_SIZE && d <= START_INDEX && p + HASH_UNIT <= |w|
    ensures |t'| == HASH_SIZE
  {
    t[Hash(w, p) := p + START_INDEX - d]
  }

  /** The first `k` positions of a search lie in front of the last possible one. */
  predicate InFront(w: seq<byte>, from: nat, acceleration: nat, k: nat)
    requires acceleration >= 1
  {
    k == 0 || Position(from, acceleration, k - 1) + MFLIMIT <= |w|
  }

  /** The table `t` after `k` positions of a search. */
  ghost function After(t: seq<nat>, w: seq<byte>, d: nat, from: nat, acceleration: nat, k: nat): (t': seq<nat>)
    requires |t| == HASH_SIZE && d <= START_INDEX && acceleration >= 1 && InFront(w, from, acceleration, k)
    ensures |t'| == HASH_SIZE
    decreases k
  {
    if k == 0 then t
    else
      assert k > 1 ==> Position(from, acceleration, k - 2) <= Position(from, acceleration, k - 1);
      With(After(t, w, d, from, acceleration, k - 1), w, d, Position(from, acceleration, k - 1))
  }

  /** The k-th position of a search has a match, by the table as it is then. */
  ghost predicate HitAt(t: seq<nat>, w: seq<byte>, d: nat, from: nat, acceleration: nat, k: nat) {
    && |t| == HASH_SIZE && d <= START_INDEX && acceleration >= 1 && InFront(w, from, acceleration, k + 1)
    && (k > 0 ==> Position(from, acceleration, k - 1) <= Position(from, acceleration, k))
    && var p := Position(from, acceleration, k);
    Candidate(w, d, p, After(t, w, d, from, acceleration, k)[Hash(w, p)])
  }

  /**
  The search loop: tries positions at a growing step until a candidate verifies or the input runs out. It is the first
  position that has a match, and there is none only if the next but one position lies behind the last possible start.
  */
  method FindMatch(table: array<nat>, w: seq<byte>, d: nat, from: nat, acceleration: nat)
      returns (found: bool, ip: nat, offset: nat, ghost k: nat)
    requires d <= START_INDEX && d <= from <= |w| - MFLIMIT + 1 && acceleration >= 1
    requires TableOk(table, START_INDEX - d, from + START_INDEX - d)
    modifies table
    ensures found ==> from <= ip && Found(w, d, ip, offset)
    ensures found ==> TableOk(table, START_INDEX - d, ip + 1 + START_INDEX - d)
    ensures !found ==> TableOk(table, START_INDEX - d, |w| + START_INDEX - d)
    ensures forall j: nat :: j < k ==> !HitAt(old(table[..]), w, d, from, acceleration, j)
    ensures found ==> HitAt(old(table[..]), w, d, from, acceleration, k) && ip == Position(from, acceleration, k)
    ensures found ==>
      offset == ip + START_INDEX - d - After(old(table[..]), w, d, from, acceleration, k)[Hash(w, ip)]
    ensures !found ==> Position(from, acceleration, k + 1) + MFLIMIT > |w| + 1
    ensures InFront(w, from, acceleration, if found then k + 1 else k)
    ensures table[..] == After(old(table[..]), w, d, from, acceleration, if found then k + 1 else k)
  {
    hide Found, TableOk, Hash, Candidate, Position, After, HitAt, InFront, With;
    var forwardIp, step, searchMatchNb := from, 1, acceleration * SKIP_TRIGGER;
    ghost var t := table[..];
    assert |t| == HASH_SIZE by { TableSize(table, START_INDEX - d, from + START_INDEX - d); }
    k := 0;
    SearchBegins(t, w, d, from, acceleration);
    found, ip, offset := false, from, 0;
    while true
      invariant !found && from <= forwardIp <= |w| - MFLIMIT + 1 && |t| == HASH_SIZE
      invariant forwardIp == Position(from, acceleration, k) && InFront(w, from, acceleration, k)
      invariant searchMatchNb == acceleration * SKIP_TRIGGER + k
      invariant step == if k == 0 then 1 else acceleration + (k - 1) / SKIP_TRIGGER
      invariant forall j: nat :: j < k ==> !HitAt(t, w, d, from, acceleration, j)
      invariant TableOk(table, START_INDEX - d, forwardIp + START_INDEX - d)
      invariant table[..] == After(t, w, d, from, acceleration, k)
      decreases |w| - forwardIp
    {
      NextPosition(from, acceleration, k);
      NextStep(acceleration, k);
      ip := forwardIp;
      forwardIp := forwardIp + step;
      step := searchMatchNb / SKIP_TRIGGER;
      searchMatchNb := searchMatchNb + 1;
      if forwardIp > |w| - MFLIMIT + 1 {
        TableBound(table, START_INDEX - d, ip + START_INDEX - d, |w| + START_INDEX - d);
        return;
      }
      SearchGoesOn(t, w, d, from, acceleration, k);
      found, offset := Probe(table, w, d, ip);
      if found { return; }
      TableBound(table, START_INDEX - d, ip + 1 + START_INDEX - d, forwardIp + START_INDEX - d);
      k := k + 1;
    }
  }

  lemma SearchBegins(t: seq<nat>, w: seq<byte>, d: nat, from: nat, acceleration: nat)
    requires |t| == HASH_SIZE && d <= START_INDEX && acceleration >= 1
    ensures Position(from, acceleration, 0) == from && InFront(w, from, acceleration, 0)
    ensures After(t, w, d, from, acceleration, 0) == t
  {
  }

  lemma NextPosition(from: nat, acceleration: nat, k: nat)
    requires acceleration >= 1
    ensures Position(from, acceleration, k + 1)
      == Position(from, acceleration, k) + (if k == 0 then 1 else acceleration + (k - 1) / SKIP_TRIGGER)
  {
  }

  lemma NextStep(acceleration: nat, k: nat)
    ensures (acceleration * SKIP_TRIGGER + k) / SKIP_TRIGGER == acceleration + k / SKIP_TRIGGER
  {
  }

  lemma SearchGoesOn(t: seq<nat>, w: seq<byte>, d: nat, from: nat, acceleration: nat, k: nat)
    requires |t| == HASH_SIZE && d <= START_INDEX && acceleration >= 1 && InFront(w, from, acceleration, k)
    requires Position(from, acceleration, k) + MFLIMIT <= |w|
    ensures InFront(w, from, acceleration, k + 1)
    ensures var p, now := Position(from, acceleration, k), After(t, w, d, from, acceleration, k);
      && After(t, w, d, from, acceleration, k + 1) == now[Hash(w, p) := p + START_INDEX - d]
      && (HitAt(t, w, d, from, acceleration, k) <==> Candidate(w, d, p, now[Hash(w, p)]))
  {
    hide Hash, Candidate;
    if k > 0 { NextPosition(from, acceleration, k - 1); }
  }

  lemma TableSize(table: array<nat>, low: nat, bound: nat)
    requires TableOk(table, low, bound)
    ensures table.Length == HASH_SIZE
  {
  }

  lemma TableBound(table: array<nat>, low: nat, a: nat, b: nat)
    requires TableOk(table, low, a) && a <= b
    ensures TableOk(table, low, b)
  {
  }

  // ---------------------------------------------------------------- the main loop

  /** State between sequences: what is in the output and that it is within budget. */
  ghost predicate Good(dst: array<byte>, op: nat, olimit: nat, w: seq<byte>, d: nat, anchor: nat, ss: seq<Sequence>)
    reads dst
  {
    && op <= olimit <= dst.Length && d <= anchor <= |w| && |w| < U32
    && Budget(op, anchor - d)
    && Emitted(dst[..op], w, d, anchor, ss)
    && (ss != [] ==> anchor + LASTLITERALS <= |w|)
  }

  /** A sequence that takes a match as far as it goes, backwards over the literals from `anchor` on and forwards. */
  ghost predicate Longest(w: seq<byte>, anchor: nat, lowLimit: nat, end: nat, s: Sequence) {
    var ip := anchor + |s.literals|;
    && ip + s.matchLength == end <= |w| - LASTLITERALS && 0 < s.offset && lowLimit + s.offset <= ip
    && s.literals == w[anchor..ip] && Repeats(w, ip, end, s.offset)
    && (ip == anchor || ip == lowLimit + s.offset || w[ip - 1] != w[ip - 1 - s.offset])
    && Stuck(w, end, |w| - LASTLITERALS, s.offset)
  }

  /** How far back a match may reach: with an external dictionary, matches in the source stay in the source. */
  function LowLimit(d: nat, ext: bool, start: nat, offset: nat): nat { if ext && start - offset >= d then d else 0 }

  /** From a found match to its emitted sequence: extend it both ways and emit it. */
  method EmitFound(dst: array<byte>, op: nat, olimit: nat, w: seq<byte>, d: nat, ext: bool, anchor: nat, start: nat,
      offset: nat, direct: bool, ghost ss: seq<Sequence>)
    returns (ok: bool, op': nat, end: nat, ghost ss': seq<Sequence>)
    requires Good(dst, op, olimit, w, d, anchor, ss) && anchor <= start && Found(w, d, start, offset)
    requires direct ==> anchor == start && op + 1 + LASTLITERALS <= olimit
    modifies dst
    ensures ok ==> Good(dst, op', olimit, w, d, end, ss') && start + MINMATCH <= end
    ensures ok ==> op' + 1 + LASTLITERALS <= olimit && op < op'
    ensures ok ==> exists s ::
      && ss' == ss + [s] && s.offset == offset && |s.literals| <= start - anchor
      && Longest(w, anchor, LowLimit(d, ext, start, offset), end, s)
    ensures !ok ==> !(olimit >= CompressBound(|w| - d) > 0)
    ensures OnlyWithin(dst, 0, olimit)
  {
    hide Emitted, Repeats;
    var ip := start;
    var inDict := ext && start - offset < d;
    if !direct {
      var lowLimit := if ext && !inDict then d else 0;
      ip := CatchUp(w, anchor, lowLimit, start, offset, start + MINMATCH);
    }
    end := MatchEnd(w, d, inDict, ip, offset, start + MINMATCH);
    ok, op' := EmitSequence(dst, op, olimit, w, anchor, ip, end, offset, direct, d, ss);
    ss' := ss + [Sequence(w[anchor..ip], offset, end - ip)];
  }

  /** After a sequence: fill the table, and as long as the next position matches at once emit that too. */
  method EmitChain(table: array<nat>, dst: array<byte>, op: nat, olimit: nat, w: seq<byte>, d: nat, ext: bool,
      anchor: nat, ghost ss: seq<Sequence>)
    returns (ok: bool, op': nat, end: nat, ghost ss': seq<Sequence>, ghost t: seq<nat>)
    requires d <= START_INDEX && d + MINMATCH <= anchor && table as object != dst
    requires Good(dst, op, olimit, w, d, anchor, ss) && op + 1 + LASTLITERALS <= olimit && op > 0
    requires TableOk(table, START_INDEX - d, anchor + START_INDEX - d)
    modifies dst, table
    ensures ok ==> Good(dst, op', olimit, w, d, end, ss') && op' > 0 && anchor <= end
    ensures ok ==> TableOk(table, START_INDEX - d, end + 1 + START_INDEX - d)
    ensures ok && end + MFLIMIT <= |w| ==> Exhausted(table[..], t, w, d, end)
    ensures ok && end == anchor ==> ss' == ss && t == old(table[..])
    ensures anchor + MFLIMIT > |w| ==> ok && end == anchor && op' == op
    ensures !ok ==> !(olimit >= CompressBound(|w| - d) > 0)
    ensures OnlyWithin(dst, 0, olimit)
  {
    hide Good, TableOk, Found, Exhausted;
    GoodRange(dst, op, olimit, w, d, anchor, ss);
    ok, op', end, ss', t := true, op, anchor, ss, table[..];
    while end + MFLIMIT <= |w|
      invariant end == anchor ==> ss' == ss && t == table[..] == old(table[..])
      invariant anchor + MFLIMIT > |w| ==> end == anchor && op' == op
      invariant ok && Good(dst, op', olimit, w, d, end, ss') && anchor <= end <= |w|
      invariant op' + 1 + LASTLITERALS <= olimit && op' > 0
      invariant TableOk(table, START_INDEX - d, end + START_INDEX - d)
      invariant OnlyWithin(dst, 0, olimit)
      decreases |w| - end
    {
      var found, next;
      t := table[..];
      found, ok, op', next, ss' := EmitNext(table, dst, op', olimit, w, d, ext, end, ss');
      if !found || !ok { return; }
      end := next;
    }
    TableBound(table, START_INDEX - d, end + START_INDEX - d, end + 1 + START_INDEX - d);
  }

  /**
  At `at`, right behind a sequence, there is no match by the table `t`, filled in two positions back; `after` is the
  table once `at` is put in too.
  */
  ghost predicate Exhausted(after: seq<nat>, t: seq<nat>, w: seq<byte>, d: nat, at: nat) {
    && |t| == HASH_SIZE && d <= START_INDEX && 2 <= at && at + MFLIMIT <= |w|
    && var filled := With(t, w, d, at - 2);
    !Candidate(w, d, at, filled[Hash(w, at)]) && after == With(filled, w, d, at)
  }

  /** Fill the table, and if the next position matches at once emit that. */
  method EmitNext(table: array<nat>, dst: array<byte>, op: nat, olimit: nat, w: seq<byte>, d: nat, ext: bool, at: nat,
      ghost ss: seq<Sequence>)
    returns (found: bool, ok: bool, op': nat, next: nat, ghost ss': seq<Sequence>)
    requires d <= START_INDEX && d + MINMATCH <= at && at + MFLIMIT <= |w| && table as object != dst
    requires Good(dst, op, olimit, w, d, at, ss) && op + 1 + LASTLITERALS <= olimit && op > 0
    requires TableOk(table, START_INDEX - d, at + START_INDEX - d)
    modifies dst, table
    ensures !found ==>
      && ok && op' == op && ss' == ss && Good(dst, op, olimit, w, d, at, ss)
      && TableOk(table, START_INDEX - d, at + 1 + START_INDEX - d)
      && Exhausted(table[..], old(table[..]), w, d, at)
    ensures found && ok ==> exists s :: ss' == ss + [s] && s.literals == [] && Longest(w, at, 0, next, s)
    ensures found && ok ==>
      && Good(dst, op', olimit, w, d, next, ss') && at < next <= |w| && op' + 1 + LASTLITERALS <= olimit && op' > 0
      && TableOk(table, START_INDEX - d, next + START_INDEX - d)
    ensures !ok ==> !(olimit >= CompressBound(|w| - d) > 0)
    ensures OnlyWithin(dst, 0, olimit)
  {
    hide Good, TableOk, Found, Hash, Candidate, Longest;
    assert table.Length == HASH_SIZE by { TableSize(table, START_INDEX - d, at + START_INDEX - d); }
    ghost var t := table[..];
    PutPosition(table, w, at - 2, START_INDEX - d, at + START_INDEX - d);
    var offset;
    found, offset := Probe(table, w, d, at);
    if !found { return found, true, op, at, ss; }
    LowLimitAside(w, at, LowLimit(d, ext, at, offset));
    ok, op', next, ss' := EmitFound(dst, op, olimit, w, d, ext, at, at, offset, true, ss);
    if !ok { return; }
    GoodRange(dst, op', olimit, w, d, next, ss');
    TableBound(table, START_INDEX - d, at + 1 + START_INDEX - d, next + START_INDEX - d);
  }

  /** Without literals there is nothing to reach back over. */
  lemma LowLimitAside(w: seq<byte>, anchor: nat, lowLimit: nat)
    ensures forall end, s: Sequence ::
      s.literals == [] && Longest(w, anchor, lowLimit, end, s) ==> Longest(w, anchor, 0, end, s)
  {
  }

  lemma GoodRange(dst: array<byte>, op: nat, olimit: nat, w: seq<byte>, d: nat, anchor: nat, ss: seq<Sequence>)
    requires Good(dst, op, olimit, w, d, anchor, ss)
    ensures op <= olimit <= dst.Length && d <= anchor <= |w|
  {
    hide Emitted;
  }

  /** The block decodes, against the dictionary w[..d], to the source, and obeys the end-of-block rules. */
  ghost predicate Encodes(block: seq<byte>, w: seq<byte>, d: nat)
    requires d <= |w|
  {
    Decode(block, 0, w[..d]) == Some(w) && Legal(block, 0, w[..d], |w|)
  }

  lemma EmittedEncodes(out: seq<byte>, w: seq<byte>, d: nat, anchor: nat, ss: seq<Sequence>)
    requires Emitted(out, w, d, anchor, ss) && (ss != [] ==> anchor + LASTLITERALS <= |w|)
    ensures Encodes(out + EncodeLast(w[anchor..]), w, d)
  {
    hide EncodeLast, EncodeSequences, Expand, Polite, Legal, Decode;
    var last := w[anchor..];
    assert w[..anchor] + last == w;
    DecodeOfEncode(ss, last, w[..d]);
    LegalOfEncode(ss, last, w[..d]);
  }

  lemma EmittedLaid(out: seq<byte>, w: seq<byte>, d: nat, anchor: nat, ss: seq<Sequence>)
    requires Emitted(out, w, d, anchor, ss)
    ensures Laid(out + EncodeLast(w[anchor..]), w, anchor, ss)
  {
    hide EncodeLast, EncodeSequences, Expand, Polite;
  }

  lemma BudgetLast(op: nat, consumed: nat, last: nat, n: nat)
    requires Budget(op, consumed) && consumed + last == n <= MAX_INPUT_SIZE
    ensures op + last + 1 + (last + 255 - RUN_MASK) / 255 <= CompressBound(n)
    ensures op + 1 + TailSize(last) + last <= CompressBound(n)
  {
  }

  /** Emits the last literals and returns the block's size, 0 when it does not fit. */
  method Finish(dst: array<byte>, op: nat, olimit: nat, w: seq<byte>, ghost d: nat, anchor: nat,
      ghost ss: seq<Sequence>) returns (n: nat)
    requires Good(dst, op, olimit, w, d, anchor, ss) && |w| - d <= MAX_INPUT_SIZE
    modifies dst
    ensures n > 0 ==> n <= olimit && n <= CompressBound(|w| - d) && Encodes(dst[..n], w, d)
    ensures n > 0 ==> Laid(dst[..n], w, anchor, ss)
    ensures olimit >= CompressBound(|w| - d) ==> n > 0
    ensures OnlyWithin(dst, 0, olimit)
  {
    hide Emitted, EncodeLast, Encodes;
    EmittedLaid(dst[..op], w, d, anchor, ss);
    BudgetLast(op, anchor - d, |w| - anchor, |w| - d);
    EmittedEncodes(dst[..op], w, d, anchor, ss);
    var ok;
    ok, n := PutLast(dst, op, olimit, w, anchor);
    if ok {
      assert dst[..op] == old(dst[..op]);
      assert dst[..n] == dst[..op] + dst[op..n];
      assert |w[anchor..]| == |w| - anchor;
    } else {
      n := 0;
    }
  }

  /** A search from `from` on that found nothing: no position looked at had a match, and the next lies too far. */
  ghost predicate Barren(t: seq<nat>, after: seq<nat>, w: seq<byte>, d: nat, from: nat, acceleration: nat, k: nat) {
    && |t| == HASH_SIZE && d <= START_INDEX && acceleration >= 1 && InFront(w, from, acceleration, k)
    && (forall j: nat :: j < k ==> !HitAt(t, w, d, from, acceleration, j))
    && Position(from, acceleration, k + 1) + MFLIMIT > |w| + 1 && after == After(t, w, d, from, acceleration, k)
  }

  /** The source is one byte over and over. */
  ghost predicate Uniform(w: seq<byte>, d: nat) {
    d + MIN_LENGTH <= |w| && forall i :: d <= i < |w| ==> w[i] == w[d]
  }

  /** The one sequence for such a source: a byte, unless the dictionary ends with it, and its repetition. */
  function Lump(w: seq<byte>, d: nat, ext: bool): Sequence
    requires d + MIN_LENGTH <= |w|
  {
    var ip := if !ext && d > 0 && w[d - 1] == w[d] then d else d + 1;
    Sequence(w[d..ip], 1, |w| - LASTLITERALS - ip)
  }

  lemma UniformHits(t: seq<nat>, w: seq<byte>, d: nat, acceleration: nat)
    requires Uniform(w, d) && |t| == HASH_SIZE && d <= START_INDEX && acceleration >= 1
    requires t[Hash(w, d)] == START_INDEX
    ensures HitAt(t, w, d, d + 1, acceleration, 0) && Hash(w, d + 1) == Hash(w, d)
  {
    hide Hash;
    assert Hash(w, d + 1) == Hash(w, d) by { SameHash(w, d); }
    assert Position(d + 1, acceleration, 0) == d + 1;
    assert Same4(w, d + 1, 1);
  }

  lemma SameHash(w: seq<byte>, d: nat)
    requires Uniform(w, d)
    ensures Hash(w, d + 1) == Hash(w, d)
  {
    assert w[d + 1] == w[d] && w[d + 2] == w[d] && w[d + 3] == w[d] && w[d + 4] == w[d] && w[d + 5] == w[d];
  }

  lemma LumpIsLongest(w: seq<byte>, d: nat, ext: bool, end: nat, s: Sequence)
    requires Uniform(w, d) && s.offset == 1 && Longest(w, d, LowLimit(d, ext, d + 1, 1), end, s)
    requires |s.literals| <= 1 && d + 1 + MINMATCH <= end
    ensures s == Lump(w, d, ext) && end == |w| - LASTLITERALS
  {
    assert w[end] == w[d] == w[end - 1];
    var ip := d + |s.literals|;
    if ip == d {
      assert w[d] == w[d - 1];
    }
  }

  /**
  One turn of the main loop: a search from behind `anchor`, and if it finds a match, that and all that follow at once.
  */
  method Round(table: array<nat>, w: seq<byte>, d: nat, ext: bool, dst: array<byte>, op: nat, olimit: nat,
      acceleration: nat, anchor: nat, ghost ss: seq<Sequence>)
    returns (found: bool, ok: bool, op': nat, anchor': nat, ghost ss': seq<Sequence>, ghost k: nat, ghost t: seq<nat>)
    requires d <= START_INDEX && acceleration >= 1 && table as object != dst
    requires Good(dst, op, olimit, w, d, anchor, ss) && d <= anchor && anchor + MFLIMIT <= |w|
    requires TableOk(table, START_INDEX - d, anchor + 1 + START_INDEX - d)
    modifies dst, table
    ensures !found ==> ok && op' == op && anchor' == anchor && ss' == ss && Good(dst, op, olimit, w, d, anchor, ss)
    ensures !found ==> Barren(old(table[..]), table[..], w, d, anchor + 1, acceleration, k)
    ensures found && ok ==> Good(dst, op', olimit, w, d, anchor', ss') && anchor < anchor' <= |w|
    ensures found && ok ==> TableOk(table, START_INDEX - d, anchor' + 1 + START_INDEX - d)
    ensures found && ok && anchor' + MFLIMIT <= |w| ==> Exhausted(table[..], t, w, d, anchor')
    ensures !ok ==> !(olimit >= CompressBound(|w| - d) > 0)
    ensures table.Length == HASH_SIZE
    ensures Uniform(w, d) && anchor == d && ss == [] && old(table[Hash(w, d)]) == START_INDEX ==>
      found && (ok ==> anchor' == |w| - LASTLITERALS && ss' == [Lump(w, d, ext)])
    ensures OnlyWithin(dst, 0, olimit)
  {
    hide Good, TableOk, Found, Hash, Candidate, Longest, HitAt, After, Exhausted, Lump;
    assert table.Length == HASH_SIZE by { TableSize(table, START_INDEX - d, anchor + 1 + START_INDEX - d); }
    ghost var easy := Uniform(w, d) && anchor == d && ss == [] && table[Hash(w, d)] == START_INDEX;
    if easy { UniformHits(table[..], w, d, acceleration); }
    t := table[..];
    var start, offset;
    found, start, offset, k := FindMatch(table, w, d, anchor + 1, acceleration);
    assert Position(anchor + 1, acceleration, 0) == anchor + 1;
    if !found {
      assert Position(anchor + 1, acceleration, 1) == anchor + 2;
      return found, true, op, anchor, ss, k, t;
    }
    FoundRange(w, d, start, offset);
    ok, op', anchor', ss' := EmitFound(dst, op, olimit, w, d, ext, anchor, start, offset, false, ss);
    if !ok { return; }
    GoodRange(dst, op', olimit, w, d, anchor', ss');
    TableBound(table, START_INDEX - d, start + 1 + START_INDEX - d, anchor' + START_INDEX - d);
    if easy {
      assert After(t, w, d, d + 1, acceleration, 0) == t by { AfterNothing(t, w, d, d + 1, acceleration); }
      assert k == 0 && start == d + 1 && offset == 1;
      ghost var s :| ss' == ss + [s] && s.offset == offset && |s.literals| <= start - anchor
        && Longest(w, anchor, LowLimit(d, ext, start, offset), anchor', s);
      LumpIsLongest(w, d, ext, anchor', s);
    }
    var end;
    ghost var more;
    ok, op', end, more, t := EmitChain(table, dst, op', olimit, w, d, ext, anchor', ss');
    if !ok { return; }
    GoodRange(dst, op', olimit, w, d, end, more);
    anchor', ss' := end, more;
  }

  lemma AfterNothing(t: seq<nat>, w: seq<byte>, d: nat, from: nat, acceleration: nat)
    requires |t| == HASH_SIZE && d <= START_INDEX && acceleration >= 1
    ensures After(t, w, d, from, acceleration, 0) == t
  {
  }

  /**
  LZ4_compress_generic_validated; `ext` tells the external-dictionary mode from the prefix mode. The last literals begin
  at `anchor`, where nothing is left to search, or where no match followed at once, by the table `last`, and a search
  with the table `t` found nothing.
  */
  method CompressGeneric(table: array<nat>, w: seq<byte>, d: nat, ext: bool, dst: array<byte>, olimit: nat,
      acceleration: nat)
    returns (n: nat, ghost ss: seq<Sequence>, ghost anchor: nat, ghost last: seq<nat>, ghost t: seq<nat>, ghost k: nat)
    requires d <= START_INDEX && d < |w| && |w| - d <= MAX_INPUT_SIZE && acceleration >= 1
    requires TableOk(table, START_INDEX - d, START_INDEX) && table as object != dst && olimit <= dst.Length
    modifies dst, table
    ensures n > 0 ==> n <= olimit && n <= CompressBound(|w| - d) && Encodes(dst[..n], w, d)
    ensures olimit >= CompressBound(|w| - d) ==> n > 0
    ensures n > 0 ==> d <= anchor <= |w| && Laid(dst[..n], w, anchor, ss)
    ensures n > 0 && |w| - d < MIN_LENGTH ==> ss == [] && anchor == d
    ensures n > 0 && |w| - d >= MIN_LENGTH && anchor + MFLIMIT <= |w| ==>
      Barren(t, table[..], w, d, anchor + 1, acceleration, k) && (ss != [] ==> Exhausted(t, last, w, d, anchor))
    ensures n > 0 && Uniform(w, d) ==> ss == [Lump(w, d, ext)] && n == UniformSize(w, d, ext) <= 11 + (|w| - d) / 255
    ensures OnlyWithin(dst, 0, olimit)
  {
    hide Good, TableOk, Encodes, Barren, Lump, Hash, Exhausted;
    var op: nat, start: nat := 0, d;
    ss, last, t, k := [], [], table[..], 0;
    GoodStart(dst, olimit, w, d);
    if |w| - d >= MIN_LENGTH {
      TableBound(table, START_INDEX - d, START_INDEX, START_INDEX + 1);
      assert table.Length == HASH_SIZE by { TableSize(table, START_INDEX - d, START_INDEX + 1); }
      PutPosition(table, w, d, START_INDEX - d, START_INDEX + 1);
      ghost var first := true;
      while start + MFLIMIT <= |w|
        invariant Good(dst, op, olimit, w, d, start, ss) && d <= start <= |w| && table.Length == HASH_SIZE
        invariant start + MFLIMIT <= |w| ==> TableOk(table, START_INDEX - d, start + 1 + START_INDEX - d)
        invariant first ==> start == d && ss == [] && table[Hash(w, d)] == START_INDEX
        invariant !first && start + MFLIMIT <= |w| ==> Exhausted(table[..], last, w, d, start)
        invariant !first && Uniform(w, d) ==> start == |w| - LASTLITERALS && ss == [Lump(w, d, ext)]
        invariant OnlyWithin(dst, 0, olimit)
        decreases |w| - start
      {
        t := table[..];
        var found, ok;
        ghost var filled;
        found, ok, op, start, ss, k, filled := Round(table, w, d, ext, dst, op, olimit, acceleration, start, ss);
        if !ok { return 0, ss, start, last, t, k; }
        if !found { break; }
        last := filled;
        GoodRange(dst, op, olimit, w, d, start, ss);
        first := false;
      }
    }
    anchor := start;
    n := Finish(dst, op, olimit, w, d, start, ss);
    if n > 0 && Uniform(w, d) { LumpSize(dst[..n], w, d, ext); }
  }

  /** Sequences and last literals, laid out. */
  ghost predicate Laid(block: seq<byte>, w: seq<byte>, anchor: nat, ss: seq<Sequence>) {
    && anchor <= |w| && (forall s :: s in ss ==> s.Valid())
    && block == EncodeSequences(ss) + EncodeLast(w[anchor..])
  }

  /** What a source of one byte over and over takes: about a dozen bytes, and one more for every 255. */
  function UniformSize(w: seq<byte>, d: nat, ext: bool): nat
    requires d + MIN_LENGTH <= |w|
  {
    if !ext && d > 0 && w[d - 1] == w[d] then 9 + TailSize(|w| - d - 9) else 10 + TailSize(|w| - d - 10)
  }

  lemma LumpSize(block: seq<byte>, w: seq<byte>, d: nat, ext: bool)
    requires Uniform(w, d) && Laid(block, w, |w| - LASTLITERALS, [Lump(w, d, ext)])
    ensures |block| == UniformSize(w, d, ext) <= 11 + (|w| - d) / 255
  {
    hide LengthTail, EncodeLast;
    var s := Lump(w, d, ext);
    assert [s][..0] == [];
    assert EncodeSequences([s]) == EncodeSequences([]) + EncodeSequence(s);
    assert |EncodeLast(w[|w| - LASTLITERALS..])| == 6;
  }

  lemma GoodStart(dst: array<byte>, olimit: nat, w: seq<byte>, d: nat)
    requires olimit <= dst.Length && d <= |w| < U32
    ensures Good(dst, 0, olimit, w, d, d, [])
  {
  }

  lemma FoundRange(w: seq<byte>, d: nat, ip: nat, offset: nat)
    requires Found(w, d, ip, offset)
    ensures ip + MFLIMIT <= |w|
  {
  }

  // ---------------------------------------------------------------- streams

  /** The part of a dictionary that LZ4_loadDict keeps. */
  function Kept(dict: seq<byte>): (kept: seq<byte>)
    ensures |kept| <= START_INDEX
  {
    if |dict| < HASH_UNIT then [] else dict[Max(0, |dict| - START_INDEX)..]
  }

  /** What decodes against the kept dictionary decodes against the whole one, under the same end-of-block rules. */
  lemma KeptSuffices(block: seq<byte>, dict: seq<byte>, src: seq<byte>)
    requires Encodes(block, Kept(dict) + src, |Kept(dict)|)
    ensures Decode(block, 0, dict) == Some(dict + src) && Legal(block, 0, dict, |dict| + |src|)
  {
    hide Decode, Legal;
    var kept := Kept(dict);
    var x := dict[..|dict| - |kept|];
    assert dict == x + kept;
    assert (kept + src)[..|kept|] == kept;
    DecodeExtend(block, 0, x, kept, |kept + src|);
    assert x + (kept + src) == dict + src;
  }

  class Stream {
    const hashTable: array<nat>
    var currentOffset: nat
    var dictionary: seq<byte>

    /** As LoadDict leaves the stream: ready for one block. */
    ghost predicate Loaded()
      reads this, hashTable
    {
      && currentOffset == START_INDEX && |dictionary| <= START_INDEX
      && TableOk(hashTable, START_INDEX - |dictionary|, START_INDEX)
    }

    constructor ()
      ensures fresh(hashTable) && hashTable.Length == HASH_SIZE
    {
      hashTable := new nat[HASH_SIZE](_ => 0);
      currentOffset, dictionary := 0, [];
    }

    /** LZ4_loadDict: resets the stream and indexes every third position of the last 64 KB. */
    method LoadDict(dict: seq<byte>) returns (size: nat)
      requires hashTable.Length == HASH_SIZE
      modifies this, hashTable
      ensures Loaded() && dictionary == Kept(dict) && size == |dictionary|
      ensures forall p :: 0 <= p && p % 3 == 0 && p + HASH_UNIT <= size ==>
        hashTable[Hash(dictionary, p)] >= p + START_INDEX - size
    {
      hide Hash;
      forall h | 0 <= h < HASH_SIZE { hashTable[h] := 0; }
      currentOffset, dictionary := START_INDEX, [];
      if |dict| < HASH_UNIT { return 0; }
      dictionary := dict[Max(0, |dict| - START_INDEX)..];
      var low := START_INDEX - |dictionary|;
      var p := 0;
      while p + HASH_UNIT <= |dictionary|
        invariant TableOk(hashTable, low, START_INDEX) && p >= 0 && p % 3 == 0
        invariant forall q :: 0 <= q < p && q % 3 == 0 && q + HASH_UNIT <= |dictionary| ==>
          hashTable[Hash(dictionary, q)] >= q + low
        invariant dictionary == Kept(dict) && currentOffset == START_INDEX
        decreases |dictionary| - p
      {
        PutPosition(hashTable, dictionary, p, low, START_INDEX);
        p := p + 3;
      }
      size := |dictionary|;
    }

    /**
    LZ4_compress_fast_continue after LoadDict, with limited output. `ext` is false when the source follows the
    dictionary in memory. Index renormalisation never changes anything here: it subtracts 0 from every entry.
    */
    method CompressFastContinue(source: seq<byte>, ext: bool, dst: array<byte>, maxOutputSize: nat, acceleration: int)
      returns (n: nat)
      requires Loaded() && hashTable as object != dst && maxOutputSize <= dst.Length
      modifies this, hashTable, dst
      ensures n > 0 ==>
        && n <= maxOutputSize && n <= CompressBound(|source|)
        && Encodes(dst[..n], old(dictionary) + source, |old(dictionary)|)
      ensures |source| > MAX_INPUT_SIZE ==> n == 0
      ensures |source| == 0 && n > 0 ==> dst[..n] == [0]
      ensures |source| <= MAX_INPUT_SIZE && maxOutputSize >= CompressBound(|source|) ==> n > 0
      ensures n > 0 && |source| >= MIN_LENGTH && (forall i :: 0 <= i < |source| ==> source[i] == source[0]) ==>
        n <= 11 + |source| / 255
      ensures OnlyWithin(dst, 0, maxOutputSize)
    {
      hide Encodes, TableOk;
      var w, d := dictionary + source, |dictionary|;
      if |source| > MAX_INPUT_SIZE {
        n := 0;
      } else if |source| == 0 {
        n := if maxOutputSize == 0 then 0 else 1;
        if n == 1 {
          dst[0] := 0;
          EncodesNothing(dictionary);
          assert w == dictionary && dst[..1] == [0];
        }
      } else {
        ghost var ss, anchor, last, t, k;
        if |source| >= MIN_LENGTH && (forall i :: 0 <= i < |source| ==> source[i] == source[0]) {
          SourceUniform(dictionary, source);
        }
        n, ss, anchor, last, t, k :=
          CompressGeneric(hashTable, w, d, ext, dst, maxOutputSize, Acceleration(acceleration));
        currentOffset := currentOffset + |source|;
      }
      dictionary := if ext then source else w;
    }
  }

  /** Acceleration as the encoder uses it: 1 when not positive, and bounded. */
  function Acceleration(acceleration: int): (a: nat)
    ensures 1 <= a <= ACCELERATION_MAX
  {
    if acceleration < 1 then 1 else Min(acceleration, ACCELERATION_MAX)
  }

  lemma SourceUniform(dict: seq<byte>, source: seq<byte>)
    requires |source| >= MIN_LENGTH && forall i :: 0 <= i < |source| ==> source[i] == source[0]
    ensures Uniform(dict + source, |dict|)
  {
    var w := dict + source;
    forall i | |dict| <= i < |w| ensures w[i] == w[|dict|] {
      assert w[i] == source[i - |dict|];
    }
  }

  /** A value of the hash, for the bytes 1 to 8. */
  lemma HashKnown()
    ensures Hash([1, 2, 3, 4, 5, 6, 7, 8], 0) == 1393
  {
  }

  lemma EncodesNothing(dict: seq<byte>)
    ensures Encodes([0], dict, |dict|)
  {
    assert dict[..|dict|] == dict;
    assert ParseSequence([0], 0) == Last(1, 1);
    assert dict + [0][1..1] == dict;
  }
}
