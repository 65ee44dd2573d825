/**
LZ4_decompress_generic for whole blocks (LZ4_decompress_safe and its dictionary variants): the fast
loop, the two-stage shortcut and the safe loop, on one buffer that holds the prefix history and the
output, with an optional external dictionary. The gotos between the loops become `Entry` values.
*/
module Lz4Decoder {
  import opened Bytes
  import opened Lz4Format
  import opened Lz4Copy

  datatype DictMode = NoDict | WithPrefix64k | UsingExtDict

  const WILDCOPYLENGTH := 8
  const MATCH_SAFEGUARD_DISTANCE := 2 * WILDCOPYLENGTH - MINMATCH
  const FASTLOOP_SAFE_DISTANCE := 64
  const INT_MAX := 0x7fff_ffff

  /** What one call works on: input, buffer, output range dst..oend, external dictionary, lowest prefix position. */
  datatype Env = Env(src: seq<byte>, buf: array<byte>, dst: nat, oend: nat, ext: seq<byte>, lowPrefix: int,
                     mode: DictMode) {
    function Lo(): nat { if lowPrefix < 0 then 0 else lowPrefix }

    predicate Valid() {
      && Lo() <= dst <= oend <= buf.Length && |src| <= INT_MAX
      && (mode.WithPrefix64k? ==> ext == [] && lowPrefix == dst - 64 * KB >= -1)
      && (mode.NoDict? ==> ext == [] && lowPrefix >= 0)
      && (mode.UsingExtDict? ==> lowPrefix >= 0)
    }

    /** History size once the output range is full. */
    function Cap(): int { |ext| + oend - Lo() }

    /** Dictionary, prefix and output up to `op`. */
    ghost function Hist(op: int): (h: seq<byte>)
      requires Lo() <= op <= buf.Length
      reads buf
      ensures |h| == |ext| + op - Lo()
    {
      ext + buf[Lo()..op]
    }
  }

  /** Where decoding stands, named after the labels of the C code. */
  datatype Entry =
    | Failed
    | Done
    | Token
    | Literals(token: byte, length: nat)
    | MatchLength(token: byte, offset: nat)
    | Match(offset: nat, length: nat)

  // ---------------------------------------------------------------- what remains to be decoded

  /** The rest `p` of the block, run from `h`, completes the decoding of the whole block from `h0`. */
  ghost predicate Pending(src: seq<byte>, h0: seq<byte>, p: Parsed, h: seq<byte>, cap: int) {
    && WellParsed(src, p)
    && Decode(src, 0, h0) == Interpret(src, p, h)
    && (Legal(src, 0, h0, cap) ==> LegalParsed(src, p, h, cap))
  }

  /** What follows a match offset: the match length field at `ip`. */
  function ParseMatch(src: seq<byte>, token: byte, offset: nat, ip: nat): (p: Parsed)
    requires 2 <= ip <= |src| && offset <= DISTANCE_MAX
    ensures WellParsed(src, p)
  {
    match ReadField(src, ip, token % 16)
    case None => Bad
    case Some((m, next)) => Seq(0, 0, offset, m + MINMATCH, next)
  }

  ghost predicate Ready(e: Env, h0: seq<byte>, entry: Entry, ip: nat, op: nat)
    requires e.Valid()
    reads e.buf
  {
    && e.dst <= op <= e.oend && ip <= |e.src|
    && match entry
       case Failed => !Legal(e.src, 0, h0, e.Cap())
       case Done => Decode(e.src, 0, h0) == Some(e.Hist(op))
       case Token => ip < |e.src| && Pending(e.src, h0, ParseSequence(e.src, ip), e.Hist(op), e.Cap())
       case Literals(token, length) =>
         || Pending(e.src, h0, ParseLiterals(e.src, token, length, ip), e.Hist(op), e.Cap())
         || (ip + length > |e.src| && !Legal(e.src, 0, h0, e.Cap()))
       case MatchLength(token, offset) =>
         && 2 <= ip < |e.src| && op <= e.oend - MFLIMIT && offset <= DISTANCE_MAX
         && Pending(e.src, h0, ParseMatch(e.src, token, offset, ip), e.Hist(op), e.Cap())
       case Match(offset, length) =>
         && 2 <= ip < |e.src| && op <= e.oend - MFLIMIT && offset <= DISTANCE_MAX && MINMATCH <= length
         && Pending(e.src, h0, Seq(0, 0, offset, length, ip), e.Hist(op), e.Cap())
  }

  lemma AfterToken(src: seq<byte>, h0: seq<byte>, ip: nat, length: nat, next: nat, h: seq<byte>, cap: int)
    requires ip < |src| && ReadField(src, ip + 1, src[ip] / 16) == Some((length, next))
    requires Pending(src, h0, ParseSequence(src, ip), h, cap)
    ensures Pending(src, h0, ParseLiterals(src, src[ip], length, next), h, cap)
  {
  }

  lemma AfterLiterals(src: seq<byte>, h0: seq<byte>, token: byte, length: nat, ip: nat, h: seq<byte>, cap: int)
    requires ip + length + 2 <= |src|
    requires Pending(src, h0, ParseLiterals(src, token, length, ip), h, cap)
    ensures var b := ip + length;
      Pending(src, h0, ParseMatch(src, token, LE16(src[b], src[b + 1]), b + 2), h + src[ip..b], cap)
    ensures Legal(src, 0, h0, cap) ==> |h| + length <= cap - MFLIMIT && ip + length <= |src| - 8
  {
    hide Decode, Legal, ReadField, CopyMatch;
    var b := ip + length;
    var p := ParseLiterals(src, token, length, ip);
    assert h + src[ip..b] + src[0..0] == h + src[ip..b];
  }

  lemma LastLiterals(src: seq<byte>, h0: seq<byte>, token: byte, length: nat, ip: nat, h: seq<byte>, cap: int)
    requires ip + length == |src|
    requires Pending(src, h0, ParseLiterals(src, token, length, ip), h, cap)
    ensures Decode(src, 0, h0) == Some(h + src[ip..ip + length])
    ensures Legal(src, 0, h0, cap) ==> |h| + length <= cap
  {
    hide Decode, Legal;
  }

  lemma LiteralsRejected(src: seq<byte>, h0: seq<byte>, token: byte, length: nat, ip: nat, h: seq<byte>, cap: int)
    requires ip <= |src|
    requires Pending(src, h0, ParseLiterals(src, token, length, ip), h, cap)
    requires ip + length != |src| && (|h| + length > cap - MFLIMIT || ip + length > |src| - 8)
    ensures !Legal(src, 0, h0, cap)
  {
    hide Decode, Legal, ReadField, CopyMatch;
  }

  lemma AfterMatchLength(src: seq<byte>, h0: seq<byte>, token: byte, offset: nat, ip: nat, m: nat, next: nat,
      h: seq<byte>, cap: int)
    requires 2 <= ip <= |src| && offset <= DISTANCE_MAX
    requires ReadField(src, ip, token % 16) == Some((m, next))
    requires Pending(src, h0, ParseMatch(src, token, offset, ip), h, cap)
    ensures Pending(src, h0, Seq(0, 0, offset, m + MINMATCH, next), h, cap)
  {
  }

  lemma MatchLengthRejected(src: seq<byte>, h0: seq<byte>, token: byte, offset: nat, ip: nat, h: seq<byte>, cap: int)
    requires 2 <= ip <= |src| && offset <= DISTANCE_MAX
    requires var f := ReadField(src, ip, token % 16); f.None? || f.value.1 > |src| - LASTLITERALS
    requires Pending(src, h0, ParseMatch(src, token, offset, ip), h, cap)
    ensures !Legal(src, 0, h0, cap)
  {
    hide Decode, Legal, CopyMatch;
  }

  lemma AfterMatch(src: seq<byte>, h0: seq<byte>, offset: nat, length: nat, next: nat, h: seq<byte>, cap: int)
    requires Pending(src, h0, Seq(0, 0, offset, length, next), h, cap)
    requires offset <= |h|
    ensures Pending(src, h0, ParseSequence(src, next), CopyMatch(h, offset, length), cap)
  {
    hide Decode, Legal, CopyMatch, ParseSequence;
    assert h + src[0..0] == h;
    DecodeByParsing(src, next, CopyMatch(h, offset, length), cap);
  }

  lemma DecodeByParsing(src: seq<byte>, i: nat, h: seq<byte>, cap: int)
    ensures Decode(src, i, h) == Interpret(src, ParseSequence(src, i), h)
    ensures Legal(src, i, h, cap) == LegalParsed(src, ParseSequence(src, i), h, cap)
  {
    hide ParseSequence, Interpret, LegalParsed;
  }

  lemma MatchRejected(src: seq<byte>, h0: seq<byte>, offset: nat, length: nat, next: nat, h: seq<byte>, cap: int)
    requires Pending(src, h0, Seq(0, 0, offset, length, next), h, cap)
    requires offset > |h| || |h| + length > cap - LASTLITERALS
    ensures !Legal(src, 0, h0, cap)
  {
    hide Decode, Legal, CopyMatch;
    assert h + src[0..0] == h;
  }

  // ---------------------------------------------------------------- lengths

  datatype LengthError = Ok | InitialError | LoopError

  /** Reading from `i` on is reading from `ip` on, after `n` bytes of 255. */
  ghost predicate Skipped(src: seq<byte>, ip: nat, i: nat) {
    && ip <= i
    && ReadRun(src, ip) == match ReadRun(src, i)
                           case None => None
                           case Some((n, j)) => Some((n + 255 * (i - ip), j))
  }

  /** read_variable_length with loop checks on; the sum is a 32-bit unsigned integer. */
  method ReadVariableLength(src: seq<byte>, ip: nat, lencheck: int, initialCheck: bool)
    returns (length: nat, next: nat, error: LengthError)
    requires lencheck <= |src| && (ip < |src| || initialCheck)
    ensures error.InitialError? <==> initialCheck && ip >= lencheck
    ensures error.Ok? ==> next < lencheck && ReadRun(src, ip).Some? && ReadRun(src, ip).value.1 == next
    ensures error.Ok? ==> length == ReadRun(src, ip).value.0 % U32
    ensures error.LoopError? ==> lencheck <= next <= |src| && ip < next
    ensures error.LoopError? ==>
      || (&& src[next - 1] != 255 && ReadRun(src, ip).Some?
          && ReadRun(src, ip).value.1 == next && length == ReadRun(src, ip).value.0 % U32)
      || (src[next - 1] == 255 && Skipped(src, ip, next) && length == 255 * (next - ip) % U32)
    ensures length < U32 && ip <= next && (ip <= |src| ==> next <= |src|)
  {
    hide ReadRun;
    length, next, error := 0, ip, Ok;
    if initialCheck && ip >= lencheck { return 0, ip, InitialError; }
    while true
      invariant ip <= next < |src| && error.Ok? && (next == ip || next < lencheck)
      invariant Skipped(src, ip, next) && length == 255 * (next - ip) % U32
      decreases |src| - next
    {
      var s := src[next];
      SkipStep(src, ip, next);
      AddLength(255 * (next - ip), s);
      next := next + 1;
      length := (length + s) % U32;
      if next >= lencheck { return length, next, LoopError; }
      if s != 255 { break; }
    }
  }

  lemma SkipStep(src: seq<byte>, ip: nat, i: nat)
    requires Skipped(src, ip, i) && i < |src|
    ensures src[i] == 255 ==> Skipped(src, ip, i + 1)
    ensures src[i] != 255 ==> ReadRun(src, ip) == Some((src[i] + 255 * (i - ip), i + 1))
  {
  }

  lemma AddLength(n: nat, s: nat)
    ensures (n % U32 + s) % U32 == (n + s) % U32
  {
  }

  /** 255 times a count below 2^31 is a multiple of 2^32 only for the count 0. */
  lemma NoWrap(n: nat)
    requires n <= INT_MAX && 255 * n % U32 == 0
    ensures n == 0
  {
    var q := 255 * n / U32;
    assert 255 * n == U32 * q && q <= 127;
    assert U32 == 255 * 16843009 + 1;
    assert q == 255 * (n - 16843009 * q);
  }

  /** Literal length of the token at `ip`; a loop error is not an error here, but leaves a length that overruns. */
  method LiteralLength(e: Env, ip: nat, op: nat, ghost h0: seq<byte>) returns (entry: Entry, next: nat)
    requires e.Valid() && Ready(e, h0, Token, ip, op) && e.src[ip] / 16 == 15
    ensures entry.Failed? || (entry.Literals? && entry.token == e.src[ip])
    ensures ip < next && Ready(e, h0, entry, next, op)
  {
    hide Decode, Legal, Interpret, LegalParsed, ReadRun, ParseSequence, ParseLiterals;
    var extra, error;
    extra, next, error := ReadVariableLength(e.src, ip + 1, |e.src| - RUN_MASK, true);
    ghost var run := ReadRun(e.src, ip + 1);
    if error == InitialError {
      RunTooLate(e.src, ip + 1);
      NotLegalShort(e.src, h0, ip, e.Hist(op), e.Cap());
      return Failed, next;
    }
    entry := Literals(e.src[ip], 15 + extra);
    if run.Some? && run.value.1 == next && extra == run.value.0 % U32 {
      AfterToken(e.src, h0, ip, 15 + extra, next, e.Hist(op), e.Cap());
    } else {
      assert Skipped(e.src, ip + 1, next);
      if extra == 0 { NoWrap(next - (ip + 1)); }
      RunTooLong(e.src, ip + 1, next);
      NotLegalShort(e.src, h0, ip, e.Hist(op), e.Cap());
    }
  }

  lemma {:induction false} RunTooLate(src: seq<byte>, i: nat)
    requires i >= |src| - RUN_MASK
    ensures ReadRun(src, i).Some? ==> ReadRun(src, i).value.1 + RUN_MASK > |src|
  {
  }

  lemma RunTooLong(src: seq<byte>, ip: nat, next: nat)
    requires Skipped(src, ip, next) && next >= |src| - RUN_MASK
    ensures ReadRun(src, ip).Some? ==> ReadRun(src, ip).value.1 + RUN_MASK > |src|
  {
  }

  lemma NotLegalShort(src: seq<byte>, h0: seq<byte>, ip: nat, h: seq<byte>, cap: int)
    requires ip < |src| && src[ip] / 16 == 15
    requires ReadRun(src, ip + 1).Some? ==> ReadRun(src, ip + 1).value.1 + RUN_MASK > |src|
    requires Pending(src, h0, ParseSequence(src, ip), h, cap)
    ensures !Legal(src, 0, h0, cap)
  {
    hide Decode, Legal, ReadRun;
  }

  /** Match length after the offset (label _copy_match). */
  method ReadMatchLength(e: Env, token: byte, offset: nat, ip: nat, op: nat, ghost h0: seq<byte>)
      returns (entry: Entry, next: nat)
    requires e.Valid() && Ready(e, h0, MatchLength(token, offset), ip, op)
    ensures entry.Failed? || (entry.Match? && entry.offset == offset)
    ensures entry.Match? && token % 16 != ML_MASK ==> entry.length == token % 16 + MINMATCH
    ensures ip <= next && Ready(e, h0, entry, next, op)
  {
    hide Decode, Legal, Interpret, LegalParsed, ReadRun, ParseMatch;
    next := ip;
    var length := token % 16;
    if length == ML_MASK {
      var extra, error;
      extra, next, error := ReadVariableLength(e.src, ip, |e.src| - LASTLITERALS + 1, false);
      if error != Ok {
        MatchLengthRejected(e.src, h0, token, offset, ip, e.Hist(op), e.Cap());
        return Failed, next;
      }
      length := length + extra;
    }
    AfterMatchLength(e.src, h0, token, offset, ip, length, next, e.Hist(op), e.Cap());
    entry := Match(offset, length + MINMATCH);
  }

  // ---------------------------------------------------------------- literals

  /** Output gained `length` literals from `ip`, after some copy that filled at least that much. */
  lemma LiteralsStored(e: Env, h: seq<byte>, ip: nat, op: nat, length: nat)
    requires e.Valid() && e.Lo() <= op && op + length <= e.buf.Length && ip + length <= |e.src|
    requires forall k :: op <= k < op + length ==> e.buf[k] == e.src[ip + k - op]
    requires e.Hist(op) == h
    ensures e.Hist(op + length) == h + e.src[ip..ip + length]
  {
    assert e.buf[op..op + length] == e.src[ip..ip + length];
    assert e.buf[e.Lo()..op + length] == e.buf[e.Lo()..op] + e.buf[op..op + length];
  }

  /** The offset behind the literals, once these are in place. */
  lemma OffsetReady(e: Env, h: seq<byte>, token: byte, length: nat, ip: nat, op: nat, h0: seq<byte>)
    requires e.Valid() && e.dst <= op && op + length <= e.oend - MFLIMIT && ip + length + 2 < |e.src|
    requires Pending(e.src, h0, ParseLiterals(e.src, token, length, ip), h, e.Cap())
    requires forall k :: op <= k < op + length ==> e.buf[k] == e.src[ip + k - op]
    requires e.Hist(op) == h
    ensures var b := ip + length;
      Ready(e, h0, MatchLength(token, LE16(e.src[b], e.src[b + 1])), b + 2, op + length)
  {
    hide Pending, ParseLiterals, ParseMatch;
    LiteralsStored(e, h, ip, op, length);
    AfterLiterals(e.src, h0, token, length, ip, h, e.Cap());
  }

  /** Literals in the fast loop: a 16-byte copy, or strides of 32 for long runs. */
  method FastLiterals(e: Env, token: byte, length: nat, ip: nat, op: nat, ghost h0: seq<byte>)
    returns (entry: Entry, ip': nat, op': nat)
    requires e.Valid() && Ready(e, h0, Literals(token, length), ip, op) && op <= e.oend - FASTLOOP_SAFE_DISTANCE
    modifies e.buf
    ensures entry == Literals(token, length) || entry.MatchLength?
    ensures ip <= ip' && (entry.Literals? ==> ip' == ip) && Ready(e, h0, entry, ip', op')
    ensures OnlyWithin(e.buf, op, e.oend) && op <= op'
    ensures entry.MatchLength? ==> op' <= e.oend - 32 && entry.token == token
  {
    hide Pending, ParseLiterals, ParseMatch, Legal;
    entry, ip', op' := Literals(token, length), ip, op;
    ghost var h := e.Hist(op);
    if length >= 15 {
      if op + length > e.oend - 32 || ip + length > |e.src| - 32 { return; }
      WildCopyIn(e.buf, op, op + length, e.src, ip, 32);
    } else {
      if ip > |e.src| - (16 + 1) { return; }
      CopyIn(e.buf, op, e.src, ip, 16);
    }
    assert e.buf[e.Lo()..op] == old(e.buf[e.Lo()..op]);
    OffsetReady(e, h, token, length, ip, op, h0);
    ip', op' := ip + length + 2, op + length;
    entry := MatchLength(token, LE16(e.src[ip + length], e.src[ip + length + 1]));
  }

  /** Label safe_literal_copy: either the last literals, copied exactly, or an 8-byte strided copy. */
  method SafeLiterals(e: Env, token: byte, length: nat, ip: nat, op: nat, ghost h0: seq<byte>)
    returns (entry: Entry, ip': nat, op': nat)
    requires e.Valid() && Ready(e, h0, Literals(token, length), ip, op)
    modifies e.buf
    ensures entry.Failed? || entry.Done? || entry.MatchLength?
    ensures ip <= ip' && (entry.MatchLength? ==> ip < ip') && Ready(e, h0, entry, ip', op')
    ensures OnlyWithin(e.buf, op, e.oend) && op <= op'
  {
    hide Pending, ParseLiterals, ParseMatch, Legal, Decode;
    entry, ip', op' := Failed, ip, op;
    ghost var h := e.Hist(op);
    if op + length > e.oend - MFLIMIT || ip + length > |e.src| - (2 + 1 + LASTLITERALS) {
      if ip + length != |e.src| || op + length > e.oend {
        LiteralsOverrun(e, token, length, ip, op, h0);
        return;
      }
      LastLiterals(e.src, h0, token, length, ip, e.Hist(op), e.Cap());
      CopyIn(e.buf, op, e.src, ip, length);
      assert e.buf[e.Lo()..op] == old(e.buf[e.Lo()..op]);
      LiteralsStored(e, h, ip, op, length);
      return Done, ip + length, op + length;
    }
    WildCopyIn(e.buf, op, op + length, e.src, ip, 8);
    assert e.buf[e.Lo()..op] == old(e.buf[e.Lo()..op]);
    OffsetReady(e, h, token, length, ip, op, h0);
    ip', op' := ip + length + 2, op + length;
    entry := MatchLength(token, LE16(e.src[ip + length], e.src[ip + length + 1]));
  }

  lemma LiteralsOverrun(e: Env, token: byte, length: nat, ip: nat, op: nat, h0: seq<byte>)
    requires e.Valid() && Ready(e, h0, Literals(token, length), ip, op)
    requires op + length > e.oend - MFLIMIT || ip + length > |e.src| - (2 + 1 + LASTLITERALS)
    requires ip + length != |e.src| || op + length > e.oend
    ensures !Legal(e.src, 0, h0, e.Cap())
  {
    hide Pending, ParseLiterals, Legal;
    if Pending(e.src, h0, ParseLiterals(e.src, token, length, ip), e.Hist(op), e.Cap()) {
      if ip + length == |e.src| {
        LastLiterals(e.src, h0, token, length, ip, e.Hist(op), e.Cap());
      } else {
        LiteralsRejected(e.src, h0, token, length, ip, e.Hist(op), e.Cap());
      }
    }
  }

  // ---------------------------------------------------------------- matches

  /** The match written out to the end of the output range, laid over the buffer. */
  ghost function Overlay(e: Env, h: seq<byte>, op: nat, offset: nat): (m: seq<byte>)
    requires e.Valid() && e.Lo() <= op <= e.oend && |h| == |e.ext| + op - e.Lo() && offset <= |h|
    ensures |m| == e.oend
  {
    Zeros(e.Lo()) + CopyMatch(h, offset, e.oend - op)[|e.ext|..]
  }

  lemma OverlayAt(e: Env, h: seq<byte>, op: nat, offset: nat, k: nat)
    requires e.Valid() && e.Lo() <= op <= e.oend && |h| == |e.ext| + op - e.Lo() && offset <= |h|
    requires e.Lo() <= k < e.oend
    ensures Overlay(e, h, op, offset)[k] == CopyMatch(h, offset, e.oend - op)[k + |e.ext| - e.Lo()]
  {
    hide CopyMatch;
  }

  lemma OverlayHolds(e: Env, op: nat, offset: nat)
    requires e.Valid() && e.Lo() <= op <= e.oend && offset <= |e.Hist(op)|
    ensures Holds(e.buf, Overlay(e, e.Hist(op), op, offset), e.Lo(), op)
  {
    hide CopyMatch;
    var h := e.Hist(op);
    var c := CopyMatch(h, offset, e.oend - op);
    forall k | e.Lo() <= k < op ensures e.buf[k] == Overlay(e, h, op, offset)[k] {
      assert c[..|h|][|e.ext| + k - e.Lo()] == h[|e.ext| + k - e.Lo()];
    }
  }

  /** A match that starts at or above the prefix repeats within the buffer. */
  lemma OverlayMatches(e: Env, h: seq<byte>, op: nat, offset: nat)
    requires e.Valid() && e.Lo() <= op <= e.oend && |h| == |e.ext| + op - e.Lo() && offset <= op - e.Lo()
    ensures Matches(Overlay(e, h, op, offset), op, e.oend, offset)
  {
    hide CopyMatch;
    var m := Overlay(e, h, op, offset);
    var z := |e.ext| - e.Lo();
    forall i, k | op <= k < e.oend && i == k - offset ensures m[k] == if offset == 0 then 0 else m[i] {
      CopyMatchAt(h, offset, e.oend - op, k + z);
      OverlayAt(e, h, op, offset, k);
      OverlayAt(e, h, op, offset, i);
    }
  }

  /** A match that starts `c` bytes inside the external dictionary: these bytes, then the prefix. */
  lemma OverlayExternal(e: Env, h: seq<byte>, op: nat, offset: nat)
    requires e.Valid() && e.Lo() <= op <= e.oend && |h| == |e.ext| + op - e.Lo() && h[..|e.ext|] == e.ext
    requires op - e.Lo() < offset <= |h|
    ensures var m, c := Overlay(e, h, op, offset), offset - (op - e.Lo());
      && (forall k :: op <= k < Min(op + c, e.oend) ==> m[k] == e.ext[|e.ext| - c + k - op])
      && (op + c <= e.oend ==> Repeats(m, op + c, e.oend, op + c - e.Lo()))
  {
    hide CopyMatch;
    var m, c := Overlay(e, h, op, offset), offset - (op - e.Lo());
    var z := |e.ext| - e.Lo();
    var g := CopyMatch(h, offset, e.oend - op);
    forall k | op <= k < Min(op + c, e.oend) ensures m[k] == e.ext[|e.ext| - c + k - op] {
      CopyMatchAt(h, offset, e.oend - op, k + z);
      OverlayAt(e, h, op, offset, k);
      assert g[..|h|][k + z - offset] == h[..|e.ext|][k + z - offset];
    }
    forall i, k | op + c <= k < e.oend && i == k - (op + c - e.Lo()) ensures m[k] == m[i] {
      CopyMatchAt(h, offset, e.oend - op, k + z);
      OverlayAt(e, h, op, offset, k);
      OverlayAt(e, h, op, offset, i);
      assert i + z == k + z - offset;
    }
  }

  /** Once the buffer holds the overlay up to op + length, the history is the copied match. */
  lemma OverlayDone(e: Env, h: seq<byte>, op: nat, offset: nat, length: nat)
    requires e.Valid() && e.Lo() <= op <= e.oend && |h| == |e.ext| + op - e.Lo() && offset <= |h|
    requires h[..|e.ext|] == e.ext
    requires op + length <= e.oend && Holds(e.buf, Overlay(e, h, op, offset), e.Lo(), op + length)
    ensures e.Hist(op + length) == CopyMatch(h, offset, length)
  {
    hide CopyMatch;
    var n := e.oend - op;
    var g := CopyMatch(h, offset, n);
    CopyMatchPrefix(h, offset, length, n);
    var r := e.Hist(op + length);
    assert g[..|h| + length] == CopyMatch(h, offset, length);
    forall k | 0 <= k < |r| ensures r[k] == g[k] {
      if k < |e.ext| {
        assert g[..|h|][k] == h[..|e.ext|][k];
      } else {
        assert r[k] == e.buf[k - |e.ext| + e.Lo()];
      }
    }
    assert r == g[..|h| + length];
  }

  /** A match that starts in the external dictionary: copied whole, or up to its end and on from the prefix. */
  method CopyExternal(e: Env, op: nat, offset: nat, length: nat)
    requires e.Valid() && e.dst <= op && op + length <= e.oend
    requires op - e.Lo() < offset <= |e.Hist(op)|
    modifies e.buf
    ensures e.Hist(op + length) == CopyMatch(old(e.Hist(op)), offset, length)
    ensures OnlyWithin(e.buf, op, op + length)
  {
    hide Overlay, CopyMatch;
    ghost var h := e.Hist(op);
    ghost var m := Overlay(e, h, op, offset);
    var c := offset - (op - e.Lo());
    OverlayHolds(e, op, offset);
    OverlayExternal(e, h, op, offset);
    if length <= c {
      CopyIn(e.buf, op, e.ext, |e.ext| - c, length);
    } else {
      CopyIn(e.buf, op, e.ext, |e.ext| - c, c);
      var x := op + c;
      var rest := length - c;
      if rest > x - e.Lo() {
        CopyBytes(e.buf, x, x + rest, x - e.Lo(), m, e.Lo());
      } else {
        CopyWithin(e.buf, x, x - e.Lo(), rest, m, e.Lo());
      }
    }
    OverlayDone(e, h, op, offset, length);
  }

  /** A match inside the buffer, near the end of the output: label safe_match_copy after its checks. */
  method CopySafe(e: Env, op: nat, offset: nat, length: nat)
    requires e.Valid() && e.dst <= op <= e.oend - MFLIMIT && op + length <= e.oend - LASTLITERALS
    requires offset <= op - e.Lo() && MINMATCH <= length
    modifies e.buf
    ensures e.Hist(op + length) == CopyMatch(old(e.Hist(op)), offset, length)
    ensures OnlyWithin(e.buf, op, e.oend)
  {
    hide Overlay, CopyMatch;
    ghost var h := e.Hist(op);
    ghost var m := Overlay(e, h, op, offset);
    OverlayHolds(e, op, offset);
    OverlayMatches(e, h, op, offset);
    var shift := offset;
    if offset < 8 {
      shift := CopyFirst8(e.buf, op, offset, m, e.Lo(), e.oend);
    } else {
      CopyWithin(e.buf, op, offset, 8, m, e.Lo());
    }
    CopySafeRest(e, op, op + length, shift, m);
    OverlayDone(e, h, op, offset, length);
  }

  /** The match from its ninth byte on. */
  method CopySafeRest(e: Env, op: nat, cpy: nat, shift: nat, ghost m: seq<byte>)
    requires e.Valid() && e.dst <= op <= e.oend - MFLIMIT && op + MINMATCH <= cpy <= e.oend - LASTLITERALS
    requires 8 <= shift <= op + 8 - e.Lo()
    requires Holds(e.buf, m, e.Lo(), op + 8) && Repeats(m, op + 8, e.oend, shift)
    modifies e.buf
    ensures Holds(e.buf, m, e.Lo(), cpy)
    ensures OnlyWithin(e.buf, op + 8, e.oend)
  {
    if cpy > e.oend - MATCH_SAFEGUARD_DISTANCE {
      var x, limit := op + 8, e.oend - (WILDCOPYLENGTH - 1);
      if x < limit {
        WildCopy8(e.buf, x, limit, shift, m, e.Lo());
        x := limit;
      }
      if x < cpy { CopyBytes(e.buf, x, cpy, shift, m, e.Lo()); }
    } else {
      CopyWithin(e.buf, op + 8, shift, 8, m, e.Lo());
      if cpy - op > 16 { WildCopy8(e.buf, op + 16, cpy, shift, m, e.Lo()); }
    }
  }

  /** A match inside the buffer, at least 64 bytes before its end. */
  method CopyFast(e: Env, op: nat, offset: nat, length: nat)
    requires e.Valid() && e.dst <= op && op + length < e.oend - FASTLOOP_SAFE_DISTANCE
    requires offset <= op - e.Lo() && MINMATCH <= length
    modifies e.buf
    ensures e.Hist(op + length) == CopyMatch(old(e.Hist(op)), offset, length)
    ensures OnlyWithin(e.buf, op, e.oend)
  {
    hide Overlay, CopyMatch;
    ghost var h := e.Hist(op);
    ghost var m := Overlay(e, h, op, offset);
    OverlayHolds(e, op, offset);
    OverlayMatches(e, h, op, offset);
    if offset < 16 {
      CopyUsingOffset(e.buf, op, op + length, offset, m, e.Lo());
    } else {
      WildCopy32(e.buf, op, op + length, offset, m, e.Lo());
    }
    OverlayDone(e, h, op, offset, length);
  }

  /** The common case: 18 bytes copied as 8 + 8 + 2, for a match of at most 18 bytes and offset from 8 on. */
  method Copy18(e: Env, op: nat, offset: nat, length: nat)
    requires e.Valid() && e.dst <= op <= e.oend - 18
    requires 8 <= offset <= op - e.Lo() && MINMATCH <= length <= 18
    modifies e.buf
    ensures e.Hist(op + length) == CopyMatch(old(e.Hist(op)), offset, length)
    ensures OnlyWithin(e.buf, op, e.oend)
  {
    hide Overlay, CopyMatch;
    ghost var h := e.Hist(op);
    ghost var m := Overlay(e, h, op, offset);
    OverlayHolds(e, op, offset);
    OverlayMatches(e, h, op, offset);
    CopyWithin(e.buf, op, offset, 8, m, e.Lo());
    CopyWithin(e.buf, op + 8, offset, 8, m, e.Lo());
    CopyWithin(e.buf, op + 16, offset, 2, m, e.Lo());
    OverlayDone(e, h, op, offset, length);
  }

  /** The next token is due once the match is in place. */
  lemma TokenReady(e: Env, h: seq<byte>, offset: nat, length: nat, ip: nat, op: nat, h0: seq<byte>)
    requires e.Valid() && e.dst <= op && op + length <= e.oend && 2 <= ip < |e.src| && offset <= DISTANCE_MAX
    requires offset <= |h| && Pending(e.src, h0, Seq(0, 0, offset, length, ip), h, e.Cap())
    requires e.Hist(op + length) == CopyMatch(h, offset, length)
    ensures Ready(e, h0, Token, ip, op + length)
  {
    hide Pending, CopyMatch, ParseSequence;
    AfterMatch(e.src, h0, offset, length, ip, h, e.Cap());
  }

  /** Label safe_match_copy. */
  method SafeMatch(e: Env, offset: nat, length: nat, ip: nat, op: nat, ghost h0: seq<byte>)
      returns (entry: Entry, op': nat)
    requires e.Valid() && Ready(e, h0, Match(offset, length), ip, op)
    modifies e.buf
    ensures entry.Failed? || entry.Token?
    ensures Ready(e, h0, entry, ip, op') && op <= op'
    ensures OnlyWithin(e.buf, op, e.oend)
  {
    hide Pending, CopyMatch, ParseSequence, Legal;
    ghost var h := e.Hist(op);
    entry, op' := Failed, op;
    if (|e.ext| < 64 * KB && op - offset + |e.ext| < e.lowPrefix) || op + length > e.oend - LASTLITERALS {
      MatchRejected(e.src, h0, offset, length, ip, h, e.Cap());
      return;
    }
    if e.mode.UsingExtDict? && op - offset < e.lowPrefix {
      CopyExternal(e, op, offset, length);
    } else {
      CopySafe(e, op, offset, length);
    }
    TokenReady(e, h, offset, length, ip, op, h0);
    entry, op' := Token, op + length;
  }

  /** The match of the fast loop, when it ends at least 64 bytes before the end of the output. */
  method FastMatch(e: Env, short: bool, offset: nat, length: nat, ip: nat, op: nat, ghost h0: seq<byte>)
      returns (entry: Entry, op': nat)
    requires e.Valid() && Ready(e, h0, Match(offset, length), ip, op) && (short ==> length <= 18)
    modifies e.buf
    ensures entry.Failed? || entry.Token? || entry == Match(offset, length)
    ensures Ready(e, h0, entry, ip, op') && op <= op'
    ensures OnlyWithin(e.buf, op, e.oend) && (entry.Token? ==> op' <= e.oend - FASTLOOP_SAFE_DISTANCE)
  {
    hide Pending, CopyMatch, ParseSequence, Legal;
    ghost var h := e.Hist(op);
    if op + length >= e.oend - FASTLOOP_SAFE_DISTANCE { return Match(offset, length), op; }
    if short && (e.mode.WithPrefix64k? || op - offset >= e.lowPrefix) && offset >= 8 {
      Copy18(e, op, offset, length);
    } else if |e.ext| < 64 * KB && op - offset + |e.ext| < e.lowPrefix {
      MatchRejected(e.src, h0, offset, length, ip, h, e.Cap());
      return Failed, op;
    } else if e.mode.UsingExtDict? && op - offset < e.lowPrefix {
      CopyExternal(e, op, offset, length);
    } else {
      CopyFast(e, op, offset, length);
    }
    TokenReady(e, h, offset, length, ip, op, h0);
    entry, op' := Token, op + length;
  }

  // ---------------------------------------------------------------- loops

  /** The fast loop; it leaves when the output or the input gets close to its end. */
  method FastLoop(e: Env, ghost h0: seq<byte>) returns (entry: Entry, ip: nat, op: nat)
    requires e.Valid() && e.oend - e.dst >= FASTLOOP_SAFE_DISTANCE
    requires Ready(e, h0, Token, 0, e.dst)
    modifies e.buf
    ensures Ready(e, h0, entry, ip, op)
    ensures OnlyWithin(e.buf, e.dst, e.oend)
  {
    hide Pending, ParseSequence, ParseLiterals, ParseMatch, Legal, Decode;
    entry, ip, op := Token, 0, e.dst;
    while true
      invariant entry.Token? && Ready(e, h0, Token, ip, op) && op <= e.oend - FASTLOOP_SAFE_DISTANCE
      invariant OnlyWithin(e.buf, e.dst, e.oend)
      decreases |e.src| - ip
    {
      entry, ip := TokenLiterals(e, ip, op, h0);
      if entry.Failed? { return; }
      entry, ip, op := FastLiterals(e, entry.token, entry.length, ip, op, h0);
      if !entry.MatchLength? { return; }
      var short := entry.token % 16 != ML_MASK;
      entry, ip := ReadMatchLength(e, entry.token, entry.offset, ip, op, h0);
      if !entry.Match? { return; }
      entry, op := FastMatch(e, short, entry.offset, entry.length, ip, op, h0);
      if !entry.Token? { return; }
    }
  }

  /** Token and literal length. */
  method TokenLiterals(e: Env, ip: nat, op: nat, ghost h0: seq<byte>) returns (entry: Entry, ip': nat)
    requires e.Valid() && Ready(e, h0, Token, ip, op)
    ensures entry.Failed? || (entry.Literals? && entry.token == e.src[ip])
    ensures entry.Literals? && e.src[ip] / 16 != 15 ==> entry.length == e.src[ip] / 16
    ensures ip < ip' && Ready(e, h0, entry, ip', op)
    ensures e.src[ip] / 16 != 15 ==> entry.Literals? && ip' == ip + 1
  {
    hide Pending, ParseSequence, ParseLiterals, Legal, Decode;
    var token := e.src[ip];
    if token / 16 == RUN_MASK {
      entry, ip' := LiteralLength(e, ip, op, h0);
    } else {
      entry, ip' := Literals(token, token / 16), ip + 1;
      AfterToken(e.src, h0, ip, token / 16, ip + 1, e.Hist(op), e.Cap());
    }
  }

  /** The two-stage shortcut: 16 bytes for up to 14 literals, then 18 bytes for a match of up to 18. */
  method Shortcut(e: Env, ip: nat, op: nat, ghost h0: seq<byte>) returns (entry: Entry, ip': nat, op': nat)
    requires e.Valid() && Ready(e, h0, Token, ip, op)
    requires e.src[ip] / 16 != RUN_MASK && ip + 1 < |e.src| - 14 - 2 && op <= e.oend - 14 - 18
    modifies e.buf
    ensures entry.Token? || entry.MatchLength?
    ensures ip < ip' && op <= op' && Ready(e, h0, entry, ip', op')
    ensures OnlyWithin(e.buf, op, e.oend)
  {
    hide Ready, CopyMatch;
    entry, ip', op' := ShortcutLiterals(e, ip, op, h0);
    var token, offset := entry.token, entry.offset;
    if token % 16 != ML_MASK && offset >= 8 && (e.mode.WithPrefix64k? || op' - offset >= e.lowPrefix) {
      op' := ShortcutMatch(e, token, offset, ip', op', h0);
      entry := Token;
    }
  }

  method ShortcutLiterals(e: Env, ip: nat, op: nat, ghost h0: seq<byte>) returns (entry: Entry, ip': nat, op': nat)
    requires e.Valid() && Ready(e, h0, Token, ip, op)
    requires e.src[ip] / 16 != RUN_MASK && ip + 1 < |e.src| - 14 - 2 && op <= e.oend - 14 - 18
    modifies e.buf
    ensures entry.MatchLength? && ip < ip' && op <= op' <= e.oend - 18 && Ready(e, h0, entry, ip', op')
    ensures OnlyWithin(e.buf, op, op + 16)
  {
    hide Pending, ParseSequence, ParseLiterals, ParseMatch, Legal, Decode;
    ghost var h := e.Hist(op);
    var token := e.src[ip];
    var length := token / 16;
    AfterToken(e.src, h0, ip, length, ip + 1, h, e.Cap());
    CopyIn(e.buf, op, e.src, ip + 1, 16);
    assert e.buf[e.Lo()..op] == old(e.buf[e.Lo()..op]);
    OffsetReady(e, h, token, length, ip + 1, op, h0);
    ip', op' := ip + 1 + length + 2, op + length;
    entry := MatchLength(token, LE16(e.src[ip' - 2], e.src[ip' - 1]));
  }

  method ShortcutMatch(e: Env, token: byte, offset: nat, ip: nat, op: nat, ghost h0: seq<byte>) returns (op': nat)
    requires e.Valid() && Ready(e, h0, MatchLength(token, offset), ip, op) && op <= e.oend - 18
    requires token % 16 != ML_MASK && offset >= 8 && (e.mode.WithPrefix64k? || op - offset >= e.lowPrefix)
    modifies e.buf
    ensures op <= op' && Ready(e, h0, Token, ip, op')
    ensures OnlyWithin(e.buf, op, e.oend)
  {
    hide Pending, ParseSequence, ParseMatch, Legal, Decode, CopyMatch;
    ghost var h := e.Hist(op);
    AfterMatchLength(e.src, h0, token, offset, ip, token % 16, ip, h, e.Cap());
    Copy18(e, op, offset, token % 16 + MINMATCH);
    TokenReady(e, h, offset, token % 16 + MINMATCH, ip, op, h0);
    op' := op + token % 16 + MINMATCH;
  }

  function Rank(entry: Entry): nat {
    match entry
    case Token => 1
    case Match(_, _) => 2
    case MatchLength(_, _) => 3
    case Literals(_, _) => 4
    case _ => 0
  }

  /** The main loop, entered at any of its labels. */
  method SafeLoop(e: Env, start: Entry, ip0: nat, op0: nat, ghost h0: seq<byte>)
      returns (entry: Entry, ip: nat, op: nat)
    requires e.Valid() && Ready(e, h0, start, ip0, op0)
    modifies e.buf
    ensures entry.Failed? || entry.Done?
    ensures Ready(e, h0, entry, ip, op)
    ensures OnlyWithin(e.buf, e.dst, e.oend)
  {
    hide Pending, ParseSequence, ParseLiterals, ParseMatch, Legal, Decode;
    entry, ip, op := start, ip0, op0;
    while !entry.Failed? && !entry.Done?
      invariant Ready(e, h0, entry, ip, op)
      invariant OnlyWithin(e.buf, e.dst, e.oend)
      decreases |e.src| - ip, Rank(entry)
    {
      match entry
      case Token =>
        if e.src[ip] / 16 != RUN_MASK && ip + 1 < |e.src| - 14 - 2 && op <= e.oend - 14 - 18 {
          entry, ip, op := Shortcut(e, ip, op, h0);
        } else {
          entry, ip := TokenLiterals(e, ip, op, h0);
        }
      case Literals(token, length) => entry, ip, op := SafeLiterals(e, token, length, ip, op, h0);
      case MatchLength(token, offset) => entry, ip := ReadMatchLength(e, token, offset, ip, op, h0);
      case Match(offset, length) => entry, op := SafeMatch(e, offset, length, ip, op, h0);
    }
  }

  /**
  LZ4_decompress_generic. A non-negative result is the number of bytes decoded, and they are the ones
  the reference decoder produces; a block that obeys the end-of-block rules is never refused.
  */
  method DecompressGeneric(e: Env) returns (result: int)
    requires e.Valid()
    modifies e.buf
    ensures OnlyWithin(e.buf, e.dst, e.oend)
    ensures result <= e.oend - e.dst
    ensures result >= 0 ==> Decode(e.src, 0, old(e.Hist(e.dst))) == Some(e.Hist(e.dst + result))
    ensures Legal(e.src, 0, old(e.Hist(e.dst)), e.Cap()) && (e.dst == e.oend ==> e.src == [0]) ==> result >= 0
  {
    hide Pending, Legal, Decode, ParseSequence;
    ghost var h0 := e.Hist(e.dst);
    if e.dst == e.oend {
      EmptyBlock(h0);
      return if e.src == [0] then 0 else -1;
    }
    DecodeByParsing(e.src, 0, h0, e.Cap());
    if |e.src| == 0 {
      NothingToParse(h0, e.Cap());
      return -1;
    }
    StartPending(e.src, h0, e.Cap());
    var entry, ip, op := Token, 0, e.dst;
    if e.oend - op >= FASTLOOP_SAFE_DISTANCE {
      entry, ip, op := FastLoop(e, h0);
    }
    entry, ip, op := SafeLoop(e, entry, ip, op, h0);
    return if entry.Failed? then -ip - 1 else op - e.dst;
  }

  lemma EmptyBlock(h: seq<byte>)
    ensures Decode([0], 0, h) == Some(h)
  {
    assert ParseSequence([0], 0) == Last(1, 1);
    assert h + [0][1..1] == h;
  }

  lemma NothingToParse(h: seq<byte>, cap: int)
    ensures !Legal([], 0, h, cap)
  {
  }

  lemma StartPending(src: seq<byte>, h0: seq<byte>, cap: int)
    ensures Pending(src, h0, ParseSequence(src, 0), h0, cap)
  {
    hide Decode, Legal, ParseSequence, Interpret, LegalParsed;
    DecodeByParsing(src, 0, h0, cap);
  }

  // ---------------------------------------------------------------- dictionary entry point

  /** Where the dictionary lies: right before the destination, or somewhere else. */
  datatype Dictionary = Before(size: nat) | Elsewhere(bytes: seq<byte>)

  ghost function DictionaryBytes(d: Dictionary, buf: array<byte>, dst: nat): seq<byte>
    requires dst <= buf.Length && (d.Before? ==> d.size <= dst)
    reads buf
  {
    match d
    case Before(n) => buf[dst - n..dst]
    case Elsewhere(b) => b
  }

  /** LZ4_decompress_safe_usingDict: the block decodes against the whole dictionary it was made with. */
  method DecompressSafeUsingDict(src: seq<byte>, buf: array<byte>, dst: nat, maxOutputSize: nat, d: Dictionary)
    returns (result: int)
    requires |src| <= INT_MAX && dst + maxOutputSize <= buf.Length && (d.Before? ==> d.size <= dst)
    modifies buf
    ensures OnlyWithin(buf, dst, dst + maxOutputSize)
    ensures result <= maxOutputSize
    ensures var dict := old(DictionaryBytes(d, buf, dst));
      result >= 0 ==> Decode(src, 0, dict) == Some(dict + buf[dst..dst + result])
    ensures var dict := old(DictionaryBytes(d, buf, dst));
      Legal(src, 0, dict, |dict| + maxOutputSize) && (maxOutputSize == 0 ==> src == [0]) ==> result >= 0
  {
    hide Decode, Legal, InReach, EnvFor;
    var e := EnvFor(src, buf, dst, maxOutputSize, d);
    EnvInReach(src, buf, dst, maxOutputSize, d);
    ghost var dict, h := DictionaryBytes(d, buf, dst), e.Hist(dst);
    SameWindow(src, dict, h, [], maxOutputSize);
    result := DecompressGeneric(e);
    assert buf[e.Lo()..dst] == old(buf[e.Lo()..dst]);
    if result >= 0 {
      HistoryGrown(e, h, dst + result);
      SameWindow(src, dict, h, buf[dst..dst + result], maxOutputSize);
    }
  }

  lemma HistoryGrown(e: Env, h: seq<byte>, op: nat)
    requires e.Valid() && e.dst <= op <= e.oend && e.Hist(e.dst) == h
    ensures e.Hist(op) == h + e.buf[e.dst..op]
  {
    assert e.buf[e.Lo()..op] == e.buf[e.Lo()..e.dst] + e.buf[e.dst..op];
  }

  /** Two histories that agree on the last DISTANCE_MAX bytes. */
  predicate InReach(a: seq<byte>, b: seq<byte>) {
    a == b || (|a| >= DISTANCE_MAX && |b| >= DISTANCE_MAX && a[|a| - DISTANCE_MAX..] == b[|b| - DISTANCE_MAX..])
  }

  /** Which decoder variant and lowest prefix position serve the dictionary. */
  function EnvFor(src: seq<byte>, buf: array<byte>, dst: nat, maxOutputSize: nat, d: Dictionary): (e: Env)
    requires |src| <= INT_MAX && dst + maxOutputSize <= buf.Length && (d.Before? ==> d.size <= dst)
    ensures e.Valid() && e.src == src && e.buf == buf && e.dst == dst && e.oend == dst + maxOutputSize
  {
    var oend := dst + maxOutputSize;
    if d == Before(0) || d == Elsewhere([]) then Env(src, buf, dst, oend, [], dst, NoDict)
    else if d.Elsewhere? then Env(src, buf, dst, oend, d.bytes, dst, UsingExtDict)
    else if d.size < 64 * KB - 1 then Env(src, buf, dst, oend, [], dst - d.size, NoDict)
    else Env(src, buf, dst, oend, [], dst - 64 * KB, WithPrefix64k)
  }

  lemma EnvInReach(src: seq<byte>, buf: array<byte>, dst: nat, maxOutputSize: nat, d: Dictionary)
    requires |src| <= INT_MAX && dst + maxOutputSize <= buf.Length && (d.Before? ==> d.size <= dst)
    ensures InReach(DictionaryBytes(d, buf, dst), EnvFor(src, buf, dst, maxOutputSize, d).Hist(dst))
  {
    hide InReach;
    var e := EnvFor(src, buf, dst, maxOutputSize, d);
    if d.Before? && d.size >= 64 * KB - 1 {
      assert e.Hist(dst) == buf[e.Lo()..dst];
      LongPrefixInReach(buf, dst, dst - d.size, e.Lo());
    } else {
      assert DictionaryBytes(d, buf, dst) == e.Hist(dst);
      SameInReach(e.Hist(dst));
    }
  }

  lemma SameInReach(a: seq<byte>)
    ensures InReach(a, a)
  {
  }

  lemma LongPrefixInReach(buf: array<byte>, dst: nat, i: nat, j: nat)
    requires dst <= buf.Length && i + DISTANCE_MAX <= dst && j + DISTANCE_MAX <= dst
    ensures InReach(buf[i..dst], buf[j..dst])
  {
    var s := buf[..dst];
    assert buf[i..dst] == s[i..] && buf[j..dst] == s[j..];
    SameTail(s, i, j, DISTANCE_MAX);
  }

  /** Two suffixes of one sequence agree on any common length. */
  lemma SameTail(s: seq<byte>, i: nat, j: nat, n: nat)
    requires i <= |s| && j <= |s| && i + n <= |s| && j + n <= |s|
    ensures |s[i..]| >= n && |s[j..]| >= n && s[i..][|s[i..]| - n..] == s[j..][|s[j..]| - n..]
  {
    assert s[i..][|s[i..]| - n..] == s[|s| - n..] == s[j..][|s[j..]| - n..];
  }

  /** Histories that agree as far as offsets reach decode a block to the same bytes. */
  lemma SameWindow(src: seq<byte>, a: seq<byte>, b: seq<byte>, t: seq<byte>, size: nat)
    requires InReach(a, b)
    ensures Decode(src, 0, a) == Some(a + t) <==> Decode(src, 0, b) == Some(b + t)
    ensures Legal(src, 0, a, |a| + size) == Legal(src, 0, b, |b| + size)
  {
    hide Decode, Legal;
    if a != b {
      var w := a[|a| - DISTANCE_MAX..];
      WindowOf(src, a, a[..|a| - DISTANCE_MAX], w, t, size);
      WindowOf(src, b, b[..|b| - DISTANCE_MAX], w, t, size);
    }
  }

  lemma WindowOf(src: seq<byte>, a: seq<byte>, x: seq<byte>, w: seq<byte>, t: seq<byte>, size: nat)
    requires a == x + w && |w| >= DISTANCE_MAX
    ensures Decode(src, 0, a) == Some(a + t) <==> Decode(src, 0, w) == Some(w + t)
    ensures Legal(src, 0, a, |a| + size) == Legal(src, 0, w, |w| + size)
  {
    hide Decode, Legal;
    DecodeTrim(src, 0, x, w, |w| + size);
    assert a + t == x + (w + t);
    if Decode(src, 0, w).Some? {
      var r := Decode(src, 0, w).value;
      if x + r == x + (w + t) {
        assert (x + r)[|x|..] == r && (x + (w + t))[|x|..] == w + t;
      }
    }
  }
}
