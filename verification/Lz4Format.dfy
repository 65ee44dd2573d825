/**
The LZ4 block format: how sequences are laid out as bytes, and what a block means
as a byte-at-a-time interpretation over a history (dictionary plus output so far).
Encoders and decoders are both proved against this module.
*/
module Lz4Format {
  import opened Bytes

  const MINMATCH := 4
  const LASTLITERALS := 5
  const MFLIMIT := 12
  const RUN_MASK := 15
  const ML_MASK := 15
  const DISTANCE_MAX := 65535

  /** Literals followed by a copy of `matchLength` bytes from `offset` bytes back. */
  datatype Sequence = Sequence(literals: seq<byte>, offset: nat, matchLength: nat) {
    predicate Valid() {
      && |literals| < U32
      && offset <= DISTANCE_MAX
      && MINMATCH <= matchLength < U32
    }
  }

  // ---------------------------------------------------------------- meaning

  /** The byte a match regenerates next: `offset` back, or zero for the degenerate offset 0. */
  function MatchByte(h: seq<byte>, offset: nat): byte
    requires offset <= |h|
  {
    if offset == 0 then 0 else h[|h| - offset]
  }

  /** History after copying `n` match bytes one at a time; the source may overlap the output. */
  function CopyMatch(h: seq<byte>, offset: nat, n: nat): (r: seq<byte>)
    requires offset <= |h|
    ensures |r| == |h| + n
    ensures r[..|h|] == h
  {
    if n == 0 then h
    else
      var p := CopyMatch(h, offset, n - 1);
      p + [MatchByte(p, offset)]
  }

  /** History after running `ss` from `h`; None when some offset reaches behind the history. */
  function Expand(h: seq<byte>, ss: seq<Sequence>): Option<seq<byte>> {
    if ss == [] then Some(h)
    else
      match Expand(h, ss[..|ss| - 1])
      case None => None
      case Some(g) => Append(g, ss[|ss| - 1])
  }

  function Append(g: seq<byte>, s: Sequence): Option<seq<byte>> {
    var h := g + s.literals;
    if s.offset > |h| then None else Some(CopyMatch(h, s.offset, s.matchLength))
  }

  // ---------------------------------------------------------------- layout

  function LengthBytes(n: nat): (r: seq<byte>)
    ensures |r| == n / 255 + 1
  {
    if n < 255 then [n] else [255] + LengthBytes(n - 255)
  }

  function Nibble(n: nat): nat { if n < 15 then n else 15 }

  /** Number of extra bytes a length occupies outside the token. */
  function TailSize(n: nat): nat { if n < 15 then 0 else (n - 15) / 255 + 1 }

  function LengthTail(n: nat): (r: seq<byte>)
    ensures |r| == TailSize(n)
  {
    if n < 15 then [] else LengthBytes(n - 15)
  }

  function EncodeSequence(s: Sequence): seq<byte>
    requires s.Valid()
  {
    [Nibble(|s.literals|) * 16 + Nibble(s.matchLength - MINMATCH)]
    + LengthTail(|s.literals|) + s.literals
    + [s.offset % 256, s.offset / 256]
    + LengthTail(s.matchLength - MINMATCH)
  }

  function EncodeLast(literals: seq<byte>): (r: seq<byte>)
    ensures |r| == 1 + TailSize(|literals|) + |literals|
  {
    [Nibble(|literals|) * 16] + LengthTail(|literals|) + literals
  }

  function EncodeSequences(ss: seq<Sequence>): seq<byte>
    requires forall s :: s in ss ==> s.Valid()
  {
    if ss == [] then [] else EncodeSequences(ss[..|ss| - 1]) + EncodeSequence(ss[|ss| - 1])
  }

  // ---------------------------------------------------------------- parsing

  /** Sum of a run of length bytes and the position behind it; the sum is unbounded here. */
  function ReadRun(src: seq<byte>, i: nat): (r: Option<(nat, nat)>)
    decreases |src| - i
    ensures r.Some? ==> i < r.value.1 <= |src|
  {
    if i >= |src| then None
    else if src[i] != 255 then Some((src[i], i + 1))
    else
      match ReadRun(src, i + 1)
      case None => None
      case Some((n, j)) => Some((n + 255, j))
  }

  /** A length field: the nibble, extended (modulo 2^32) by length bytes when it is 15. */
  function ReadField(src: seq<byte>, i: nat, nibble: nat): (r: Option<(nat, nat)>)
    requires i <= |src|
    ensures r.Some? ==> i <= r.value.1 <= |src|
  {
    if nibble != 15 then Some((nibble, i))
    else
      match ReadRun(src, i)
      case None => None
      case Some((n, j)) => Some((n % U32 + 15, j))
  }

  /** One parsed sequence: literals are src[from..to]; `next` is where the following token starts. */
  datatype Parsed =
    | Bad
    | Last(from: nat, to: nat)
    | Seq(from: nat, to: nat, offset: nat, matchLength: nat, next: nat)

  function LE16(lo: int, hi: int): int { lo + 256 * hi }

  function ParseOffset(src: seq<byte>, token: byte, from: nat, to: nat): (p: Parsed)
    requires from <= to <= |src|
    ensures p.Seq? ==> p.from == from && p.to == to < to + 2 <= p.next <= |src| && p.offset <= DISTANCE_MAX
  {
    if to + 2 > |src| then Bad
    else
      match ReadField(src, to + 2, token % 16)
      case None => Bad
      case Some((m, next)) => Seq(from, to, LE16(src[to], src[to + 1]), m + MINMATCH, next)
  }

  function ParseLiterals(src: seq<byte>, token: byte, length: nat, from: nat): (p: Parsed)
    requires from <= |src|
    ensures p.Last? ==> p.from == from && p.to == from + length == |src|
    ensures p.Seq? ==>
      p.from == from && p.to == from + length && p.to + 2 <= p.next <= |src| && p.offset <= DISTANCE_MAX
  {
    if from + length > |src| then Bad
    else if from + length == |src| then Last(from, from + length)
    else ParseOffset(src, token, from, from + length)
  }

  function ParseSequence(src: seq<byte>, i: nat): (p: Parsed)
    ensures WellParsed(src, p)
    ensures p.Last? || p.Seq? ==> i < p.from
  {
    if i >= |src| then Bad
    else
      match ReadField(src, i + 1, src[i] / 16)
      case None => Bad
      case Some((length, j)) => ParseLiterals(src, src[i], length, j)
  }

  predicate WellParsed(src: seq<byte>, p: Parsed) {
    && (p.Last? ==> p.from <= p.to == |src|)
    && (p.Seq? ==> p.from <= p.to && p.to + 2 <= p.next <= |src| && p.offset <= DISTANCE_MAX)
  }

  /** The reference decoder: history after interpreting src[i..] from history `h`. */
  function Decode(src: seq<byte>, i: nat, h: seq<byte>): Option<seq<byte>>
    decreases Max(|src| - i, 0) + 1, 0
  {
    Interpret(src, ParseSequence(src, i), h)
  }

  /** What a parsed sequence and everything behind it does to history `h`. */
  function Interpret(src: seq<byte>, p: Parsed, h: seq<byte>): Option<seq<byte>>
    requires WellParsed(src, p)
    decreases if p.Seq? then |src| - p.next + 1 else 0, 1
  {
    match p
    case Bad => None
    case Last(from, to) => Some(h + src[from..to])
    case Seq(from, to, offset, m, next) =>
      var h' := h + src[from..to];
      if offset > |h'| then None else Decode(src, next, CopyMatch(h', offset, m))
  }

  /**
  The end-of-block rules: whether src[i..], run from `h`, keeps the last match MFLIMIT bytes and
  the end of every match LASTLITERALS bytes away from `cap`, the history size once decoded.
  */
  predicate Legal(src: seq<byte>, i: nat, h: seq<byte>, cap: int)
    decreases Max(|src| - i, 0) + 1, 0
  {
    LegalParsed(src, ParseSequence(src, i), h, cap)
  }

  predicate LegalParsed(src: seq<byte>, p: Parsed, h: seq<byte>, cap: int)
    requires WellParsed(src, p)
    decreases if p.Seq? then |src| - p.next + 1 else 0, 1
  {
    match p
    case Bad => false
    case Last(from, to) => |h| + (to - from) <= cap
    case Seq(from, to, offset, m, next) =>
      var h' := h + src[from..to];
      && |h'| <= cap - MFLIMIT
      && to <= |src| - (2 + 1 + LASTLITERALS)
      && offset <= |h'|
      && |h'| + m <= cap - LASTLITERALS
      && next <= |src| - LASTLITERALS
      && Legal(src, next, CopyMatch(h', offset, m), cap)
  }

  // ---------------------------------------------------------------- lemmas on copying

  lemma {:induction false} CopyMatchPrefix(h: seq<byte>, offset: nat, m: nat, n: nat)
    requires offset <= |h| && m <= n
    ensures CopyMatch(h, offset, n)[..|h| + m] == CopyMatch(h, offset, m)
  {
    if m < n {
      CopyMatchPrefix(h, offset, m, n - 1);
      var p := CopyMatch(h, offset, n - 1);
      assert CopyMatch(h, offset, n) == p + [MatchByte(p, offset)];
      assert CopyMatch(h, offset, n)[..|h| + m] == p[..|h| + m];
    }
  }

  /** Every copied byte equals the one `offset` before it (zero when the offset is zero). */
  lemma {:induction false} CopyMatchAt(h: seq<byte>, offset: nat, n: nat, k: nat)
    requires offset <= |h| && |h| <= k < |h| + n
    ensures CopyMatch(h, offset, n)[k] == if offset == 0 then 0 else CopyMatch(h, offset, n)[k - offset]
  {
    var j := k - |h|;
    CopyMatchPrefix(h, offset, j + 1, n);
    var m := CopyMatch(h, offset, n);
    var p := CopyMatch(h, offset, j);
    assert m[k] == CopyMatch(h, offset, j + 1)[k] == MatchByte(p, offset);
    assert p == CopyMatch(h, offset, j + 1)[..k];
  }

  /** A sequence in which every byte from |h| on repeats `offset` back is the copied match. */
  lemma {:induction false} CopyMatchUnique(h: seq<byte>, offset: nat, n: nat, r: seq<byte>)
    requires 0 < offset <= |h|
    requires |r| == |h| + n && r[..|h|] == h
    requires forall k :: |h| <= k < |r| ==> r[k] == r[k - offset]
    ensures r == CopyMatch(h, offset, n)
  {
    if n == 0 {
      assert r == r[..|h|];
    } else {
      var p := r[..|r| - 1];
      assert p[..|h|] == r[..|h|];
      CopyMatchUnique(h, offset, n - 1, p);
      assert r == p + [r[|r| - 1]];
    }
  }

  // ---------------------------------------------------------------- lemmas on layout

  lemma SliceOfSlice(src: seq<byte>, i: nat, n: nat, a: nat, b: nat)
    requires i + n <= |src| && a <= b <= n
    ensures src[i..i + n][a..b] == src[i + a..i + b]
  {
    var l, r := src[i..i + n][a..b], src[i + a..i + b];
    assert |l| == |r| && forall k :: 0 <= k < |l| ==> l[k] == r[k];
  }

  /** The run reader recovers a length laid out anywhere inside a larger buffer. */
  lemma {:induction false} ReadRunOfLengthBytes(src: seq<byte>, i: nat, n: nat)
    requires i + |LengthBytes(n)| <= |src|
    requires src[i..i + |LengthBytes(n)|] == LengthBytes(n)
    ensures ReadRun(src, i) == Some((n, i + |LengthBytes(n)|))
    decreases n
  {
    var len := |LengthBytes(n)|;
    assert src[i] == src[i..i + len][0];
    if n >= 255 {
      assert LengthBytes(n)[1..] == LengthBytes(n - 255);
      SliceOfSlice(src, i, len, 1, len);
      ReadRunOfLengthBytes(src, i + 1, n - 255);
    }
  }

  lemma ReadFieldOfTail(src: seq<byte>, i: nat, n: nat)
    requires n < U32 && i + TailSize(n) <= |src|
    requires src[i..i + TailSize(n)] == LengthTail(n)
    ensures ReadField(src, i, Nibble(n)) == Some((n, i + TailSize(n)))
  {
    if n >= 15 {
      ReadRunOfLengthBytes(src, i, n - 15);
    }
  }

  /** The parts of a laid-out sequence. */
  lemma SequenceParts(s: Sequence)
    requires s.Valid()
    ensures var e, ll, ml := EncodeSequence(s), |s.literals|, s.matchLength - MINMATCH;
      var a := 1 + TailSize(ll);
      var b := a + ll;
      && |e| == b + 2 + TailSize(ml)
      && e[0] == Nibble(ll) * 16 + Nibble(ml)
      && e[1..a] == LengthTail(ll) && e[a..b] == s.literals
      && e[b] == s.offset % 256 && e[b + 1] == s.offset / 256
      && e[b + 2..b + 2 + TailSize(ml)] == LengthTail(ml)
  {
    var ll, ml := |s.literals|, s.matchLength - MINMATCH;
    hide LengthTail;
    var head := [Nibble(ll) * 16 + Nibble(ml)] + LengthTail(ll) + s.literals;
    var rest := [s.offset % 256, s.offset / 256] + LengthTail(ml);
    assert EncodeSequence(s) == head + rest;
    assert rest[2..] == LengthTail(ml);
  }

  lemma SequenceInside(src: seq<byte>, i: nat, s: Sequence)
    requires s.Valid()
    requires i + |EncodeSequence(s)| <= |src|
    requires src[i..i + |EncodeSequence(s)|] == EncodeSequence(s)
    ensures var ll, ml := |s.literals|, s.matchLength - MINMATCH;
      var a := i + 1 + TailSize(ll);
      var b := a + ll;
      && i + |EncodeSequence(s)| == b + 2 + TailSize(ml)
      && src[i] == Nibble(ll) * 16 + Nibble(ml)
      && src[i + 1..a] == LengthTail(ll) && src[a..b] == s.literals
      && src[b] == s.offset % 256 && src[b + 1] == s.offset / 256
      && src[b + 2..b + 2 + TailSize(ml)] == LengthTail(ml)
  {
    hide EncodeSequence, LengthTail, TailSize, Nibble;
    var e, ll := EncodeSequence(s), |s.literals|;
    var a := 1 + TailSize(ll);
    var b := a + ll;
    SequenceParts(s);
    assert src[i] == src[i..i + |e|][0] && src[i + b] == src[i..i + |e|][b] && src[i + b + 1] == src[i..i + |e|][b + 1];
    SliceOfSlice(src, i, |e|, 1, a);
    SliceOfSlice(src, i, |e|, a, b);
    SliceOfSlice(src, i, |e|, b + 2, |e|);
  }

  /** A laid-out sequence parses back to its own literals, offset, match length and extent. */
  lemma ParseEncodedSequence(src: seq<byte>, i: nat, s: Sequence)
    requires s.Valid()
    requires i + |EncodeSequence(s)| <= |src|
    requires src[i..i + |EncodeSequence(s)|] == EncodeSequence(s)
    ensures var p := ParseSequence(src, i);
      && p.Seq? && src[p.from..p.to] == s.literals && p.offset == s.offset
      && p.matchLength == s.matchLength && p.next == i + |EncodeSequence(s)|
  {
    hide EncodeSequence, LengthTail, ReadField, TailSize;
    var ll, ml := |s.literals|, s.matchLength - MINMATCH;
    SequenceInside(src, i, s);
    ReadFieldOfTail(src, i + 1, ll);
    ReadFieldOfTail(src, i + 1 + TailSize(ll) + ll + 2, ml);
  }

  lemma ParseEncodedLast(src: seq<byte>, i: nat, literals: seq<byte>)
    requires |literals| < U32 && i <= |src|
    requires src[i..] == EncodeLast(literals)
    ensures var p := ParseSequence(src, i);
      p.Last? && src[p.from..p.to] == literals
  {
    var e, ll := EncodeLast(literals), |literals|;
    var a := 1 + TailSize(ll);
    assert |e| == a + ll && e[0] == Nibble(ll) * 16 && e[1..a] == LengthTail(ll) && e[a..a + ll] == literals;
    assert src[i] == src[i..][0] && src[i..] == src[i..i + |e|];
    SliceOfSlice(src, i, |e|, 1, a);
    ReadFieldOfTail(src, i + 1, ll);
    SliceOfSlice(src, i, |e|, a, a + ll);
  }

  // ---------------------------------------------------------------- round trip

  /** Where the last sequence of `ss` sits in its layout. */
  lemma LastSequenceSlot(ss: seq<Sequence>, rest: seq<byte>)
    requires ss != [] && forall s :: s in ss ==> s.Valid()
    ensures var n, src := |ss| - 1, EncodeSequences(ss) + rest;
      var i, e := |EncodeSequences(ss[..n])|, EncodeSequence(ss[n]);
      && src == EncodeSequences(ss[..n]) + (e + rest)
      && i + |e| == |EncodeSequences(ss)|
      && src[i..i + |e|] == e
  {
  }

  /** Decoding a laid-out block continues, after its first sequences, with their expansion as history. */
  lemma {:induction false} DecodeSkipsSequences(ss: seq<Sequence>, rest: seq<byte>, h: seq<byte>)
    requires forall s :: s in ss ==> s.Valid()
    requires Expand(h, ss).Some?
    ensures Decode(EncodeSequences(ss) + rest, 0, h)
            == Decode(EncodeSequences(ss) + rest, |EncodeSequences(ss)|, Expand(h, ss).value)
  {
    hide EncodeSequence, Decode, Append;
    if ss != [] {
      var n := |ss| - 1;
      LastSequenceSlot(ss, rest);
      DecodeSkipsSequences(ss[..n], EncodeSequence(ss[n]) + rest, h);
      DecodeSkipsOne(EncodeSequences(ss) + rest, |EncodeSequences(ss[..n])|, ss[n], Expand(h, ss[..n]).value);
    }
  }

  lemma DecodeSkipsOne(src: seq<byte>, i: nat, s: Sequence, g: seq<byte>)
    requires s.Valid() && i + |EncodeSequence(s)| <= |src|
    requires src[i..i + |EncodeSequence(s)|] == EncodeSequence(s) && Append(g, s).Some?
    ensures Decode(src, i, g) == Decode(src, i + |EncodeSequence(s)|, Append(g, s).value)
  {
    hide EncodeSequence, ParseSequence;
    ParseEncodedSequence(src, i, s);
  }

  /** What a block means, for every dictionary: the reference decoder inverts the layout. */
  lemma DecodeOfEncode(ss: seq<Sequence>, last: seq<byte>, h: seq<byte>)
    requires forall s :: s in ss ==> s.Valid()
    requires Expand(h, ss).Some? && |last| < U32
    ensures Decode(EncodeSequences(ss) + EncodeLast(last), 0, h) == Some(Expand(h, ss).value + last)
  {
    var src := EncodeSequences(ss) + EncodeLast(last);
    var i := |EncodeSequences(ss)|;
    DecodeSkipsSequences(ss, EncodeLast(last), h);
    assert src[i..] == EncodeLast(last);
    ParseEncodedLast(src, i, last);
  }

  /** The end-of-block rules on sequences: what an encoder promises about where its matches lie. */
  predicate Polite(h: seq<byte>, ss: seq<Sequence>, cap: int)
    requires Expand(h, ss).Some?
  {
    ss != [] ==>
      var n := |ss| - 1;
      && Polite(h, ss[..n], cap)
      && |Expand(h, ss[..n]).value| + |ss[n].literals| <= cap - MFLIMIT
      && |Expand(h, ss).value| <= cap - LASTLITERALS
  }

  /** Polite sequences followed by a legal rest make a legal block. */
  lemma {:induction false} LegalSkipsSequences(ss: seq<Sequence>, rest: seq<byte>, h: seq<byte>, cap: int)
    requires forall s :: s in ss ==> s.Valid()
    requires Expand(h, ss).Some? && Polite(h, ss, cap)
    requires |rest| >= 1 + LASTLITERALS
    requires Legal(EncodeSequences(ss) + rest, |EncodeSequences(ss)|, Expand(h, ss).value, cap)
    ensures Legal(EncodeSequences(ss) + rest, 0, h, cap)
  {
    hide EncodeSequence, ParseSequence;
    if ss != [] {
      var n := |ss| - 1;
      LastSequenceSlot(ss, rest);
      ParseEncodedSequence(EncodeSequences(ss) + rest, |EncodeSequences(ss[..n])|, ss[n]);
      LegalSkipsSequences(ss[..n], EncodeSequence(ss[n]) + rest, h, cap);
    }
  }

  /** A block of polite sequences that ends in at least LASTLITERALS literals obeys the end-of-block rules. */
  lemma LegalOfEncode(ss: seq<Sequence>, last: seq<byte>, h: seq<byte>)
    requires forall s :: s in ss ==> s.Valid()
    requires Expand(h, ss).Some? && |last| < U32
    requires ss != [] ==> |last| >= LASTLITERALS
    requires Polite(h, ss, |Expand(h, ss).value| + |last|)
    ensures Legal(EncodeSequences(ss) + EncodeLast(last), 0, h, |Expand(h, ss).value| + |last|)
  {
    hide EncodeLast, EncodeSequences, Expand, Polite, Legal;
    var g := Expand(h, ss).value;
    LegalLast(EncodeSequences(ss), last, g);
    if ss != [] {
      LegalSkipsSequences(ss, EncodeLast(last), h, |g| + |last|);
    } else {
      assert EncodeSequences(ss) == [] && g == h by { SequencesOfNone(h); }
    }
  }

  lemma SequencesOfNone(h: seq<byte>)
    ensures EncodeSequences([]) == [] && Expand(h, []) == Some(h)
  {
  }

  lemma LegalLast(pre: seq<byte>, last: seq<byte>, g: seq<byte>)
    requires |last| < U32
    ensures Legal(pre + EncodeLast(last), |pre|, g, |g| + |last|)
  {
    hide EncodeLast, ParseSequence;
    var src := pre + EncodeLast(last);
    assert src[|pre|..] == EncodeLast(last);
    ParseEncodedLast(src, |pre|, last);
    var p := ParseSequence(src, |pre|);
    assert |src[p.from..p.to]| == p.to - p.from;
  }

  /** A legal block always decodes, to no more than `cap` bytes. */
  lemma {:induction false} LegalDecodes(src: seq<byte>, i: nat, h: seq<byte>, cap: int)
    requires Legal(src, i, h, cap)
    ensures Decode(src, i, h).Some? && |h| <= |Decode(src, i, h).value| <= cap
    decreases |src| - i
  {
    var p := ParseSequence(src, i);
    if p.Seq? {
      LegalDecodes(src, p.next, CopyMatch(h + src[p.from..p.to], p.offset, p.matchLength), cap);
    }
  }

  // ---------------------------------------------------------------- window

  lemma {:induction false} CopyMatchTrim(x: seq<byte>, h: seq<byte>, offset: nat, n: nat)
    requires offset <= |h|
    ensures CopyMatch(x + h, offset, n) == x + CopyMatch(h, offset, n)
  {
    if n > 0 {
      CopyMatchTrim(x, h, offset, n - 1);
      var p := CopyMatch(h, offset, n - 1);
      assert MatchByte(x + p, offset) == MatchByte(p, offset);
      assert x + p + [MatchByte(p, offset)] == x + (p + [MatchByte(p, offset)]);
    }
  }

  /** No offset reaches further back than DISTANCE_MAX, so history beyond that does not matter. */
  lemma {:induction false} DecodeTrim(src: seq<byte>, i: nat, x: seq<byte>, h: seq<byte>, cap: int)
    requires |h| >= DISTANCE_MAX
    ensures Decode(src, i, x + h) == match Decode(src, i, h) case None => None case Some(r) => Some(x + r)
    ensures Legal(src, i, x + h, |x| + cap) == Legal(src, i, h, cap)
    decreases |src| - i
  {
    hide ParseSequence, CopyMatch;
    var p := ParseSequence(src, i);
    if p.Last? {
      assert x + h + src[p.from..p.to] == x + (h + src[p.from..p.to]);
    } else if p.Seq? {
      var g := h + src[p.from..p.to];
      assert x + h + src[p.from..p.to] == x + g;
      CopyMatchTrim(x, g, p.offset, p.matchLength);
      DecodeTrim(src, p.next, x, CopyMatch(g, p.offset, p.matchLength), cap);
    }
  }

  /** More history in front never hurts: what decodes against `h` decodes alike against any extension of it. */
  lemma {:induction false} DecodeExtend(src: seq<byte>, i: nat, x: seq<byte>, h: seq<byte>, cap: int)
    ensures Decode(src, i, h).Some? ==> Decode(src, i, x + h) == Some(x + Decode(src, i, h).value)
    ensures Legal(src, i, h, cap) ==> Legal(src, i, x + h, |x| + cap)
    decreases |src| - i
  {
    hide ParseSequence, CopyMatch;
    var p := ParseSequence(src, i);
    assert Legal(src, i, h, cap) == LegalParsed(src, p, h, cap);
    if p.Last? {
      assert x + h + src[p.from..p.to] == x + (h + src[p.from..p.to]);
    } else if p.Seq? {
      var g := h + src[p.from..p.to];
      assert x + h + src[p.from..p.to] == x + g;
      assert |x + g| == |x| + |g|;
      if p.offset <= |g| {
        CopyMatchTrim(x, g, p.offset, p.matchLength);
        DecodeExtend(src, p.next, x, CopyMatch(g, p.offset, p.matchLength), cap);
      }
    }
  }
}
