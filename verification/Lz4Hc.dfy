/**
LZ4HC_compress_optimal: the parser that fills a table of prices for the positions ahead, walks it back to front,
and encodes the chosen path. The match finder is a parameter whose answers are matches of the window;
positions are indices into the window, as in Lz4Encoder.
*/
module Lz4Hc {
  import opened Bytes
  import opened Lz4Format
  import opened Lz4Copy
  import opened Lz4Encoder

  const OPT_NUM := 4096
  const TRAILING_LITERALS := 3

  // ---------------------------------------------------------------- prices

  function LiteralsPrice(litlen: nat): nat {
    if litlen >= RUN_MASK then litlen + 1 + (litlen - RUN_MASK) / 255 else litlen
  }

  function SequencePrice(litlen: nat, mlen: nat): nat
    requires mlen >= MINMATCH
  {
    1 + 2 + LiteralsPrice(litlen) + (if mlen >= ML_MASK + MINMATCH then 1 + (mlen - (ML_MASK + MINMATCH)) / 255 else 0)
  }

  /** A sequence takes exactly its price in bytes. */
  lemma PriceIsSize(s: Sequence)
    requires s.Valid()
    ensures |EncodeSequence(s)| == SequencePrice(|s.literals|, s.matchLength)
  {
    hide EncodeSequence, LengthTail;
    SequenceParts(s);
  }

  // ---------------------------------------------------------------- encoding a sequence

  /** Length bytes of a match, two at a time. */
  method PutPairs(dst: array<byte>, op: nat, n: nat) returns (op': nat)
    requires op + n / 255 + 1 <= dst.Length
    modifies dst
    ensures op' == op + n / 255 + 1 && dst[op..op'] == LengthBytes(n)
    ensures OnlyWithin(dst, op, op')
  {
    hide LengthBytes;
    var length := n;
    op' := op;
    while length >= 510
      invariant 0 <= length && op <= op' && length + 255 * (op' - op) == n
      invariant forall k :: op <= k < op' ==> dst[k] == 255
      invariant OnlyWithin(dst, op, op')
      decreases length
    {
      dst[op'], dst[op' + 1] := 255, 255;
      op' := op' + 2;
      length := length - 510;
    }
    if length >= 255 {
      length := length - 255;
      dst[op'] := 255;
      op' := op' + 1;
    }
    dst[op'] := length;
    op' := op' + 1;
    LengthBytesAre(n, dst[op..op']);
  }

  /** Offset and match length behind the literals; the match nibble is added to the token. */
  method PutMatchHc(dst: array<byte>, token: nat, op: nat, oend: nat, offset: nat, matchCode: nat)
      returns (ok: bool, op': nat)
    requires token < op && op + 2 <= oend <= dst.Length && offset <= DISTANCE_MAX && dst[token] % 16 == 0
    modifies dst
    ensures ok <==> op + 2 + matchCode / 255 + (1 + LASTLITERALS) <= oend
    ensures ok ==> op' == op + 2 + TailSize(matchCode) && dst[token] == old(dst[token]) + Nibble(matchCode)
    ensures ok ==> dst[op..op'] == [offset % 256, offset / 256] + LengthTail(matchCode)
    ensures forall k :: 0 <= k < op && k != token ==> dst[k] == old(dst[k])
    ensures forall k :: oend <= k < dst.Length ==> dst[k] == old(dst[k])
  {
    hide LengthBytes;
    dst[op], dst[op + 1] := offset % 256, offset / 256;
    op' := op + 2;
    ok := op' + matchCode / 255 + (1 + LASTLITERALS) <= oend;
    if !ok { return; }
    if matchCode >= ML_MASK {
      dst[token] := dst[token] + ML_MASK;
      op' := PutPairs(dst, op', matchCode - ML_MASK);
    } else {
      dst[token] := dst[token] + matchCode;
    }
    assert dst[op + 2..op'] == LengthTail(matchCode);
    assert dst[op..op'] == [dst[op], dst[op + 1]] + dst[op + 2..op'];
  }

  /** The two checks of the output limit. */
  predicate FitsHc(op: nat, oend: nat, litlen: nat, mlen: nat)
    requires mlen >= MINMATCH
  {
    && op + 1 + litlen + (2 + 1 + LASTLITERALS) + litlen / 255 <= oend
    && op + 1 + LiteralsPrice(litlen) + 2 + (mlen - MINMATCH) / 255 + (1 + LASTLITERALS) <= oend
  }

  /** LZ4HC_encodeSequence with limited output: emits exactly the sequence's price in bytes. */
  method EncodeSequenceHc(dst: array<byte>, op: nat, oend: nat, w: seq<byte>, anchor: nat, ip: nat, offset: nat,
      mlen: nat)
    returns (ok: bool, op': nat)
    requires op <= oend <= dst.Length && anchor <= ip && ip + 8 <= |w| && offset <= DISTANCE_MAX
    requires ip - anchor < U32 && MINMATCH <= mlen < U32
    modifies dst
    ensures ok <==> FitsHc(op, oend, ip - anchor, mlen)
    ensures ok ==> op' == op + SequencePrice(ip - anchor, mlen)
    ensures ok ==> dst[op..op'] == EncodeSequence(Sequence(w[anchor..ip], offset, mlen))
    ensures OnlyWithin(dst, op, oend)
  {
    hide EncodeSequence, LengthTail;
    ok, op' := PutLiterals(dst, op, oend, w, anchor, ip);
    if !ok { return; }
    ghost var run := dst[op..op'];
    assert dst[op] == run[0] && dst[op + 1..op'] == run[1..];
    var mid := op';
    ok, op' := PutMatchHc(dst, op, mid, oend, offset, mlen - MINMATCH);
    if ok {
      assert dst[op + 1..mid] == run[1..];
      SequenceStored(dst, op, mid, op', run, Sequence(w[anchor..ip], offset, mlen));
    }
  }

  lemma PriceBudget(op: nat, consumed: nat, literals: nat, mlen: nat, n: nat)
    requires Budget(op, consumed) && mlen >= MINMATCH && consumed + literals + mlen <= n - LASTLITERALS
    ensures Budget(op + SequencePrice(literals, mlen), consumed + literals + mlen)
    ensures FitsHc(op, n + n / 255 + 16, literals, mlen)
  {
    hide Budget;
    BudgetStep(op, consumed, literals, mlen);
    BudgetSuffices(op, consumed, literals, mlen, n);
  }

  // ---------------------------------------------------------------- steps and matches

  /** A step of a parse at position `at`: one literal, or a match of the window that the end-of-block rules allow. */
  ghost predicate Step(w: seq<byte>, at: nat, mlen: nat, off: nat) {
    mlen == 1 ||
    (&& MINMATCH <= mlen && 0 < off <= DISTANCE_MAX && off <= at
     && at + MFLIMIT <= |w| && at + mlen + LASTLITERALS <= |w| && Repeats(w, at, at + mlen, off))
  }

  /** Where and how long to search, to the length and offset found: what LZ4HC_InsertAndGetWiderMatch answers. */
  type Finder = (nat, nat) -> (nat, nat)

  /** Every answer longer than asked for is a match of the window. */
  ghost predicate Finds(w: seq<byte>, finder: Finder) {
    forall at: nat, minLen: nat :: at + MFLIMIT <= |w| && finder(at, minLen).0 > minLen ==>
      Step(w, at, finder(at, minLen).0, finder(at, minLen).1) && finder(at, minLen).0 >= MINMATCH
  }

  /** How much of a match of length `len` is taken. */
  function Taken(len: nat, minLen: nat, favorDecSpeed: bool): nat {
    if len <= minLen then 0 else if favorDecSpeed && 18 < len <= 36 then 18 else len
  }

  /** LZ4HC_FindLongerMatch: nothing, or a match longer than `minLen` unless shortened for the decoder's sake. */
  method FindLongerMatch(w: seq<byte>, finder: Finder, at: nat, minLen: nat, favorDecSpeed: bool)
      returns (len: nat, off: nat)
    requires Finds(w, finder) && at + MFLIMIT <= |w|
    ensures len == 0 || (MINMATCH <= len && Step(w, at, len, off))
    ensures len == Taken(finder(at, minLen).0, minLen, favorDecSpeed) && (len > 0 ==> off == finder(at, minLen).1)
  {
    hide Step;
    len, off := finder(at, minLen).0, finder(at, minLen).1;
    if len <= minLen { return 0, 0; }
    assert Step(w, at, len, off) && len >= MINMATCH;
    if favorDecSpeed && len > 18 && len <= 36 {
      StepShorter(w, at, len, off, 18);
      len := 18;
    }
  }

  /** Part of a match is a match. */
  lemma StepShorter(w: seq<byte>, at: nat, mlen: nat, off: nat, shorter: nat)
    requires Step(w, at, mlen, off) && MINMATCH <= shorter <= mlen
    ensures Step(w, at, shorter, off)
  {
    RepeatsPart(w, at, at + mlen, at + shorter, off);
  }

  // ---------------------------------------------------------------- the table

  datatype Optimal = Optimal(price: int, off: nat, mlen: nat, litlen: nat)

  /**
  An entry for position `p`: the last step of a parse that gets there from inside the round; position 0 is a literal.
  */
  ghost predicate EntryOk(w: seq<byte>, ip: nat, p: nat, e: Optimal) {
    if p == 0 then e.mlen == 1
    else 1 <= e.mlen <= p && Step(w, ip + p - e.mlen, e.mlen, e.off)
  }

  /** Entries 0 to `top` have been set in this round. */
  ghost predicate Set(opt: array<Optimal>, w: seq<byte>, ip: nat, top: int)
    reads opt
  {
    && opt.Length == OPT_NUM + TRAILING_LITERALS && top < opt.Length
    && forall p :: 0 <= p <= top ==> EntryOk(w, ip, p, opt[p])
  }

  /** An entry set in this round; no other may be read. */
  function Peek(opt: array<Optimal>, p: nat, ghost top: int): Optimal
    requires p <= top < opt.Length
    reads opt
  {
    opt[p]
  }

  method SetLiteral(opt: array<Optimal>, p: nat, litlen: nat, price: int, ghost w: seq<byte>, ghost ip: nat,
      ghost top: int)
    requires Set(opt, w, ip, top) && p <= top + 1 && p < opt.Length
    modifies opt
    ensures Set(opt, w, ip, Max(top, p)) && opt[p] == Optimal(price, 0, 1, litlen)
    ensures forall q :: 0 <= q < opt.Length && q != p ==> opt[q] == old(opt[q])
  {
    opt[p] := Optimal(price, 0, 1, litlen);
  }

  method SetMatch(opt: array<Optimal>, p: nat, mlen: nat, off: nat, litlen: nat, price: int, ghost w: seq<byte>,
      ghost ip: nat, ghost top: int)
    requires Set(opt, w, ip, top) && 0 < p <= top + 1 && p < opt.Length && MINMATCH <= mlen <= p
    requires Step(w, ip + p - mlen, mlen, off)
    modifies opt
    ensures Set(opt, w, ip, Max(top, p)) && opt[p] == Optimal(price, off, mlen, litlen)
    ensures forall q :: 0 <= q < opt.Length && q != p ==> opt[q] == old(opt[q])
  {
    opt[p] := Optimal(price, off, mlen, litlen);
  }

  /** Literals behind the last match position. */
  method SetTrailing(opt: array<Optimal>, last: nat, ghost w: seq<byte>, ghost ip: nat, ghost top: int)
    requires last < OPT_NUM && last <= top <= last + TRAILING_LITERALS && Set(opt, w, ip, top)
    modifies opt
    ensures Set(opt, w, ip, last + TRAILING_LITERALS)
    ensures forall k :: 1 <= k <= TRAILING_LITERALS ==>
      opt[last + k] == Optimal(opt[last].price + LiteralsPrice(k), 0, 1, k)
    ensures forall q :: 0 <= q <= last ==> opt[q] == old(opt[q])
  {
    hide Step, EntryOk;
    var addLit := 1;
    while addLit <= TRAILING_LITERALS
      invariant 1 <= addLit <= TRAILING_LITERALS + 1 && Set(opt, w, ip, Max(top, last + addLit - 1))
      invariant forall k :: 1 <= k < addLit ==> opt[last + k] == Optimal(opt[last].price + LiteralsPrice(k), 0, 1, k)
      invariant forall q :: 0 <= q <= last ==> opt[q] == old(opt[q])
    {
      SetLiteral(opt, last + addLit, addLit, Peek(opt, last, top).price + LiteralsPrice(addLit), w, ip,
                 Max(top, last + addLit - 1));
      addLit := addLit + 1;
    }
  }

  /** The first entries: literals, the prefixes of the first match, and trailing literals. */
  method SetFirst(opt: array<Optimal>, llen: nat, len: nat, off: nat, ghost w: seq<byte>, ghost ip: nat)
    requires opt.Length == OPT_NUM + TRAILING_LITERALS && MINMATCH <= len < OPT_NUM && Step(w, ip, len, off)
    modifies opt
    ensures Set(opt, w, ip, len + TRAILING_LITERALS)
    ensures forall p :: 0 <= p < MINMATCH ==> opt[p] == Optimal(LiteralsPrice(llen + p), 0, 1, llen + p)
    ensures forall p :: MINMATCH <= p <= len ==> opt[p] == Optimal(SequencePrice(llen, p), off, p, llen)
  {
    hide Step, EntryOk, SequencePrice, LiteralsPrice;
    var rPos := 0;
    while rPos < MINMATCH
      invariant 0 <= rPos <= MINMATCH && Set(opt, w, ip, rPos - 1)
      invariant forall p :: 0 <= p < rPos ==> opt[p] == Optimal(LiteralsPrice(llen + p), 0, 1, llen + p)
    {
      SetLiteral(opt, rPos, llen + rPos, LiteralsPrice(llen + rPos), w, ip, rPos - 1);
      rPos := rPos + 1;
    }
    var mlen := MINMATCH;
    while mlen <= len
      invariant MINMATCH <= mlen <= len + 1 && Set(opt, w, ip, mlen - 1)
      invariant forall p :: 0 <= p < MINMATCH ==> opt[p] == Optimal(LiteralsPrice(llen + p), 0, 1, llen + p)
      invariant forall p :: MINMATCH <= p < mlen ==> opt[p] == Optimal(SequencePrice(llen, p), off, p, llen)
    {
      StepShorter(w, ip, len, off, mlen);
      SetMatch(opt, mlen, mlen, off, llen, SequencePrice(llen, mlen), w, ip, mlen - 1);
      mlen := mlen + 1;
    }
    SetTrailing(opt, len, w, ip, len);
  }

  /** Price of `n` more literals behind an entry. */
  function LiteralCost(e: Optimal, n: nat): int { e.price - LiteralsPrice(e.litlen) + LiteralsPrice(e.litlen + n) }

  /** Cheaper literals right behind `cur`. */
  method LowerLiterals(opt: array<Optimal>, cur: nat, ghost w: seq<byte>, ghost ip: nat, ghost top: nat)
    requires Set(opt, w, ip, top) && cur + MINMATCH <= top
    modifies opt
    ensures Set(opt, w, ip, top) && NoDearer(old(opt[..]), opt[..], top)
    ensures forall p :: 0 <= p <= cur ==> opt[p] == old(opt[p])
    ensures forall p :: cur < p < cur + MINMATCH ==> opt[p].price <= LiteralCost(old(opt[cur]), p - cur)
  {
    hide Step, EntryOk;
    var base := Peek(opt, cur, top);
    var litlen := 1;
    while litlen < MINMATCH
      invariant 1 <= litlen <= MINMATCH && Set(opt, w, ip, top)
      invariant forall p :: 0 <= p <= cur || cur + litlen <= p < opt.Length ==> opt[p] == old(opt[p])
      invariant forall p :: cur < p < cur + litlen ==> opt[p].price <= old(opt[p]).price
      invariant forall p :: cur < p < cur + litlen ==> opt[p].price <= LiteralCost(base, p - cur)
    {
      var price := base.price - LiteralsPrice(base.litlen) + LiteralsPrice(base.litlen + litlen);
      if price < Peek(opt, cur + litlen, top).price {
        SetLiteral(opt, cur + litlen, base.litlen + litlen, price, w, ip, top);
      }
      litlen := litlen + 1;
    }
  }

  /** Entries 0 to `top` cost no more than before. */
  ghost predicate NoDearer(before: seq<Optimal>, after: seq<Optimal>, top: int) {
    top < |before| == |after| && forall p :: 0 <= p <= top ==> after[p].price <= before[p].price
  }

  /** Price of a match of length `ml` at `cur`, behind the literals that lead there. */
  ghost function Cost(opt: seq<Optimal>, cur: nat, ml: nat): int
    requires cur < |opt| && ml >= MINMATCH
  {
    var e := opt[cur];
    if e.mlen != 1 then e.price + SequencePrice(0, ml)
    else (if cur > e.litlen then opt[cur - e.litlen].price else 0) + SequencePrice(e.litlen, ml)
  }

  lemma CostSame(a: seq<Optimal>, b: seq<Optimal>, cur: nat, ml: nat)
    requires cur < |a| == |b| && ml >= MINMATCH && forall p :: 0 <= p <= cur ==> a[p] == b[p]
    ensures Cost(a, cur, ml) == Cost(b, cur, ml)
  {
    hide SequencePrice;
  }

  method MatchPrice(opt: array<Optimal>, cur: nat, ml: nat, ghost top: nat) returns (ll: nat, price: int)
    requires cur <= top < opt.Length && ml >= MINMATCH
    ensures ll == if opt[cur].mlen == 1 then opt[cur].litlen else 0
    ensures price == Cost(opt[..], cur, ml)
  {
    hide SequencePrice;
    var here := Peek(opt, cur, top);
    if here.mlen == 1 {
      ll := here.litlen;
      price := (if cur > ll then Peek(opt, cur - ll, top).price else 0) + SequencePrice(ll, ml);
    } else {
      ll := 0;
      price := here.price + SequencePrice(0, ml);
    }
  }

  /** Entries for the prefixes of a match at `cur` where they are new or cheaper; the last match position may move. */
  method SetMatches(opt: array<Optimal>, cur: nat, last: nat, len: nat, off: nat, favorDecSpeed: bool,
      ghost w: seq<byte>, ghost ip: nat)
    returns (last': nat, ghost top: nat)
    requires cur < last < OPT_NUM && Set(opt, w, ip, last + TRAILING_LITERALS)
    requires MINMATCH <= len && cur + len < OPT_NUM && Step(w, ip + cur, len, off)
    modifies opt
    ensures last' == last || last < last' == cur + len
    ensures last' <= top <= last' + TRAILING_LITERALS && Set(opt, w, ip, top)
    ensures NoDearer(old(opt[..]), opt[..], last + TRAILING_LITERALS)
    ensures forall p :: 0 <= p <= cur ==> opt[p] == old(opt[p])
    ensures forall ml :: MINMATCH <= ml <= len ==> opt[cur + ml].price <= Cost(old(opt[..]), cur, ml)
  {
    hide Step, EntryOk, SequencePrice;
    ghost var before := opt[..];
    var ml := MINMATCH;
    last', top := last, last + TRAILING_LITERALS;
    while ml <= len
      invariant MINMATCH <= ml <= len + 1
      invariant top == Max(last + TRAILING_LITERALS, cur + ml - 1) && Set(opt, w, ip, top)
      invariant last' == last || (ml == len + 1 && last < last' == cur + len)
      invariant ml == len + 1 && cur + len > last + TRAILING_LITERALS ==> last' == cur + len
      invariant NoDearer(before, opt[..], last + TRAILING_LITERALS)
      invariant forall p :: 0 <= p <= cur ==> opt[p] == before[p]
      invariant forall m :: MINMATCH <= m < ml ==> opt[cur + m].price <= Cost(before, cur, m)
    {
      var pos := cur + ml;
      var ll, price := MatchPrice(opt, cur, ml, top);
      assert price == Cost(before, cur, ml);
      if pos > last' + TRAILING_LITERALS || price <= Peek(opt, pos, top).price - (if favorDecSpeed then 1 else 0) {
        if ml == len && last' < pos { last' := pos; }
        StepShorter(w, ip + cur, len, off, ml);
        SetMatch(opt, pos, ml, off, ll, price, w, ip, top);
      }
      ml := ml + 1;
      top := Max(top, pos);
    }
  }

  /** A match at `cur` that is neither long enough to stop at nor out of the table. */
  method UseMatch(opt: array<Optimal>, cur: nat, last: nat, len: nat, off: nat, favorDecSpeed: bool, ghost w: seq<byte>,
      ghost ip: nat) returns (last': nat)
    requires cur < last < OPT_NUM && Set(opt, w, ip, last + TRAILING_LITERALS)
    requires MINMATCH <= len && cur + len < OPT_NUM && Step(w, ip + cur, len, off)
    modifies opt
    ensures last <= last' < OPT_NUM && Set(opt, w, ip, last' + TRAILING_LITERALS)
    ensures last' == last || last' == cur + len
    ensures NoDearer(old(opt[..]), opt[..], last)
    ensures forall ml :: MINMATCH <= ml <= len && cur + ml <= last' ==>
      opt[cur + ml].price <= Cost(old(opt[..]), cur, ml)
  {
    hide Step, EntryOk, SequencePrice, LiteralsPrice;
    ghost var before := opt[..];
    LowerLiterals(opt, cur, w, ip, last + TRAILING_LITERALS);
    ghost var top;
    ghost var lowered := opt[..];
    forall ml | MINMATCH <= ml <= len ensures Cost(before, cur, ml) == Cost(lowered, cur, ml) {
      CostSame(before, lowered, cur, ml);
    }
    last', top := SetMatches(opt, cur, last, len, off, favorDecSpeed, w, ip);
    SetTrailing(opt, last', w, ip, top);
  }

  predicate SkippedAt(es: seq<Optimal>, cur: nat, fullUpdate: bool)
    requires cur + MINMATCH < |es|
  {
    es[cur + 1].price <= es[cur].price && (fullUpdate ==> es[cur + MINMATCH].price < es[cur].price + 3)
  }

  /** Whether a search at `cur` can be skipped because the next positions are no dearer. */
  method Skippable(opt: array<Optimal>, cur: nat, fullUpdate: bool, ghost top: nat) returns (skip: bool)
    requires cur + MINMATCH <= top < opt.Length
    ensures skip <==> SkippedAt(opt[..], cur, fullUpdate)
  {
    var here := Peek(opt, cur, top).price;
    skip := Peek(opt, cur + 1, top).price <= here && (!fullUpdate || Peek(opt, cur + MINMATCH, top).price < here + 3);
  }

  /**
  Checks the positions up to the last match position. The result is the last step to encode, from `cur`, and the
  position `last` that encoding must reach: the end of that step, or just behind `cur` when a long match was met.
  */
  method Search(opt: array<Optimal>, w: seq<byte>, ip: nat, first: nat, finder: Finder, sufficient: nat,
      fullUpdate: bool, favorDecSpeed: bool)
    returns (cur: nat, mlen: nat, off: nat, last: nat)
    requires Finds(w, finder) && MINMATCH <= first < OPT_NUM && ip + first + LASTLITERALS <= |w|
    requires Set(opt, w, ip, first + TRAILING_LITERALS)
    modifies opt
    ensures Set(opt, w, ip, cur) && Step(w, ip + cur, mlen, off) && mlen >= 1
    ensures cur < last <= cur + mlen && (last == cur + mlen || last == cur + 1)
    ensures ip + cur + mlen + LASTLITERALS <= |w|
    ensures NoDearer(old(opt[..]), opt[..], first)
    ensures var r := Rules(w, finder, ip, first, sufficient, fullUpdate, favorDecSpeed);
      && (forall c: nat :: r.FirstLook(old(opt[..]), c) ==> r.Looked(old(opt[..]), opt[..], c, cur, mlen, last))
      && ((forall c: nat :: !r.FirstLook(old(opt[..]), c)) ==>
            opt[..] == old(opt[..]) && last == first == cur + mlen && mlen == opt[first].mlen && off == opt[first].off)
  {
    hide Step, EntryOk, Finds, InProgress, NoDearer, Rules.FirstLook, Rules.Looked, SkippedAt, Rules.FoundAt;
    ghost var es, r := opt[..], Rules(w, finder, ip, first, sufficient, fullUpdate, favorDecSpeed);
    ghost var c: Option<nat> := None;
    ProgressBegins(es, r);
    last := first;
    cur := 1;
    while cur < last
      invariant 1 <= cur <= last < OPT_NUM && ip + last + LASTLITERALS <= |w|
      invariant Set(opt, w, ip, last + TRAILING_LITERALS) && first <= last
      invariant InProgress(es, opt[..], r, cur, last, c)
      decreases OPT_NUM - cur
    {
      if ip + cur > |w| - MFLIMIT { break; }
      ghost var fs, before := opt[..], last;
      FoundIs(r, cur, last);
      var skip := Skippable(opt, cur, fullUpdate, last + TRAILING_LITERALS);
      if !skip {
        var len;
        len, off :=
          FindLongerMatch(w, finder, ip + cur, if fullUpdate then MINMATCH - 1 else last - cur, favorDecSpeed);
        if len != 0 {
          StepEnds(w, ip + cur, len, off);
          if len > sufficient || len + cur >= OPT_NUM {
            SetBelow(opt, w, ip, last + TRAILING_LITERALS, cur);
            ProgressStops(es, fs, r, cur, last, c);
            mlen, last := len, cur + 1;
            return;
          }
          last := UseMatch(opt, cur, last, len, off, favorDecSpeed, w, ip);
          c := ProgressMakes(es, fs, opt[..], r, cur, before, last, c);
        } else {
          ProgressIdles(es, fs, r, cur, last, c);
        }
      } else {
        ProgressIdles(es, fs, r, cur, last, c);
      }
      cur := cur + 1;
    }
    ProgressEnds(es, opt[..], r, cur, last, c);
    mlen, off := opt[last].mlen, opt[last].off;
    EntrySteps(w, ip, last, opt[last]);
    cur := last - mlen;
    SetBelow(opt, w, ip, last + TRAILING_LITERALS, cur);
  }

  /** What a round goes by. */
  datatype Rules = Rules(
    w: seq<byte>, finder: Finder, ip: nat, first: nat, sufficient: nat, fullUpdate: bool, favorDecSpeed: bool)
  {
    /** The length of the match that counts at position `q`, 0 for none. */
    function FoundAt(q: nat, last: nat): nat
      requires q < last
    {
      var minLen := if fullUpdate then MINMATCH - 1 else last - q;
      Taken(finder(ip + q, minLen).0, minLen, favorDecSpeed)
    }

    /** Nothing happens at position `q`: the search is skipped, or finds nothing. */
    predicate Idle(es: seq<Optimal>, q: nat)
      requires q < first && q + MINMATCH < |es|
    {
      SkippedAt(es, q, fullUpdate) || FoundAt(q, first) == 0
    }

    /** The first position at which something happens. */
    ghost predicate FirstLook(es: seq<Optimal>, c: nat) {
      && 1 <= c < first && first + MINMATCH <= |es| && ip + c + MFLIMIT <= |w|
      && !Idle(es, c) && forall q: nat :: 1 <= q < c ==> Idle(es, q)
    }

    predicate Stops(c: nat, len: nat) { len > sufficient || len + c >= OPT_NUM }

    /** What comes of that: the round ends there with a long match, or the match enters the table. */
    ghost predicate Looked(es: seq<Optimal>, fs: seq<Optimal>, c: nat, cur: nat, mlen: nat, last: nat)
      requires c < first
    {
      var len := FoundAt(c, first);
      if Stops(c, len) then cur == c && mlen == len && last == c + 1 else Entered(es, fs, c, len, first)
    }
  }

  /** Every part of the match at `c` that ends by `first` has its entry, or there is one no dearer. */
  ghost predicate Entered(es: seq<Optimal>, fs: seq<Optimal>, c: nat, len: nat, first: nat) {
    && c < first < |es| == |fs|
    && forall ml :: MINMATCH <= ml <= len && c + ml <= first ==> fs[c + ml].price <= Cost(es, c, ml)
  }

  /** A round that began with the table `es` has come to position `cur`; `c` is where something first happened. */
  ghost predicate InProgress(es: seq<Optimal>, fs: seq<Optimal>, r: Rules, cur: nat, last: nat, c: Option<nat>) {
    && r.first + MINMATCH <= |es| && r.first <= last && NoDearer(es, fs, r.first)
    && match c
       case None => fs == es && last == r.first && forall q: nat :: 1 <= q < cur && q < r.first ==> r.Idle(es, q)
       case Some(p) =>
         && r.FirstLook(es, p) && !r.Stops(p, r.FoundAt(p, r.first))
         && Entered(es, fs, p, r.FoundAt(p, r.first), r.first)
  }

  lemma ProgressBegins(es: seq<Optimal>, r: Rules)
    requires r.first + MINMATCH <= |es|
    ensures InProgress(es, es, r, 1, r.first, None)
  {
  }

  lemma FoundIs(r: Rules, q: nat, last: nat)
    requires q < last
    ensures var minLen := if r.fullUpdate then MINMATCH - 1 else last - q;
      r.FoundAt(q, last) == Taken(r.finder(r.ip + q, minLen).0, minLen, r.favorDecSpeed)
  {
  }

  lemma ProgressIdles(es: seq<Optimal>, fs: seq<Optimal>, r: Rules, cur: nat, last: nat, c: Option<nat>)
    requires InProgress(es, fs, r, cur, last, c) && cur < last && cur + MINMATCH < |fs|
    requires SkippedAt(fs, cur, r.fullUpdate) || r.FoundAt(cur, last) == 0
    ensures InProgress(es, fs, r, cur + 1, last, c)
  {
    hide NoDearer, Entered, SkippedAt, Rules.FoundAt;
  }

  lemma ProgressStops(es: seq<Optimal>, fs: seq<Optimal>, r: Rules, cur: nat, last: nat, c: Option<nat>)
    requires InProgress(es, fs, r, cur, last, c) && 1 <= cur < last && cur + MINMATCH < |fs|
    requires r.ip + cur + MFLIMIT <= |r.w| && !SkippedAt(fs, cur, r.fullUpdate)
    requires r.FoundAt(cur, last) > 0 && r.Stops(cur, r.FoundAt(cur, last))
    ensures forall p: nat :: r.FirstLook(es, p) ==> r.Looked(es, fs, p, cur, r.FoundAt(cur, last), cur + 1)
    ensures exists p: nat :: r.FirstLook(es, p)
    ensures NoDearer(es, fs, r.first)
  {
    hide NoDearer, Entered, SkippedAt, Rules.FoundAt;
    assert c.None? ==> r.FirstLook(es, cur);
  }

  lemma ProgressMakes(es: seq<Optimal>, fs: seq<Optimal>, gs: seq<Optimal>, r: Rules, cur: nat, last: nat, last': nat,
      c: Option<nat>) returns (c': Option<nat>)
    requires InProgress(es, fs, r, cur, last, c) && 1 <= cur < last <= last' && cur + MINMATCH < |fs|
    requires r.ip + cur + MFLIMIT <= |r.w| && !SkippedAt(fs, cur, r.fullUpdate)
    requires r.FoundAt(cur, last) > 0 && !r.Stops(cur, r.FoundAt(cur, last)) && NoDearer(fs, gs, last)
    requires forall ml :: MINMATCH <= ml <= r.FoundAt(cur, last) && cur + ml <= last' ==>
      cur + ml < |gs| && gs[cur + ml].price <= Cost(fs, cur, ml)
    ensures InProgress(es, gs, r, cur + 1, last', c')
  {
    hide SkippedAt, Rules.FoundAt, Cost;
    if c.None? {
      assert r.FirstLook(es, cur);
      c' := Some(cur);
    } else {
      c' := c;
    }
  }

  lemma ProgressEnds(es: seq<Optimal>, fs: seq<Optimal>, r: Rules, cur: nat, last: nat, c: Option<nat>)
    requires InProgress(es, fs, r, cur, last, c) && (cur >= last || r.ip + cur + MFLIMIT > |r.w|)
    ensures forall p: nat, x: nat, y: nat :: r.FirstLook(es, p) ==> r.Looked(es, fs, p, x, y, last)
    ensures (forall p: nat :: !r.FirstLook(es, p)) ==> fs == es && last == r.first
    ensures NoDearer(es, fs, r.first)
  {
    hide NoDearer, Entered, SkippedAt, Rules.FoundAt;
  }

  lemma StepEnds(w: seq<byte>, at: nat, mlen: nat, off: nat)
    requires Step(w, at, mlen, off) && mlen >= MINMATCH
    ensures at + mlen + LASTLITERALS <= |w|
  {
  }

  lemma EntrySteps(w: seq<byte>, ip: nat, p: nat, e: Optimal)
    requires EntryOk(w, ip, p, e) && p > 0
    ensures 1 <= e.mlen <= p && Step(w, ip + p - e.mlen, e.mlen, e.off)
  {
  }

  lemma SetBelow(opt: array<Optimal>, w: seq<byte>, ip: nat, top: int, p: int)
    requires Set(opt, w, ip, top) && p <= top
    ensures Set(opt, w, ip, p)
  {
    hide EntryOk;
  }

  // ---------------------------------------------------------------- reverse traversal

  /** From `p` the entries lead forward, step by step without gap or overlap, through `cur` to `end`. */
  ghost predicate Chain(es: seq<Optimal>, w: seq<byte>, ip: nat, p: nat, cur: nat, end: nat)
    decreases end - p
  {
    p == end ||
    (&& p <= cur && p < end && p < |es| && es[p].mlen >= 1 && p + es[p].mlen <= end
     && Step(w, ip + p, es[p].mlen, es[p].off)
     && Chain(es, w, ip, p + es[p].mlen, cur, end))
  }

  lemma {:induction false} ChainKept(es: seq<Optimal>, fs: seq<Optimal>, w: seq<byte>, ip: nat, p: nat, cur: nat,
      end: nat)
    requires Chain(es, w, ip, p, cur, end) && |es| == |fs| && forall i :: p <= i < |es| ==> fs[i] == es[i]
    ensures Chain(fs, w, ip, p, cur, end)
    decreases end - p
  {
    hide Step;
    if p != end {
      ChainKept(es, fs, w, ip, p + es[p].mlen, cur, end);
    }
  }

  lemma ChainStart(es: seq<Optimal>, w: seq<byte>, ip: nat, p: nat, cur: nat, end: nat)
    requires p <= cur && p < end && p < |es| && es[p].mlen >= 1 && p + es[p].mlen <= end
    requires Step(w, ip + p, es[p].mlen, es[p].off) && Chain(es, w, ip, p + es[p].mlen, cur, end)
    ensures Chain(es, w, ip, p, cur, end)
  {
    hide Step;
  }

  /** Turns the entries, each of which tells the step before it, into a chain that leads forward from position 0. */
  method Reverse(opt: array<Optimal>, cur: nat, mlen: nat, off: nat, ghost w: seq<byte>, ghost ip: nat)
    requires Set(opt, w, ip, cur) && Step(w, ip + cur, mlen, off) && mlen >= 1
    modifies opt
    ensures opt.Length == OPT_NUM + TRAILING_LITERALS && Chain(opt[..], w, ip, 0, cur, cur + mlen)
  {
    hide Step, EntryOk, Chain;
    var candidate: nat, selectedLength: nat, selectedOff := cur, mlen, off;
    ghost var end := cur + mlen;
    assert Chain(opt[..], w, ip, end, cur, end) by { ChainEnd(opt[..], w, ip, cur, end); }
    while true
      invariant candidate <= cur && selectedLength >= 1 && candidate + selectedLength <= end
      invariant Set(opt, w, ip, candidate) && Step(w, ip + candidate, selectedLength, selectedOff)
      invariant Chain(opt[..], w, ip, candidate + selectedLength, cur, end)
      decreases candidate
    {
      var next := opt[candidate];
      ghost var before := opt[..];
      opt[candidate] := next.(mlen := selectedLength, off := selectedOff);
      ChainKept(before, opt[..], w, ip, candidate + selectedLength, cur, end);
      ChainStart(opt[..], w, ip, candidate, cur, end);
      EntryBack(w, ip, candidate, next);
      if next.mlen > candidate { break; }
      selectedLength, selectedOff := next.mlen, next.off;
      candidate := candidate - next.mlen;
    }
  }

  lemma ChainEnd(es: seq<Optimal>, w: seq<byte>, ip: nat, cur: nat, end: nat)
    ensures Chain(es, w, ip, end, cur, end)
  {
  }

  /** Only position 0 has a step longer than itself. */
  lemma EntryBack(w: seq<byte>, ip: nat, p: nat, e: Optimal)
    requires EntryOk(w, ip, p, e)
    ensures e.mlen > p <==> p == 0
    ensures p > 0 ==> e.mlen >= 1 && Step(w, ip + p - e.mlen, e.mlen, e.off)
  {
  }

  // ---------------------------------------------------------------- encoding the chain

  /** Emits a match of the chain and the literals before it. */
  method EmitHc(dst: array<byte>, op: nat, oend: nat, w: seq<byte>, ghost d: nat, anchor: nat, ip: nat, mlen: nat,
      off: nat, ghost ss: seq<Sequence>)
    returns (ok: bool, op': nat, ghost ss': seq<Sequence>)
    requires Good(dst, op, oend, w, d, anchor, ss) && anchor <= ip && mlen >= MINMATCH && Step(w, ip, mlen, off)
    modifies dst
    ensures ok ==> Good(dst, op', oend, w, d, ip + mlen, ss') && op' == op + SequencePrice(ip - anchor, mlen)
    ensures ok ==> ss' == ss + [Sequence(w[anchor..ip], off, mlen)]
    ensures !ok ==> !(oend >= CompressBound(|w| - d) > 0)
    ensures OnlyWithin(dst, 0, oend)
  {
    hide EncodeSequence, Emitted, Repeats, SequencePrice, FitsHc, Budget;
    EmittedStep(dst[..op], w, d, anchor, ss, ip, ip + mlen, off);
    PriceBudget(op, anchor - d, ip - anchor, mlen, |w| - d);
    ok, op' := EncodeSequenceHc(dst, op, oend, w, anchor, ip, off, mlen);
    ss' := ss + [Sequence(w[anchor..ip], off, mlen)];
    if ok {
      FitsInside(op, oend, ip - anchor, mlen);
      assert dst[..op] == old(dst[..op]);
      assert dst[..op'] == dst[..op] + dst[op..op'];
    } else {
      FitsMore(op, |w| - d, oend, ip - anchor, mlen);
    }
  }

  lemma FitsInside(op: nat, oend: nat, litlen: nat, mlen: nat)
    requires mlen >= MINMATCH && FitsHc(op, oend, litlen, mlen)
    ensures op + SequencePrice(litlen, mlen) <= oend
  {
  }

  lemma FitsMore(op: nat, n: nat, oend: nat, litlen: nat, mlen: nat)
    requires mlen >= MINMATCH && FitsHc(op, n + n / 255 + 16, litlen, mlen) && !FitsHc(op, oend, litlen, mlen)
    ensures !(oend >= CompressBound(n) > 0)
  {
  }

  /** Encodes all recorded steps in order: the chain is followed from position 0 exactly to its end. */
  method EncodeChain(opt: array<Optimal>, dst: array<byte>, op: nat, oend: nat, w: seq<byte>, ghost d: nat, anchor: nat,
      ip: nat, last: nat, ghost cur: nat, ghost end: nat, ghost ss: seq<Sequence>)
    returns (ok: bool, op': nat, anchor': nat, ip': nat, ghost ss': seq<Sequence>)
    requires opt as object != dst && Good(dst, op, oend, w, d, anchor, ss) && anchor <= ip
    requires Chain(opt[..], w, ip, 0, cur, end) && cur < last <= end
    modifies dst
    ensures ok ==> Good(dst, op', oend, w, d, anchor', ss') && ip' == ip + end && anchor' <= ip' && ss <= ss'
    ensures !ok ==> !(oend >= CompressBound(|w| - d) > 0)
    ensures OnlyWithin(dst, 0, oend)
  {
    hide Step, Good, Chain;
    var rPos := 0;
    ok, op', anchor', ip', ss' := true, op, anchor, ip, ss;
    ChainInside(opt[..], w, ip, 0, cur, end);
    while rPos < last
      invariant 0 <= rPos <= end && Chain(opt[..], w, ip, rPos, cur, end) && ip' == ip + rPos
      invariant Good(dst, op', oend, w, d, anchor', ss') && anchor' <= ip' && ss <= ss'
      invariant OnlyWithin(dst, 0, oend)
      decreases end - rPos
    {
      ChainInside(opt[..], w, ip, rPos, cur, end);
      var ml, off := opt[rPos].mlen, opt[rPos].off;
      assert opt[..][rPos] == opt[rPos];
      if ml == 1 {
        ip' := ip' + 1;
        rPos := rPos + 1;
      } else {
        StepIsMatch(w, ip', ml, off);
        rPos := rPos + ml;
        ok, op', ss' := EmitHc(dst, op', oend, w, d, anchor', ip', ml, off, ss');
        if !ok { return; }
        ip' := ip' + ml;
        anchor' := ip';
      }
    }
    ChainInside(opt[..], w, ip, rPos, cur, end);
  }

  /** Where a chain stands: at its end, or at a step that stays inside it. */
  lemma ChainInside(es: seq<Optimal>, w: seq<byte>, ip: nat, p: nat, cur: nat, end: nat)
    requires Chain(es, w, ip, p, cur, end)
    ensures p <= end
    ensures p != end ==>
      && p <= cur && p < |es| && es[p].mlen >= 1 && p + es[p].mlen <= end && Step(w, ip + p, es[p].mlen, es[p].off)
      && Chain(es, w, ip, p + es[p].mlen, cur, end)
  {
    hide Step;
  }

  lemma StepIsMatch(w: seq<byte>, at: nat, mlen: nat, off: nat)
    requires Step(w, at, mlen, off) && mlen != 1
    ensures mlen >= MINMATCH
  {
  }

  // ---------------------------------------------------------------- the parser

  /** One round of the parser from a first match that is not long enough to be taken at once. */
  method Round(opt: array<Optimal>, dst: array<byte>, op: nat, oend: nat, w: seq<byte>, ghost d: nat, anchor: nat,
      ip: nat, len: nat, off: nat, finder: Finder, sufficient: nat, fullUpdate: bool, favorDecSpeed: bool,
      ghost ss: seq<Sequence>)
    returns (ok: bool, op': nat, anchor': nat, ip': nat, ghost ss': seq<Sequence>)
    requires opt as object != dst && opt.Length == OPT_NUM + TRAILING_LITERALS && Good(dst, op, oend, w, d, anchor, ss)
    requires anchor <= ip
    requires Finds(w, finder) && MINMATCH <= len < OPT_NUM && Step(w, ip, len, off)
    modifies dst, opt
    ensures ok ==> Good(dst, op', oend, w, d, anchor', ss') && anchor' <= ip' && ip < ip' <= |w| && ss <= ss'
    ensures !ok ==> !(oend >= CompressBound(|w| - d) > 0)
    ensures OnlyWithin(dst, 0, oend)
  {
    hide Step, Good, Chain, Set, Finds, NoDearer, Rules.FirstLook, Rules.Looked, SequencePrice, LiteralsPrice;
    StepEnds(w, ip, len, off);
    SetFirst(opt, ip - anchor, len, off, w, ip);
    var cur, mlen, bestOff, last := Search(opt, w, ip, len, finder, sufficient, fullUpdate, favorDecSpeed);
    Reverse(opt, cur, mlen, bestOff, w, ip);
    ok, op', anchor', ip', ss' := EncodeChain(opt, dst, op, oend, w, d, anchor, ip, last, cur, cur + mlen, ss);
  }

  predicate FindsAt(finder: Finder, p: nat) { finder(p, MINMATCH - 1).0 >= MINMATCH }

  /** The first position in the source at which the finder finds anything. */
  ghost predicate FirstFind(w: seq<byte>, d: nat, finder: Finder, p: nat) {
    d <= p && p + MFLIMIT <= |w| && FindsAt(finder, p) && forall q: nat :: d <= q < p ==> !FindsAt(finder, q)
  }

  /** What is taken of the match found at `p`, with the bytes before it as literals. */
  function Find(w: seq<byte>, d: nat, finder: Finder, p: nat, favorDecSpeed: bool): Sequence
    requires d <= p <= |w|
  {
    Sequence(w[d..p], finder(p, MINMATCH - 1).1, Taken(finder(p, MINMATCH - 1).0, MINMATCH - 1, favorDecSpeed))
  }

  /** How the parse has begun, once everything up to `ip` has been looked at. */
  ghost predicate Begun(w: seq<byte>, d: nat, finder: Finder, favorDecSpeed: bool, sufficient: nat, anchor: nat,
      ip: nat, ss: seq<Sequence>, first: Option<nat>)
  {
    match first
    case None => ss == [] && anchor == d <= ip && forall q: nat :: d <= q < ip ==> !FindsAt(finder, q)
    case Some(p) =>
      && FirstFind(w, d, finder, p)
      && (Find(w, d, finder, p, favorDecSpeed).matchLength > sufficient ==>
            ss != [] && ss[0] == Find(w, d, finder, p, favorDecSpeed))
  }

  /** Looking at one more position. */
  lemma BegunMore(w: seq<byte>, d: nat, finder: Finder, favorDecSpeed: bool, sufficient: nat, anchor: nat, ip: nat,
      ss: seq<Sequence>, first: Option<nat>) returns (first': Option<nat>)
    requires Begun(w, d, finder, favorDecSpeed, sufficient, anchor, ip, ss, first) && ip + MFLIMIT <= |w|
    ensures !FindsAt(finder, ip) ==> Begun(w, d, finder, favorDecSpeed, sufficient, anchor, ip + 1, ss, first')
    ensures FindsAt(finder, ip) ==> first'.Some? && FirstFind(w, d, finder, first'.value)
    ensures FindsAt(finder, ip) ==>
      var s := Find(w, d, finder, first'.value, favorDecSpeed);
      s.matchLength > sufficient ==> (first' == first && ss != [] && ss[0] == s)
                                     || (ss == [] && anchor == d && first'.value == ip)
  {
    hide Find;
    first' := if first.None? && FindsAt(finder, ip) then Some(ip) else first;
  }

  lemma BegunAt(w: seq<byte>, d: nat, finder: Finder, favorDecSpeed: bool, sufficient: nat)
    ensures Begun(w, d, finder, favorDecSpeed, sufficient, d, d, [], None)
  {
  }

  lemma TakenFinds(w: seq<byte>, d: nat, finder: Finder, p: nat, favorDecSpeed: bool)
    requires d <= p <= |w|
    ensures var len := Taken(finder(p, MINMATCH - 1).0, MINMATCH - 1, favorDecSpeed);
      && (len > 0 <==> FindsAt(finder, p))
      && Find(w, d, finder, p, favorDecSpeed) == Sequence(w[d..p], finder(p, MINMATCH - 1).1, len)
  {
  }

  /** Going on behind a find: the first find stays the first, and if it was long enough it is what came first. */
  lemma BegunWith(w: seq<byte>, d: nat, finder: Finder, favorDecSpeed: bool, sufficient: nat, before: seq<Sequence>,
      first: nat, anchor: nat, ip: nat, ss: seq<Sequence>)
    requires FirstFind(w, d, finder, first) && before <= ss
    requires var s := Find(w, d, finder, first, favorDecSpeed);
      s.matchLength > sufficient ==> (before != [] && before[0] == s) || (before == [] && ss != [] && ss[0] == s)
    ensures Begun(w, d, finder, favorDecSpeed, sufficient, anchor, ip, ss, Some(first))
  {
    hide Find;
  }

  /** At the end: without a find there are only literals, and a first find that is long enough is taken as it is. */
  lemma Begins(w: seq<byte>, d: nat, finder: Finder, favorDecSpeed: bool, sufficient: nat, anchor: nat, ip: nat,
      ss: seq<Sequence>, first: Option<nat>)
    requires Begun(w, d, finder, favorDecSpeed, sufficient, anchor, ip, ss, first) && ip + MFLIMIT > |w|
    ensures (forall p: nat :: !FirstFind(w, d, finder, p)) ==> ss == [] && anchor == d
    ensures forall p: nat :: FirstFind(w, d, finder, p) ==>
      (Find(w, d, finder, p, favorDecSpeed).matchLength > sufficient ==>
         ss != [] && ss[0] == Find(w, d, finder, p, favorDecSpeed))
  {
    hide Find;
  }

  /** LZ4HC_compress_optimal with limited output, on the window w whose first `d` bytes are history. */
  method CompressOptimal(dst: array<byte>, oend: nat, w: seq<byte>, d: nat, finder: Finder, sufficientLen: nat,
      fullUpdate: bool, favorDecSpeed: bool)
    returns (n: nat, ghost ss: seq<Sequence>, ghost rest: nat)
    requires d <= |w| && |w| < U32 && |w| - d <= MAX_INPUT_SIZE && oend <= dst.Length && Finds(w, finder)
    modifies dst
    ensures n > 0 ==> n <= oend && n <= CompressBound(|w| - d) && Encodes(dst[..n], w, d)
    ensures n > 0 ==> Laid(dst[..n], w, rest, ss)
    ensures n > 0 && (forall p: nat :: !FirstFind(w, d, finder, p)) ==> ss == [] && rest == d
    ensures forall p: nat :: FirstFind(w, d, finder, p) ==>
      (n > 0 && Find(w, d, finder, p, favorDecSpeed).matchLength > Min(sufficientLen, OPT_NUM - 1) ==>
         ss != [] && ss[0] == Find(w, d, finder, p, favorDecSpeed))
    ensures oend >= CompressBound(|w| - d) ==> n > 0
    ensures OnlyWithin(dst, 0, oend)
  {
    hide Step, Good, Finds, Encodes, Begun, FirstFind, Laid, Find, Taken;
    var opt := new Optimal[OPT_NUM + TRAILING_LITERALS](_ => Optimal(0, 0, 0, 0));
    var sufficient := Min(sufficientLen, OPT_NUM - 1);
    var op: nat, anchor: nat, ip: nat := 0, d, d;
    ss, rest := [], d;
    ghost var first: Option<nat> := None;
    assert Begun(w, d, finder, favorDecSpeed, sufficient, anchor, ip, ss, first) by {
      BegunAt(w, d, finder, favorDecSpeed, sufficient);
    }
    GoodStart(dst, oend, w, d);
    while ip + MFLIMIT <= |w|
      invariant Good(dst, op, oend, w, d, anchor, ss) && anchor <= ip <= |w| && d <= ip
      invariant Begun(w, d, finder, favorDecSpeed, sufficient, anchor, ip, ss, first)
      invariant OnlyWithin(dst, 0, oend) && fresh(opt) && opt.Length == OPT_NUM + TRAILING_LITERALS
      decreases |w| - ip
    {
      ghost var before := ss;
      ghost var first' := BegunMore(w, d, finder, favorDecSpeed, sufficient, anchor, ip, ss, first);
      var len, off := FindLongerMatch(w, finder, ip, MINMATCH - 1, favorDecSpeed);
      TakenFinds(w, d, finder, ip, favorDecSpeed);
      var ok := true;
      if len == 0 {
        ip := ip + 1;
      } else if len > sufficient {
        StepEnds(w, ip, len, off);
        ok, op, ss := EmitHc(dst, op, oend, w, d, anchor, ip, len, off, ss);
        if !ok { return 0, ss, rest; }
        ip := ip + len;
        anchor := ip;
        BegunWith(w, d, finder, favorDecSpeed, sufficient, before, first'.value, anchor, ip, ss);
      } else {
        ok, op, anchor, ip, ss :=
          Round(opt, dst, op, oend, w, d, anchor, ip, len, off, finder, sufficient, fullUpdate, favorDecSpeed, ss);
        if !ok { return 0, ss, rest; }
        BegunWith(w, d, finder, favorDecSpeed, sufficient, before, first'.value, anchor, ip, ss);
      }
      first := first';
    }
    Begins(w, d, finder, favorDecSpeed, sufficient, anchor, ip, ss, first);
    rest := anchor;
    n := Finish(dst, op, oend, w, d, anchor, ss);
  }
}
