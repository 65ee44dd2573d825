/**
LZ4F_decompress: a resumable decoder of LZ4 frames that takes input in chunks and gives output in buffers of any
capacity. What a context still has to do with the rest of its input is a function of its state, and every stage
keeps it. A checksum state is represented by the bytes it has taken in since its reset (see XxHash32).
*/
module Lz4Frame {
  import opened Bytes
  import opened Lz4Format
  import opened Lz4Copy
  import opened Lz4FrameFormat
  import opened Lz4FrameHistory
  import Lz4Decoder

  const BLOCK_HEADER := 4
  /** Memory set aside for tmpOutBuffer: the largest block and 128 KB of history. */
  const RESERVE := 4096 * KB + 2 * WINDOW

  datatype Stage =
    | GetFrameHeader | StoreFrameHeader | Init
    | GetBlockHeader | StoreBlockHeader | CopyDirect | GetBlockChecksum
    | GetCBlock | StoreCBlock | FlushOut
    | GetSuffix | StoreSuffix
    | GetSFrameSize | StoreSFrameSize | SkipSkippable

  /** How a stage ends: another stage follows, the call stops, the frame is complete, or it is refused. */
  datatype Status = Again | Stop | Finished | Error

  /** If all goes well before, it goes well after, with `e` put out in between. */
  ghost predicate Leads(before: Outcome, e: seq<byte>, status: Status, after: Outcome, rest: seq<byte>) {
    before.Done? ==>
      && !status.Error?
      && (status.Finished? ==> before == Done(e, rest))
      && (!status.Finished? ==> before == Emit(e, after))
  }

  // ---------------------------------------------------------------- headers in a longer input

  lemma LE32Prefix(a: seq<byte>, b: seq<byte>)
    requires |a| >= 4
    ensures LE32(a + b) == LE32(a)
  {
  }

  lemma StartPrefix(a: seq<byte>, b: seq<byte>)
    requires |a| >= MIN_HEADER
    ensures Skippable(a + b) == Skippable(a) && GoodStart(a + b) == GoodStart(a) && HeaderSize(a + b) == HeaderSize(a)
  {
    hide LE32;
    LE32Prefix(a, b);
    assert (a + b)[4] == a[4];
  }

  lemma HeaderPrefix(a: seq<byte>, b: seq<byte>)
    requires |a| >= MIN_HEADER && |a| >= HeaderSize(a)
    ensures HeaderSize(a + b) == HeaderSize(a) && GoodHeader(a + b) == GoodHeader(a)
    ensures GoodHeader(a) ==> HeaderInfo(a + b) == HeaderInfo(a)
  {
    hide LE32, Checksum, BlockSize;
    var c, n := a + b, HeaderSize(a);
    assert c[4] == a[4] && c[5] == a[5] && c[n - 1] == a[n - 1] && c[4..n - 1] == a[4..n - 1];
    if Bit(a[4], 8) {
      assert c[6..] == a[6..] + b && c[10..] == a[10..] + b;
      LE32Prefix(a[6..], b);
      LE32Prefix(a[10..], b);
    }
  }

  lemma FrameSkips(a: seq<byte>, b: seq<byte>)
    requires |a| >= MIN_HEADER && Skippable(a)
    ensures Frame(a + b) == SkipSize(a[4..] + b)
  {
    hide Skippable, SkipSize, GoodStart, HeaderSize, Blocks;
    StartPrefix(a, b);
    assert (a + b)[4..] == a[4..] + b;
  }

  lemma FrameStartsBadly(a: seq<byte>, b: seq<byte>)
    requires |a| >= MIN_HEADER && !Skippable(a) && !GoodStart(a)
    ensures Frame(a + b) == Fail
  {
    hide Skippable, SkipSize, GoodStart, HeaderSize, Blocks;
    StartPrefix(a, b);
  }

  lemma FrameHeaderBad(a: seq<byte>, b: seq<byte>)
    requires |a| >= MIN_HEADER && !Skippable(a) && |a| >= HeaderSize(a) && !GoodHeader(a)
    ensures Frame(a + b) == Fail
  {
    hide Skippable, SkipSize, GoodStart, HeaderSize, GoodHeader, Blocks;
    StartPrefix(a, b);
    HeaderPrefix(a, b);
  }

  lemma InfoBounds(a: seq<byte>)
    requires |a| >= MIN_HEADER && |a| >= HeaderSize(a) && GoodHeader(a)
    ensures a[5] / 16 % 8 >= 4
    ensures HeaderInfo(a).contentSize < U64 && 64 * KB <= HeaderInfo(a).maxBlock <= 4096 * KB
  {
    hide Checksum, BlockSize;
  }

  lemma RestPrefix(a: seq<byte>, b: seq<byte>, n: nat)
    requires n <= |a|
    ensures (a + b)[n..] == a[n..] + b
  {
  }

  lemma FrameBlocks(a: seq<byte>, b: seq<byte>)
    requires |a| >= MIN_HEADER && !Skippable(a) && GoodStart(a) && |a| >= HeaderSize(a) && GoodHeader(a)
    ensures a[5] / 16 % 8 >= 4 && Frame(a + b) == Blocks(HeaderInfo(a), [], a[HeaderSize(a)..] + b)
  {
    hide Skippable, SkipSize, GoodStart, HeaderSize, Blocks, GoodHeader, HeaderInfo, LE32, Checksum, Bit;
    InfoBounds(a);
    StartPrefix(a, b);
    HeaderPrefix(a, b);
    InfoBounds(a + b);
    RestPrefix(a, b, HeaderSize(a));
  }

  lemma EmitNothing(o: Outcome)
    ensures Emit([], o) == o
  {
    if o.Done? { assert [] + o.content == o.content; }
  }

  // ---------------------------------------------------------------- input in pieces

  /** Bytes moved from the chunk to the store are still in front of the rest. */
  lemma Shift(a: seq<byte>, src: seq<byte>, more: seq<byte>, n: nat)
    requires n <= |src|
    ensures a + (src + more) == a + src[..n] + (src[n..] + more)
  {
    assert src == src[..n] + src[n..];
  }

  lemma StoredPrefix(a: seq<byte>, b: seq<byte>)
    ensures |a| >= MIN_HEADER ==>
      Skippable(a + b) == Skippable(a) && GoodStart(a + b) == GoodStart(a) && HeaderSize(a + b) == HeaderSize(a)
  {
    hide Skippable, GoodStart, HeaderSize;
    if |a| >= MIN_HEADER { StartPrefix(a, b); }
  }

  lemma SizesAgree(contentSize: nat, n: nat)
    ensures (if contentSize == 0 then 0 else (contentSize - n) % U64) != 0 <==>
      contentSize != 0 && (contentSize - n) % U64 != 0
  {
  }

  lemma BlocksFrom(info: Info, h: seq<byte>, header: seq<byte>, rest: seq<byte>)
    requires |header| == 4
    ensures Blocks(info, h, header + rest) == Block(info, h, LE32(header), rest)
  {
    hide Block, LE32;
    LE32Prefix(header, rest);
    assert (header + rest)[4..] == rest;
  }

  lemma CheckedFrom(info: Info, h: seq<byte>, block: seq<byte>, crc: seq<byte>, rest: seq<byte>)
    requires |crc| == 4 && info.blockChecksum
    ensures Checked(info, h, block, crc + rest) == if LE32(crc) == Checksum(block) then Blocks(info, h, rest) else Fail
  {
    hide Blocks, LE32, Checksum;
    LE32Prefix(crc, rest);
    assert (crc + rest)[4..] == rest;
  }

  lemma SuffixFrom(info: Info, h: seq<byte>, crc: seq<byte>, rest: seq<byte>)
    requires |crc| == 4 && info.contentChecksum
    ensures Suffix(info, h, crc + rest) ==
      if (info.contentSize != 0 && (info.contentSize - |h|) % U64 != 0) || LE32(crc) != Checksum(h) then Fail
      else Done([], rest)
  {
    hide LE32, Checksum;
    LE32Prefix(crc, rest);
    assert (crc + rest)[4..] == rest;
  }

  lemma SkipFrom(size: seq<byte>, rest: seq<byte>)
    requires |size| == 4
    ensures SkipSize(size + rest) == Skip(LE32(size), rest)
  {
    hide LE32;
    LE32Prefix(size, rest);
    assert (size + rest)[4..] == rest;
  }

  lemma SkipSome(n: nat, a: seq<byte>, rest: seq<byte>)
    requires |a| <= n
    ensures Skip(n, a + rest) == Skip(n - |a|, rest)
  {
    if |a + rest| >= n { assert (a + rest)[n..] == rest[n - |a|..]; }
  }

  /** The next bytes of an uncompressed block. */
  lemma DirectSome(info: Info, h: seq<byte>, done: seq<byte>, n: nat, a: seq<byte>, rest: seq<byte>)
    requires |a| <= n
    ensures Direct(info, h, done, n, a + rest) == Emit(a, Direct(info, h + a, done + a, n - |a|, rest))
  {
    hide Checked;
    if |rest| >= n - |a| {
      var all, k := a + rest, n - |a|;
      assert all[..n] == a + rest[..k] && all[n..] == rest[k..];
      assert h + (a + rest[..k]) == h + a + rest[..k] && done + (a + rest[..k]) == done + a + rest[..k];
      var o := Checked(info, h + a + rest[..k], done + a + rest[..k], rest[k..]);
      if o.Done? { assert a + rest[..k] + o.content == a + (rest[..k] + o.content); }
    }
  }

  lemma DirectDone(info: Info, h: seq<byte>, done: seq<byte>, rest: seq<byte>)
    ensures Direct(info, h, done, 0, rest) == Checked(info, h, done, rest)
  {
    hide Checked;
    assert rest[..0] == [] && rest[0..] == rest && h + [] == h && done + [] == done;
    EmitNothing(Checked(info, h, done, rest));
  }

  /** A compressed block of which all bytes are there. */
  lemma CompressedFrom(info: Info, h: seq<byte>, bytes: seq<byte>, rest: seq<byte>)
    requires |bytes| >= info.CrcSize()
    ensures var data := bytes[..|bytes| - info.CrcSize()];
      Compressed(info, h, |bytes|, bytes + rest)
      == if info.blockChecksum && LE32(bytes[|bytes| - 4..]) != Checksum(data) then Fail
         else Decoded(info, h, data, rest)
  {
    hide LE32, Checksum, Decoded;
    var n, all := |bytes|, bytes + rest;
    assert all[..n - info.CrcSize()] == bytes[..n - info.CrcSize()] && all[n..] == rest;
    if info.blockChecksum {
      assert all[n - 4..] == bytes[n - 4..] + rest;
      LE32Prefix(bytes[n - 4..], rest);
    }
  }

  lemma DecodedTo(info: Info, h: seq<byte>, data: seq<byte>, block: seq<byte>, src: seq<byte>)
    requires var past := if info.linked then h else [];
      Decode(data, 0, past) == Some(past + block)
    ensures var past := if info.linked then h else [];
      Decoded(info, h, data, src).Done? ==>
        && Legal(data, 0, past, |past| + info.maxBlock)
        && Decoded(info, h, data, src) == Emit(block, Blocks(info, h + block, src))
  {
    hide Decode, Legal, Blocks;
    var past := if info.linked then h else [];
    assert (past + block)[|past|..] == block;
  }

  lemma DecodedLegal(info: Info, h: seq<byte>, data: seq<byte>, src: seq<byte>)
    requires Decoded(info, h, data, src).Done?
    ensures var past := if info.linked then h else [];
      Legal(data, 0, past, |past| + info.maxBlock)
  {
    hide Decode, Legal, Blocks;
  }

  lemma UncheckedIsBlocks(info: Info, h: seq<byte>, block: seq<byte>, src: seq<byte>)
    ensures !info.blockChecksum ==> Checked(info, h, block, src) == Blocks(info, h, src)
  {
    hide Blocks;
  }

  lemma OutputAppends(m: seq<byte>, m': seq<byte>, h: seq<byte>, e: seq<byte>, start: nat, at: nat)
    requires OutputIn(m, h, start, at) && OutputIn(m', h + e, start, at + |e|)
    ensures m'[start..at + |e|] == m[start..at] + e
  {
  }

  /** Two stages one after the other. */
  lemma LeadsOn(before: Outcome, out: seq<byte>, now: Outcome, e: seq<byte>, status: Status, after: Outcome,
      rest: seq<byte>)
    requires before.Done? ==> before == Emit(out, now)
    requires Leads(now, e, status, after, rest)
    ensures Leads(before, out + e, status, after, rest)
  {
    if after.Done? { assert out + (e + after.content) == out + e + after.content; }
  }

  lemma LeadsDone(before: Outcome, out: seq<byte>, status: Status, after: Outcome, rest: seq<byte>)
    requires Leads(before, out, status, after, rest) && before.Done? && !status.Finished?
    ensures after.Done?
  {
  }

  lemma LeadsPrefix(before: Outcome, out: seq<byte>, status: Status, after: Outcome, rest: seq<byte>)
    requires Leads(before, out, status, after, rest)
    ensures before.Done? ==> !status.Error? && out <= before.content
  {
  }

  lemma FlushedPart(info: Info, h: seq<byte>, p: seq<byte>, n: nat, rest: seq<byte>)
    requires n <= |p|
    ensures Emit(p, Blocks(info, h + p, rest)) == Emit(p[..n], Emit(p[n..], Blocks(info, h + p[..n] + p[n..], rest)))
    ensures n == |p| ==> Emit(p[n..], Blocks(info, h + p[..n] + p[n..], rest)) == Blocks(info, h + p[..n], rest)
    ensures h + p[..n] + p[n..] == h + p
  {
    hide Blocks;
    assert p == p[..n] + p[n..];
    assert h + p[..n] + p[n..] == h + p;
    var o := Blocks(info, h + p, rest);
    if o.Done? { assert p + o.content == p[..n] + (p[n..] + o.content); }
    if n == |p| {
      assert p[n..] == [] && p[..n] == p;
      EmitNothing(o);
    }
  }

  lemma ModSub(c: int, n: nat, k: nat)
    ensures ((c - n) % U64 - k) % U64 == (c - n - k) % U64
  {
    var q := (c - n) / U64;
    assert c - n == U64 * q + (c - n) % U64;
    ModShift((c - n) % U64 - k, q);
  }

  lemma ModShift(a: int, q: int)
    ensures (a + U64 * q) % U64 == a % U64
  {
    var d := a / U64;
    assert a == U64 * d + a % U64;
    assert a + U64 * q == U64 * (d + q) + a % U64;
  }

  /** The expected size that remains and the bytes taken into the checksum, after content `s`. */
  predicate CountedFor(info: Info, remaining: nat, xxh: seq<byte>, s: seq<byte>) {
    && remaining == (if info.contentSize == 0 then 0 else (info.contentSize - |s|) % U64)
    && (info.contentChecksum ==> xxh == s)
  }

  class Dctx {
    const hist: History
    var stage: Stage
    var info: Info
    var remaining: nat        // frameRemainingSize
    var stored: seq<byte>     // header or tmpIn, up to tmpInSize
    var target: nat           // tmpInTarget
    var xxh: seq<byte>
    var blockXxh: seq<byte>

    constructor (mem: array<byte>, tmp: nat)
      requires tmp + RESERVE <= mem.Length
      ensures Valid() && stage.GetFrameHeader? && fresh(hist) && hist.mem == mem && hist.tmp == tmp
    {
      hist := new History(mem, tmp, RESERVE);
      stage, info, remaining := GetFrameHeader, Info(false, false, false, 0, 0), 0;
      stored, target, xxh, blockXxh := [], 0, [], [];
    }

    ghost function Pending(): seq<byte>
      reads this, hist, hist.mem
    {
      if stage.FlushOut? && hist.Where().Holds(hist.mem.Length) then hist.Pending() else []
    }

    /** What the rest of the input means in this state. */
    ghost function Rest(src: seq<byte>): Outcome
      reads this, hist, hist.mem
    {
      match stage
      case GetFrameHeader => Frame(src)
      case StoreFrameHeader => Frame(stored + src)
      case Init => Blocks(info, hist.h, src)
      case GetBlockHeader => Blocks(info, hist.h, src)
      case StoreBlockHeader => Blocks(info, hist.h, stored + src)
      case CopyDirect => Direct(info, hist.h, blockXxh, target, src)
      case GetBlockChecksum => Checked(info, hist.h, blockXxh, stored + src)
      case GetCBlock => Compressed(info, hist.h, target, src)
      case StoreCBlock => Compressed(info, hist.h, target, stored + src)
      case FlushOut => Emit(Pending(), Blocks(info, hist.h + Pending(), src))
      case GetSuffix => Suffix(info, hist.h, src)
      case StoreSuffix => Suffix(info, hist.h, stored + src)
      case GetSFrameSize => SkipSize(src)
      case StoreSFrameSize => if |stored| >= 4 then SkipSize(stored[4..] + src) else Fail
      case SkipSkippable => Skip(target, src)
    }

    /** Decreases with every stage that takes no input. */
    ghost function Rank(): nat
      reads this
    {
      match stage
      case StoreFrameHeader => if |stored| == target then 11 else 10
      case Init => 9
      case GetCBlock => 8
      case StoreCBlock => 7
      case CopyDirect => 6
      case FlushOut => 6
      case GetBlockHeader => 2
      case GetBlockChecksum => 5
      case _ => 1
    }

    /** Stages in which the frame needs more input. */
    predicate Incomplete()
      reads this
    {
      && !stage.FlushOut? && !stage.GetSuffix?
      && (stage.SkipSkippable? || stage.CopyDirect? ==> target > 0)
      && (stage.StoreFrameHeader? || stage.StoreCBlock? ==> |stored| < target)
    }

    lemma NeedsInput()
      requires Valid() && Incomplete()
      ensures Rest([]) == Fail
    {
      hide ReadyIn, CountedFor, Skippable, GoodStart, HeaderSize, LE32;
      assert stored + [] == stored;
      if stage.StoreSFrameSize? { assert stored[4..] + [] == stored[4..]; }
    }

    // -------------------------------------------------------------- invariant

    predicate BeforeFrame()
      reads this
    {
      || stage.GetFrameHeader? || stage.StoreFrameHeader?
      || stage.GetSFrameSize? || stage.StoreSFrameSize? || stage.SkipSkippable?
    }

    /** Counters and checksums agree with what has been put out and is to be flushed. */
    ghost predicate Counted()
      reads this, hist, hist.mem
    {
      && hist.linked == info.linked && 64 * KB <= info.maxBlock <= 4096 * KB
      && CountedFor(info, remaining, xxh, hist.h + Pending())
    }

    ghost predicate Buffers()
      reads this, hist
    {
      info.maxBlock + (if info.linked then 2 * WINDOW else 0) <= hist.maxBuffer
    }

    /** What each stage relies on. */
    ghost predicate Staged()
      reads this, hist, hist.mem
    {
      match stage
      case GetFrameHeader => remaining == 0
      case StoreFrameHeader =>
        remaining == 0 && |stored| <= target &&
        (target == MIN_HEADER ||
         (|stored| >= MIN_HEADER && !Skippable(stored) && GoodStart(stored) && target == HeaderSize(stored)))
      case Init =>
        && hist.linked == info.linked && 64 * KB <= info.maxBlock <= 4096 * KB
        && remaining == info.contentSize < U64 && hist.h == []
      case GetBlockHeader => Counted() && Buffers() && hist.Between()
      case StoreBlockHeader => Counted() && Buffers() && hist.Between() && |stored| < BLOCK_HEADER
      case CopyDirect => Counted() && Buffers() && hist.Between()
      case GetBlockChecksum => Counted() && Buffers() && hist.Between() && |stored| < 4 && info.blockChecksum
      case GetCBlock =>
        && Counted() && Buffers() && hist.Between()
        && info.CrcSize() < target <= info.maxBlock + info.CrcSize()
      case StoreCBlock =>
        && Counted() && Buffers() && hist.Between()
        && info.CrcSize() < target <= info.maxBlock + info.CrcSize() && |stored| <= target
      case FlushOut => Counted() && Buffers() && hist.InBlock() && hist.Where().Holds(hist.mem.Length)
      case GetSuffix => Counted()
      case StoreSuffix => Counted() && remaining == 0 && info.contentChecksum && |stored| < 4
      case GetSFrameSize => remaining == 0
      case StoreSFrameSize => remaining == 0 && target == 8 && 4 <= |stored| < 8
      case SkipSkippable => remaining == 0
    }

    ghost predicate Valid()
      reads this, hist, hist.mem
    {
      && hist.reserve == RESERVE && hist.Where().Fits(hist.mem.Length)
      && (BeforeFrame() || stage.Init? ==> hist.dictSize == 0 && hist.dict == NULL)
      && Staged()
    }

    /**
    Where a call stands in the caller's buffer: nothing is put out before a frame begins, and the dictionary is spared.
    */
    ghost predicate Writing(start: nat, at: nat, end: nat)
      reads this, hist, hist.mem
    {
      && start <= at <= end && hist.Outside(start, end)
      && (BeforeFrame() ==> at == start)
      && (!BeforeFrame() ==> hist.Output(start, at)) && (InBlocks() ==> hist.Where().Free(at, end))
    }

    // -------------------------------------------------------------- frame header

    /** LZ4F_decodeHeader on bytes that lie in the chunk, or have been stored. */
    method DecodeHeader(bytes: seq<byte>, fromStored: bool, ghost rest: seq<byte>) returns (status: Status, used: nat)
      requires Valid() && BeforeFrame() && |bytes| >= MIN_HEADER
      requires fromStored ==> bytes == stored && |bytes| == target && stage.StoreFrameHeader?
      requires !fromStored ==> |bytes| >= MAX_HEADER
      modifies this, hist`h, hist`linked
      ensures status.Again? || status.Error?
      ensures used <= |bytes| && (status.Again? ==> Valid() && (BeforeFrame() || stage.Init?))
      ensures Leads(Frame(bytes + rest), [], status, Rest(if fromStored then rest else bytes[used..] + rest), rest)
      ensures status.Again? ==> (!fromStored && used > 0) || (fromStored && Rank() < 11)
    {
      hide Frame, Blocks, SkipSize, Skippable, GoodStart, GoodHeader, HeaderInfo, HeaderSize;
      status, used := Again, 0;
      if Skippable(bytes) {
        FrameSkips(bytes, rest);
        if fromStored {
          target := 8;
          stage := StoreSFrameSize;
        } else {
          used := 4;
          stage := GetSFrameSize;
        }
      } else if !GoodStart(bytes) {
        FrameStartsBadly(bytes, rest);
        status := Error;
      } else if |bytes| < HeaderSize(bytes) {
        target := HeaderSize(bytes);
        stage := StoreFrameHeader;
      } else if !GoodHeader(bytes) {
        FrameHeaderBad(bytes, rest);
        status := Error;
      } else {
        FrameBlocks(bytes, rest);
        InfoBounds(bytes);
        used := HeaderSize(bytes);
        assert fromStored ==> bytes[used..] + rest == rest;
        info := HeaderInfo(bytes);
        remaining := info.contentSize;
        hist.h, hist.linked := [], info.linked;
        stage := Init;
      }
      EmitNothing(Rest(if fromStored then rest else bytes[used..] + rest));
    }

    method DoGetFrameHeader(src: seq<byte>, ghost more: seq<byte>) returns (status: Status, used: nat)
      requires Valid() && stage.GetFrameHeader?
      modifies this, hist`h, hist`linked
      ensures used <= |src| && !status.Finished? && (status.Error? || (Valid() && (BeforeFrame() || stage.Init?)))
      ensures Leads(old(Rest(src + more)), [], status, Rest(src[used..] + more), src[used..] + more)
      ensures status.Again? ==> used > 0 || Rank() < old(Rank())
      ensures status.Stop? ==> used == |src| && Incomplete()
    {
      hide Frame;
      if |src| >= MAX_HEADER {
        status, used := DecodeHeader(src, false, more);
        return;
      }
      stored := [];
      assert [] + (src + more) == src + more;
      if |src| == 0 {
        EmitNothing(Rest(src[0..] + more));
        assert src[0..] == src;
        return Stop, 0;
      }
      target := MIN_HEADER;
      stage := StoreFrameHeader;
      status, used := DoStoreFrameHeader(src, more);
    }

    method DoStoreFrameHeader(src: seq<byte>, ghost more: seq<byte>) returns (status: Status, used: nat)
      requires Valid() && stage.StoreFrameHeader?
      modifies this, hist`h, hist`linked
      ensures used <= |src| && !status.Finished? && (status.Error? || (Valid() && (BeforeFrame() || stage.Init?)))
      ensures Leads(old(Rest(src + more)), [], status, Rest(src[used..] + more), src[used..] + more)
      ensures status.Again? ==> used > 0 || Rank() < old(Rank())
      ensures used == Min(old(target - |stored|), |src|)
      ensures status.Stop? ==> used == |src| && Incomplete()
    {
      hide Frame, Skippable, GoodStart, HeaderSize;
      used := Min(target - |stored|, |src|);
      StoredPrefix(stored, src[..used]);
      Shift(stored, src, more, used);
      stored := stored + src[..used];
      if |stored| < target {
        status := Stop;
        EmitNothing(Rest(src[used..] + more));
      } else {
        var n;
        status, n := DecodeHeader(stored, true, src[used..] + more);
      }
    }

    method DoInit(ghost src: seq<byte>) returns (status: Status)
      requires Valid() && stage.Init?
      modifies this, hist`maxBuffer, hist`tmpOut, hist`tmpOutSize, hist`tmpOutStart
      ensures status.Again? && Valid() && stage.GetBlockHeader?
      ensures Leads(old(Rest(src)), [], status, Rest(src), src)
      ensures status.Again? ==> Rank() < old(Rank())
    {
      hide Blocks, ReadyIn;
      xxh := [];
      var needed := info.maxBlock + (if info.linked then 2 * WINDOW else 0);
      if needed > hist.maxBuffer {
        hist.maxBuffer := needed;
      }
      stored, target := [], 0;
      hist.tmpOut, hist.tmpOutStart, hist.tmpOutSize := hist.tmp, 0, 0;
      stage := GetBlockHeader;
      ReadyNone(hist.mem[..], hist.Where());
      assert hist.h + Pending() == [];
      status := Again;
      EmitNothing(Rest(src));
    }

    // -------------------------------------------------------------- block headers

    method DoGetBlockHeader(src: seq<byte>, full: bool, ghost more: seq<byte>) returns (status: Status, used: nat)
      requires Valid() && stage.GetBlockHeader?
      modifies this
      ensures used <= |src| && !status.Finished? && (status.Error? || (Valid() && !BeforeFrame() && !stage.Init?))
      ensures Leads(old(Rest(src + more)), [], status, Rest(src[used..] + more), src[used..] + more)
      ensures status.Again? ==> used > 0 || Rank() < old(Rank())
      ensures status.Stop? ==> (used == |src| || full) && Incomplete()
    {
      hide Blocks, Block, ReadyIn, LE32;
      if |src| >= BLOCK_HEADER {
        used := BLOCK_HEADER;
        Shift([], src, more, used);
        assert [] + (src + more) == src + more && [] + src[..used] == src[..used];
        BlocksFrom(info, hist.h, src[..used], src[used..] + more);
        status := BlockHeader(LE32(src[..used]), full || |src| == used, src[used..] + more);
      } else {
        stored := [];
        stage := StoreBlockHeader;
        assert [] + (src + more) == src + more;
        status, used := DoStoreBlockHeader(src, full, more);
      }
    }

    method DoStoreBlockHeader(src: seq<byte>, full: bool, ghost more: seq<byte>) returns (status: Status, used: nat)
      requires Valid() && stage.StoreBlockHeader?
      modifies this
      ensures used <= |src| && !status.Finished? && (status.Error? || (Valid() && !BeforeFrame() && !stage.Init?))
      ensures Leads(old(Rest(src + more)), [], status, Rest(src[used..] + more), src[used..] + more)
      ensures status.Again? ==> used > 0 || Rank() < old(Rank())
      ensures status.Stop? ==> (used == |src| || full) && Incomplete()
    {
      hide Blocks, Block, ReadyIn, LE32;
      used := Min(BLOCK_HEADER - |stored|, |src|);
      Shift(stored, src, more, used);
      stored := stored + src[..used];
      if |stored| < BLOCK_HEADER {
        status := Stop;
        EmitNothing(Rest(src[used..] + more));
      } else {
        BlocksFrom(info, hist.h, stored, src[used..] + more);
        status := BlockHeader(LE32(stored), full || |src| == used, src[used..] + more);
      }
    }

    /** Decodes a block header; `pause`: the output buffer is full or the chunk is used up. */
    method BlockHeader(header: nat, pause: bool, ghost rest: seq<byte>) returns (status: Status)
      requires hist.reserve == RESERVE && hist.Where().Fits(hist.mem.Length) && !stage.FlushOut?
      requires Counted() && Buffers() && hist.Between()
      modifies this
      ensures !status.Finished? && (status.Error? || (Valid() && !BeforeFrame() && !stage.Init?))
      ensures Leads(Block(old(info), hist.h, header, rest), [], status, Rest(rest), rest)
      ensures status.Stop? ==> pause && stage.GetCBlock?
    {
      hide ReadyIn, Direct, Compressed, Suffix, CountedFor;
      status := Again;
      var size := header % UNCOMPRESSED;
      if header == 0 {
        stage := GetSuffix;
      } else if size > info.maxBlock {
        status := Error;
      } else if header >= UNCOMPRESSED {
        target := size;
        blockXxh := [];
        stage := CopyDirect;
      } else {
        target := size + info.CrcSize();
        stage := GetCBlock;
        if pause { status := Stop; }
      }
      EmitNothing(Rest(rest));
    }

    // -------------------------------------------------------------- checksums, suffix and skippable frames

    method DoGetBlockChecksum(src: seq<byte>, ghost more: seq<byte>) returns (status: Status, used: nat)
      requires Valid() && stage.GetBlockChecksum?
      modifies this
      ensures used <= |src| && !status.Finished? && (status.Error? || (Valid() && !BeforeFrame() && !stage.Init?))
      ensures Leads(old(Rest(src + more)), [], status, Rest(src[used..] + more), src[used..] + more)
      ensures status.Again? ==> used > 0 || Rank() < old(Rank())
      ensures status.Stop? ==> used == |src| && Incomplete()
    {
      hide Blocks, Checked, ReadyIn, LE32, Checksum;
      used := Min(4 - |stored|, |src|); // taken from the chunk at once, or collected
      Shift(stored, src, more, used);
      stored := stored + src[..used];
      if |stored| < 4 {
        status := Stop;
      } else {
        CheckedFrom(info, hist.h, blockXxh, stored, src[used..] + more);
        status := if LE32(stored) == Checksum(blockXxh) then Again else Error;
        stage := GetBlockHeader;
      }
      EmitNothing(Rest(src[used..] + more));
    }

    method DoGetSuffix(src: seq<byte>, ghost more: seq<byte>) returns (status: Status, used: nat)
      requires Valid() && stage.GetSuffix?
      modifies this, hist`dict, hist`dictSize
      ensures used <= |src| && !status.Again? && (status.Error? || Valid())
      ensures status.Finished? <==> stage.GetFrameHeader?
      ensures Leads(old(Rest(src + more)), [], status, Rest(src[used..] + more), src[used..] + more)
      ensures !status.Finished? ==>
        hist.dict == old(hist.dict) && hist.dictSize == old(hist.dictSize) && (stage.GetSuffix? || stage.StoreSuffix?)
      ensures status.Stop? ==> used == |src| && Incomplete()
    {
      hide LE32, Checksum;
      used := 0;
      assert src[0..] == src;
      SizesAgree(info.contentSize, |hist.h|);
      assert hist.h + Pending() == hist.h;
      if remaining != 0 { return Error, 0; }
      if !info.contentChecksum {
        Reset();
        return Finished, 0;
      }
      stored := [];
      stage := StoreSuffix;
      assert [] + (src + more) == src + more;
      status, used := DoStoreSuffix(src, more);
    }

    method Reset()
      requires hist.reserve == RESERVE && hist.Where().Fits(hist.mem.Length) && remaining == 0
      modifies this`stage, hist`dict, hist`dictSize
      ensures Valid() && stage.GetFrameHeader?
    {
      stage := GetFrameHeader;
      hist.dict, hist.dictSize := NULL, 0;
    }

    method DoStoreSuffix(src: seq<byte>, ghost more: seq<byte>) returns (status: Status, used: nat)
      requires Valid() && stage.StoreSuffix?
      modifies this, hist`dict, hist`dictSize
      ensures used <= |src| && !status.Again? && (status.Error? || Valid())
      ensures status.Finished? <==> stage.GetFrameHeader?
      ensures Leads(old(Rest(src + more)), [], status, Rest(src[used..] + more), src[used..] + more)
      ensures !status.Finished? ==>
        hist.dict == old(hist.dict) && hist.dictSize == old(hist.dictSize) && (stage.GetSuffix? || stage.StoreSuffix?)
      ensures status.Stop? ==> used == |src| && Incomplete()
    {
      hide LE32, Checksum, Suffix;
      used := Min(4 - |stored|, |src|);
      Shift(stored, src, more, used);
      stored := stored + src[..used];
      if |stored| < 4 {
        status := Stop;
        EmitNothing(Rest(src[used..] + more));
        return;
      }
      assert hist.h + Pending() == hist.h;
      SuffixFrom(info, hist.h, stored, src[used..] + more);
      if LE32(stored) != Checksum(xxh) { return Error, used; }
      Reset();
      status := Finished;
    }

    method DoGetSFrameSize(src: seq<byte>, ghost more: seq<byte>) returns (status: Status, used: nat)
      requires Valid() && stage.GetSFrameSize?
      modifies this
      ensures used <= |src| && !status.Finished? && !status.Error? && Valid() && BeforeFrame()
      ensures Leads(old(Rest(src + more)), [], status, Rest(src[used..] + more), src[used..] + more)
      ensures status.Again? ==> used > 0 || Rank() < old(Rank())
      ensures status.Stop? ==> used == |src| && Incomplete()
    {
      hide LE32, Skip, SkipSize;
      if |src| >= 4 {
        used := 4;
        Shift([], src, more, used);
        assert [] + (src + more) == src + more && [] + src[..used] == src[..used];
        SkipFrom(src[..used], src[used..] + more);
        target := LE32(src[..used]);
        stage := SkipSkippable;
        status := Again;
        EmitNothing(Rest(src[used..] + more));
      } else {
        stored := Zeros(4); // the magic number is not needed any more
        target := 8;
        stage := StoreSFrameSize;
        assert stored[4..] + (src + more) == src + more;
        status, used := DoStoreSFrameSize(src, more);
      }
    }

    method DoStoreSFrameSize(src: seq<byte>, ghost more: seq<byte>) returns (status: Status, used: nat)
      requires Valid() && stage.StoreSFrameSize?
      modifies this
      ensures used <= |src| && !status.Finished? && !status.Error? && Valid() && BeforeFrame()
      ensures Leads(old(Rest(src + more)), [], status, Rest(src[used..] + more), src[used..] + more)
      ensures status.Again? ==> used > 0 || Rank() < old(Rank())
      ensures status.Stop? ==> used == |src| && Incomplete()
    {
      hide LE32, Skip, SkipSize;
      used := Min(target - |stored|, |src|);
      Shift(stored[4..], src, more, used);
      assert (stored + src[..used])[4..] == stored[4..] + src[..used];
      stored := stored + src[..used];
      if |stored| < target {
        status := Stop;
      } else {
        SkipFrom(stored[4..], src[used..] + more);
        target := LE32(stored[4..]);
        stage := SkipSkippable;
        status := Again;
      }
      EmitNothing(Rest(src[used..] + more));
    }

    method DoSkipSkippable(src: seq<byte>, ghost more: seq<byte>) returns (status: Status, used: nat)
      requires Valid() && stage.SkipSkippable?
      modifies this, hist`dict, hist`dictSize
      ensures used <= |src| && !status.Again? && !status.Error? && Valid() && BeforeFrame()
      ensures status.Finished? ==> stage.GetFrameHeader?
      ensures Leads(old(Rest(src + more)), [], status, Rest(src[used..] + more), src[used..] + more)
      ensures status.Stop? ==> used == |src| && Incomplete()
    {
      used := Min(target, |src|);
      Shift([], src, more, used);
      assert [] + (src + more) == src + more && [] + src[..used] == src[..used];
      SkipSome(target, src[..used], src[used..] + more);
      target := target - used;
      status := Stop;
      EmitNothing(Rest(src[used..] + more));
      if target == 0 {
        assert (src[used..] + more)[0..] == src[used..] + more;
        Reset();
        status := Finished;
      }
    }

    // -------------------------------------------------------------- blocks

    /** Content that has been put out or decoded is taken into the checksum and off the expected size. */
    method Account(bytes: seq<byte>, ghost s: seq<byte>)
      requires CountedFor(info, remaining, xxh, s)
      modifies this`xxh, this`remaining
      ensures CountedFor(info, remaining, xxh, s + bytes)
    {
      ModSub(info.contentSize, |s|, |bytes|);
      if info.contentChecksum { xxh := xxh + bytes; }
      if info.contentSize != 0 { remaining := (remaining - |bytes|) % U64; }
    }

    /** An uncompressed block, as far as input and output allow. */
    method DoCopyDirect(src: seq<byte>, start: nat, at: nat, end: nat, hasDst: bool, ghost more: seq<byte>)
        returns (status: Status, used: nat)
      requires Valid() && stage.CopyDirect? && Writing(start, at, end) && (!hasDst ==> at == end)
      modifies this, hist, hist.mem
      ensures used <= |src| && !status.Finished? && !status.Error? && Valid() && !BeforeFrame() && !stage.Init?
      ensures at + used <= end && Writing(start, at + used, end) && hist.h == old(hist.h) + src[..used]
      ensures Leads(old(Rest(src + more)), src[..used], status, Rest(src[used..] + more), src[used..] + more)
      ensures status.Again? ==> used > 0 || Rank() < old(Rank())
      ensures status.Stop? ==> Incomplete() && (used == |src| || at + used == end)
    {
      hide ReadyIn, OutputIn, Direct, Checked, Blocks, CountedFor, Valid, Writing;
      ghost var h0, done, n := hist.h, blockXxh, target;
      used := TakeDirect(src, start, at, end, hasDst);
      Shift([], src, more, used);
      assert [] + (src + more) == src + more && [] + src[..used] == src[..used];
      DirectSome(info, h0, done, n, src[..used], src[used..] + more);
      Lower(used, start, at + used, end);
      status := Stop;
      if target == 0 {
        EndDirect(src[used..] + more, start, at + used, end);
        status := Again;
      }
      DirectIsInFrame();
    }

    lemma DirectIsInFrame()
      requires stage.CopyDirect? || stage.GetBlockChecksum? || stage.GetBlockHeader?
      ensures !BeforeFrame() && !stage.Init?
    {
    }

    method Lower(n: nat, ghost start: nat, ghost at: nat, ghost end: nat)
      requires Valid() && stage.CopyDirect? && Writing(start, at, end) && n <= target
      modifies this`target
      ensures Valid() && Writing(start, at, end) && target == old(target) - n
    {
      hide ReadyIn, OutputIn, CountedFor;
      target := target - n;
    }

    /** The copying and its bookkeeping. */
    method TakeDirect(src: seq<byte>, start: nat, at: nat, end: nat, hasDst: bool) returns (used: nat)
      requires Valid() && stage.CopyDirect? && Writing(start, at, end) && (!hasDst ==> at == end)
      modifies this`xxh, this`remaining, this`blockXxh, hist, hist.mem
      ensures used <= |src| && used <= target && at + used <= end && Valid() && Writing(start, at + used, end)
      ensures hist.h == old(hist.h) + src[..used] && blockXxh == old(blockXxh) + src[..used]
      ensures used == target || used == |src| || at + used == end
    {
      hide Staged;
      used := if hasDst then Min(target, Min(|src|, end - at)) else 0;
      if hasDst {
        CopyBytes(src[..used], start, at, end);
      } else {
        assert hist.h + src[..used] == hist.h && blockXxh + src[..used] == blockXxh;
      }
    }
    /** Behind an uncompressed block: its checksum, or the next block. */
    method EndDirect(ghost rest: seq<byte>, ghost start: nat, ghost at: nat, ghost end: nat)
      requires Valid() && stage.CopyDirect? && target == 0 && Writing(start, at, end)
      modifies this`stage, this`stored
      ensures Valid() && (stage.GetBlockChecksum? || stage.GetBlockHeader?) && Rest(rest) == old(Rest(rest))
      ensures Writing(start, at, end)
    {
      hide ReadyIn, OutputIn, Direct, Checked, Blocks, CountedFor;
      DirectDone(info, hist.h, blockXxh, rest);
      UncheckedIsBlocks(info, hist.h, blockXxh, rest);
      stored := [];
      assert [] + rest == rest;
      stage := if info.blockChecksum then GetBlockChecksum else GetBlockHeader;
    }

    method CopyBytes(bytes: seq<byte>, start: nat, at: nat, end: nat)
      requires Valid() && stage.CopyDirect? && Writing(start, at, end) && at + |bytes| <= end
      modifies this`xxh, this`remaining, this`blockXxh, hist, hist.mem
      ensures Valid() && Writing(start, at + |bytes|, end) && hist.h == old(hist.h) + bytes
      ensures blockXxh == old(blockXxh) + bytes
    {
      hide ReadyIn, OutputIn, CountedFor;
      assert hist.h + Pending() == hist.h;
      Account(bytes, hist.h);
      hist.CopyRaw(bytes, at, start);
      blockXxh := blockXxh + bytes;
      assert hist.h + Pending() == hist.h;
    }

    method DoGetCBlock(src: seq<byte>, start: nat, at: nat, end: nat, ghost more: seq<byte>)
        returns (status: Status, used: nat, at': nat, ghost e: seq<byte>)
      requires Valid() && stage.GetCBlock? && Writing(start, at, end)
      modifies this, hist, hist.mem
      ensures used <= |src| && !status.Finished? && (status.Error? || (Valid() && !BeforeFrame() && !stage.Init?))
      ensures !status.Error? ==> at' == at + |e| <= end && Writing(start, at', end) && hist.h == old(hist.h) + e
      ensures Leads(old(Rest(src + more)), e, status, Rest(src[used..] + more), src[used..] + more)
      ensures status.Again? ==> used > 0 || Rank() < old(Rank())
      ensures !status.Stop?
    {
      hide ReadyIn, OutputIn, Compressed, CountedFor;
      e := [];
      if |src| < target {
        stored := [];
        stage := StoreCBlock;
        status, used, at' := Again, 0, at;
        assert [] + (src + more) == src + more && src[0..] == src && hist.h + e == hist.h;
        EmitNothing(Rest(src[used..] + more));
        return;
      }
      used := target;
      Shift([], src, more, used);
      assert [] + (src + more) == src + more && [] + src[..used] == src[..used];
      status, at', e := DecodeCBlock(src[..used], start, at, end, src[used..] + more);
    }

    method DoStoreCBlock(src: seq<byte>, start: nat, at: nat, end: nat, ghost more: seq<byte>)
        returns (status: Status, used: nat, at': nat, ghost e: seq<byte>)
      requires Valid() && stage.StoreCBlock? && Writing(start, at, end)
      modifies this, hist, hist.mem
      ensures used <= |src| && !status.Finished? && (status.Error? || (Valid() && !BeforeFrame() && !stage.Init?))
      ensures !status.Error? ==> at' == at + |e| <= end && Writing(start, at', end) && hist.h == old(hist.h) + e
      ensures Leads(old(Rest(src + more)), e, status, Rest(src[used..] + more), src[used..] + more)
      ensures status.Again? ==> used > 0 || Rank() < old(Rank())
      ensures status.Stop? ==> used == |src| && Incomplete()
    {
      hide ReadyIn, OutputIn, Compressed, CountedFor;
      used := Min(target - |stored|, |src|);
      Shift(stored, src, more, used);
      stored := stored + src[..used];
      if |stored| < target {
        status, at', e := Stop, at, [];
        assert hist.h + e == hist.h;
        EmitNothing(Rest(src[used..] + more));
        return;
      }
      status, at', e := DecodeCBlock(stored, start, at, end, src[used..] + more);
    }

    /** A whole compressed block: to the caller's buffer if any block fits there, else to tmpOut. */
    method DecodeCBlock(bytes: seq<byte>, start: nat, at: nat, end: nat, ghost rest: seq<byte>)
        returns (status: Status, at': nat, ghost e: seq<byte>)
      requires Valid() && (stage.GetCBlock? || stage.StoreCBlock?) && Writing(start, at, end) && |bytes| == target
      modifies this, hist, hist.mem
      ensures !status.Finished? && (status.Error? || (Valid() && !BeforeFrame() && !stage.Init?))
      ensures !status.Error? ==> at' == at + |e| <= end && Writing(start, at', end) && hist.h == old(hist.h) + e
      ensures Leads(Compressed(old(info), old(hist.h), |bytes|, bytes + rest), e, status, Rest(rest), rest)
      ensures status.Again? ==> stage.GetBlockHeader? || stage.FlushOut?
      ensures !status.Stop?
    {
      hide ReadyIn, OutputIn, Compressed, Decoded, LE32, Checksum, CountedFor;
      CompressedFrom(info, hist.h, bytes, rest);
      var data := bytes[..|bytes| - info.CrcSize()];
      e, at' := [], at;
      if info.blockChecksum && LE32(bytes[|bytes| - 4..]) != Checksum(data) { return Error, at, []; }
      if end - at >= info.maxBlock {
        status, at', e := BlockToDst(data, start, at, end, rest);
      } else {
        status := BlockToTmp(data, start, at, end, rest);
        assert hist.h + e == hist.h;
      }
    }

    method BlockToDst(data: seq<byte>, start: nat, at: nat, end: nat, ghost rest: seq<byte>)
        returns (status: Status, at': nat, ghost e: seq<byte>)
      requires Valid() && (stage.GetCBlock? || stage.StoreCBlock?) && Writing(start, at, end)
      requires |data| <= Lz4Decoder.INT_MAX
      requires end - at >= info.maxBlock
      modifies this, hist, hist.mem
      ensures !status.Finished? && (status.Error? || (Valid() && !BeforeFrame() && !stage.Init?))
      ensures !status.Error? ==> at' == at + |e| <= end && Writing(start, at', end) && hist.h == old(hist.h) + e
      ensures Leads(Decoded(old(info), old(hist.h), data, rest), e, status, Rest(rest), rest)
      ensures status.Again? ==> stage.GetBlockHeader?
      ensures !status.Stop?
    {
      hide ReadyIn, OutputIn, Decoded, Decode, Legal, Blocks, CountedFor, PendingIn, Stored;
      hide Frame, Direct, Checked, Compressed, Suffix, SkipSize, Skip, Checksum, LE32, Emit;
      ghost var h0 := hist.h;
      if Decoded(info, h0, data, rest).Done? { DecodedLegal(info, h0, data, rest); }
      assert h0 + Pending() == h0;
      assert hist.Outside(start, at + info.maxBlock) && hist.Where().Free(at, at + info.maxBlock);
      var size, block := hist.DecodeToDst(data, at, info.maxBlock, start);
      if size < 0 { return Error, at, []; }
      e := block;
      DecodedTo(info, h0, data, e, rest);
      EndBlock(block, h0, rest);
      status, at' := Again, at + size;
    }

    /** Behind a block that went straight to the caller's buffer. */
    method EndBlock(block: seq<byte>, ghost h0: seq<byte>, ghost rest: seq<byte>)
      requires hist.reserve == RESERVE && hist.Between() && hist.h == h0 + block && Buffers()
      requires hist.linked == info.linked && 64 * KB <= info.maxBlock <= 4096 * KB
      requires CountedFor(info, remaining, xxh, h0)
      modifies this`xxh, this`remaining, this`stage
      ensures Valid() && stage.GetBlockHeader? && Rest(rest) == Blocks(info, hist.h, rest)
    {
      hide ReadyIn, Blocks, CountedFor;
      ReadyParts(hist.mem[..], hist.Past(), hist.Where());
      Account(block, h0);
      stage := GetBlockHeader;
      assert hist.h + Pending() == hist.h;
    }

    method BlockToTmp(data: seq<byte>, start: nat, at: nat, end: nat, ghost rest: seq<byte>) returns (status: Status)
      requires Valid() && (stage.GetCBlock? || stage.StoreCBlock?) && Writing(start, at, end)
      requires |data| <= Lz4Decoder.INT_MAX
      modifies this, hist, hist.mem
      ensures !status.Finished? && (status.Error? || (Valid() && stage.FlushOut?))
      ensures !status.Error? ==> Writing(start, at, end) && hist.h == old(hist.h)
      ensures Leads(Decoded(old(info), old(hist.h), data, rest), [], status, Rest(rest), rest)
      ensures !status.Stop?
    {
      hide ReadyIn, OutputIn, Decoded, Decode, Legal, Blocks, FlushingIn, CountedFor, PendingIn, Stored;
      hide Frame, Direct, Checked, Compressed, Suffix, SkipSize, Skip, Checksum, LE32, Emit;
      ghost var h0 := hist.h;
      if Decoded(info, h0, data, rest).Done? { DecodedLegal(info, h0, data, rest); }
      assert h0 + Pending() == h0;
      var ok, block := hist.DecodeToTmpOut(data, info.maxBlock, start, at, end);
      if !ok { return Error; }
      Account(block, h0);
      DecodedTo(info, h0, data, block, rest);
      stage := FlushOut;
      status := Again;
      EmitNothing(Rest(rest));
    }

    /** Flushes the block in tmpOut as far as the caller's buffer allows. */
    method DoFlushOut(start: nat, at: nat, end: nat, hasDst: bool, ghost rest: seq<byte>)
        returns (status: Status, at': nat, ghost e: seq<byte>)
      requires Valid() && stage.FlushOut? && Writing(start, at, end) && (!hasDst ==> at == end)
      modifies this, hist, hist.mem
      ensures !status.Finished? && !status.Error? && Valid() && !BeforeFrame() && !stage.Init?
      ensures at' == at + |e| <= end && Writing(start, at', end) && hist.h == old(hist.h) + e
      ensures Leads(old(Rest(rest)), e, status, Rest(rest), rest)
      ensures status.Again? ==> Rank() < old(Rank())
      ensures status.Stop? ==> at' == end
    {
      hide ReadyIn, OutputIn, Blocks, FlushingIn, CountedFor;
      ghost var h0, p := hist.h, Pending();
      var n := 0;
      if hasDst {
        n := Min(hist.tmpOutSize - hist.tmpOutStart, end - at);
        hist.Flush(at, n, start);
      }
      e := p[..n];
      at' := at + n;
      FlushedPart(info, h0, p, n, rest);
      assert hist.h == h0 + e && hist.Pending() == p[n..];
      status := Stop;
      if hist.tmpOutStart == hist.tmpOutSize {
        FlushedBetween();
        stage := GetBlockHeader;
        status := Again;
      }
    }

    /** A block that has been flushed to its end. */
    lemma FlushedBetween()
      requires hist.InBlock() && hist.Where().Holds(hist.mem.Length) && hist.tmpOutStart == hist.tmpOutSize
      ensures hist.Between() && hist.Pending() == []
    {
      hide FlushingIn;
      if hist.linked { FlushedReady(hist.mem[..], hist.h, hist.Where()); }
    }

    // -------------------------------------------------------------- one stage

    /**
    What every stage keeps: nothing is lost of what the input means, and what is put out lies in the caller's buffer.
    */
    method Step(src: seq<byte>, start: nat, at: nat, end: nat, hasDst: bool, ghost more: seq<byte>)
      returns (status: Status, used: nat, at': nat, ghost e: seq<byte>)
      requires Valid() && Writing(start, at, end) && (!hasDst ==> at == end)
      modifies this, hist, hist.mem
      ensures used <= |src| && (status.Again? ==> used > 0 || Rank() < old(Rank()))
      ensures !status.Error? ==>
        Valid() && at' == at + |e| <= end && hist.mem[..][start..at'] == old(hist.mem[..])[start..at] + e
      ensures !status.Error? && !status.Finished? ==> Writing(start, at', end)
      ensures status.Finished? ==> stage.GetFrameHeader?
      ensures Leads(old(Rest(src + more)), e, status, Rest(src[used..] + more), src[used..] + more)
      ensures status.Stop? ==> (used == |src| || at' == end) && (Incomplete() || at' == end)
    {
      hide Valid, Rest, OutputIn, Rank;
      if BeforeFrame() || stage.Init? {
        status, used := StepBefore(src, start, at, end, more);
        at', e := at, [];
        assert hist.mem[..][start..at] + e == hist.mem[..][start..at];
      } else if stage.CopyDirect? || stage.GetCBlock? || stage.StoreCBlock? || stage.FlushOut? {
        ghost var m, h0 := hist.mem[..], hist.h;
        status, used, at', e := StepOut(src, start, at, end, hasDst, more);
        if !status.Error? { OutputAppends(m, hist.mem[..], h0, e, start, at); }
      } else {
        status, used := StepIn(src, start, at, end, more);
        at', e := at, [];
        assert hist.mem[..][start..at] + e == hist.mem[..][start..at];
      }
    }

    /** Stages before the first block. */
    method StepBefore(src: seq<byte>, ghost start: nat, ghost at: nat, ghost end: nat, ghost more: seq<byte>)
        returns (status: Status, used: nat)
      requires Valid() && Writing(start, at, end) && (BeforeFrame() || stage.Init?)
      modifies this, hist
      ensures used <= |src| && (status.Again? ==> used > 0 || Rank() < old(Rank()))
      ensures !status.Error? ==> Valid()
      ensures !status.Error? && !status.Finished? ==> Writing(start, at, end)
      ensures status.Finished? ==> stage.GetFrameHeader?
      ensures Leads(old(Rest(src + more)), [], status, Rest(src[used..] + more), src[used..] + more)
      ensures status.Stop? ==> used == |src| && Incomplete()
    {
      hide Rest, Rank;
      used := 0;
      assert src[0..] == src;
      match stage
      case GetFrameHeader => status, used := DoGetFrameHeader(src, more);
      case StoreFrameHeader => status, used := DoStoreFrameHeader(src, more);
      case Init => status := DoInit(src + more);
      case GetSFrameSize => status, used := DoGetSFrameSize(src, more);
      case StoreSFrameSize => status, used := DoStoreSFrameSize(src, more);
      case SkipSkippable => status, used := DoSkipSkippable(src, more);
    }

    /** Stages between blocks and behind the last. */
    method StepIn(src: seq<byte>, ghost start: nat, at: nat, end: nat, ghost more: seq<byte>)
        returns (status: Status, used: nat)
      requires Valid() && Writing(start, at, end)
      requires || stage.GetBlockHeader? || stage.StoreBlockHeader? || stage.GetBlockChecksum?
               || stage.GetSuffix? || stage.StoreSuffix?
      modifies this, hist`dict, hist`dictSize
      ensures used <= |src| && (status.Again? ==> used > 0 || Rank() < old(Rank()))
      ensures !status.Error? ==> Valid()
      ensures !status.Error? && !status.Finished? ==> Writing(start, at, end)
      ensures status.Finished? ==> stage.GetFrameHeader?
      ensures Leads(old(Rest(src + more)), [], status, Rest(src[used..] + more), src[used..] + more)
      ensures status.Stop? ==> (used == |src| || at == end) && Incomplete()
    {
      hide Rest, Rank, Valid, OutputIn;
      match stage
      case GetBlockHeader => status, used := DoGetBlockHeader(src, at == end, more);
      case StoreBlockHeader => status, used := DoStoreBlockHeader(src, at == end, more);
      case GetBlockChecksum => status, used := DoGetBlockChecksum(src, more);
      case GetSuffix => status, used := DoGetSuffix(src, more);
      case StoreSuffix => status, used := DoStoreSuffix(src, more);
    }

    /** Stages that put content out. */
    method StepOut(src: seq<byte>, start: nat, at: nat, end: nat, hasDst: bool, ghost more: seq<byte>)
      returns (status: Status, used: nat, at': nat, ghost e: seq<byte>)
      requires Valid() && Writing(start, at, end) && (!hasDst ==> at == end)
      requires stage.CopyDirect? || stage.GetCBlock? || stage.StoreCBlock? || stage.FlushOut?
      modifies this, hist, hist.mem
      ensures used <= |src| && !status.Finished? && (status.Again? ==> used > 0 || Rank() < old(Rank()))
      ensures !status.Error? ==>
        Valid() && !BeforeFrame() && at' == at + |e| <= end && Writing(start, at', end) && hist.h == old(hist.h) + e
      ensures Leads(old(Rest(src + more)), e, status, Rest(src[used..] + more), src[used..] + more)
      ensures status.Stop? ==> (used == |src| || at' == end) && (Incomplete() || at' == end)
    {
      hide Rest, Rank, Valid, Writing;
      used := 0;
      match stage
      case CopyDirect =>
        status, used := DoCopyDirect(src, start, at, end, hasDst, more);
        at', e := at + used, src[..used];
      case GetCBlock => status, used, at', e := DoGetCBlock(src, start, at, end, more);
      case StoreCBlock => status, used, at', e := DoStoreCBlock(src, start, at, end, more);
      case FlushOut =>
        assert src[0..] == src;
        status, at', e := DoFlushOut(start, at, end, hasDst, src + more);
    }

    // -------------------------------------------------------------- a call

    /** Stages in which the history is still needed. */
    predicate InBlocks()
      reads this
    {
      !BeforeFrame() && !stage.GetSuffix? && !stage.StoreSuffix?
    }

    /**
    At the end of a call, a history in the caller's buffer moves to tmpOutBuffer, unless the caller keeps the buffer
    stable.
    */
    method PreserveHistory(stableDst: bool, ghost start: nat, ghost at: nat, ghost rest: seq<byte>)
      requires Valid() && start <= at && hist.Outside(start, at)
      modifies hist, hist.mem
      ensures Valid() && Rest(rest) == old(Rest(rest)) && hist.mem[..][start..at] == old(hist.mem[..])[start..at]
      ensures InBlocks() && !stableDst ==> hist.dict == hist.tmp || hist.dictSize == 0
    {
      hide ReadyIn, FlushingIn, CountedFor, Stored;
      ghost var m := hist.mem[..];
      if InBlocks() && hist.linked && hist.dict != hist.tmp && hist.dict != NULL && !stableDst {
        if stage.FlushOut? {
          FlushingParts(m, hist.h, hist.Where());
          hist.CopyInFront();
          FlushingHolds(hist.mem[..], hist.h, hist.Where());
        } else {
          ReadyParts(m, hist.h, hist.Where());
          hist.Preserve();
          ReadyParts(hist.mem[..], hist.h, hist.Where());
        }
        Untouched(m, hist.mem[..], hist.tmp, hist.reserve, start, at);
      } else if InBlocks() {
        if hist.dict == NULL { NullEmpty(); }
      }
    }

    /** A null dictionary is an empty one. */
    lemma NullEmpty()
      requires Valid() && InBlocks() && hist.dict == NULL
      ensures hist.dictSize == 0
    {
    }

    /** LZ4F_decompress on a chunk of the input, with `more` of it to come, into start..end of the caller's memory. */
    method Decompress(src: seq<byte>, start: nat, end: nat, hasDst: bool, stableDst: bool, ghost more: seq<byte>)
      returns (status: Status, consumed: nat, produced: nat)
      requires Valid() && start <= end && hist.Outside(start, end) && (!hasDst ==> start == end)
      requires InBlocks() ==> hist.Where().Free(start, end)
      modifies this, hist, hist.mem
      ensures !status.Again? && consumed <= |src| && start + produced <= end
      ensures !status.Error? ==> Valid()
      ensures status.Finished? ==> stage.GetFrameHeader?
      ensures status.Stop? && InBlocks() && !stableDst ==> hist.dict == hist.tmp || hist.dictSize == 0
      ensures Leads(old(Rest(src + more)), hist.mem[..][start..start + produced], status,
                    Rest(src[consumed..] + more), src[consumed..] + more)
      ensures status.Stop? ==> consumed == |src| || start + produced == end
      ensures old(Rest(src + more)).Done? && more == [] && start + produced < end ==> status.Finished?
    {
      hide Valid, Rest, Rank;
      var at := start;
      consumed := 0;
      status := Again;
      ghost var before := Rest(src + more);
      assert src[0..] == src && hist.mem[..][start..start] == [];
      EmitNothing(before);
      StartWriting(start, end);
      while status.Again?
        invariant consumed <= |src| && start <= at <= end && hist.Outside(start, end)
        invariant status.Again? ==> Valid() && Writing(start, at, end) && (!hasDst ==> at == end)
        invariant !status.Error? ==> Valid()
        invariant status.Finished? ==> stage.GetFrameHeader?
        invariant status.Stop? ==> (consumed == |src| || at == end) && (Incomplete() || at == end)
        invariant Leads(before, hist.mem[..][start..at], status, Rest(src[consumed..] + more), src[consumed..] + more)
        decreases status.Again?, |src| - consumed, Rank()
      {
        ghost var out, now := hist.mem[..][start..at], Rest(src[consumed..] + more);
        var used, at';
        ghost var e;
        status, used, at', e := Step(src[consumed..], start, at, end, hasDst, more);
        LeadsOn(before, out, now, e, status, Rest(src[consumed..][used..] + more), src[consumed..][used..] + more);
        assert src[consumed..][used..] == src[consumed + used..];
        consumed := consumed + used;
        at := if status.Error? then at else at';
      }
      produced := at - start;
      if status.Stop? && at < end && more == [] {
        assert src[consumed..] + more == [];
        NeedsInput();
      }
      if !status.Error? {
        PreserveHistory(stableDst, start, at, src[consumed..] + more);
      }
    }

    lemma StartWriting(start: nat, end: nat)
      requires Valid() && start <= end && hist.Outside(start, end) && (InBlocks() ==> hist.Where().Free(start, end))
      ensures Writing(start, start, end)
    {
      hide ReadyIn, FlushingIn, CountedFor;
    }
  }
  // ---------------------------------------------------------------- every split

  /** Between calls the caller may do what it likes with its own memory, as long as the history is not there. */
  method Overwrite(d: Dctx, size: nat, garbage: seq<byte>, ghost rest: seq<byte>)
    requires d.Valid() && |garbage| == size < d.hist.tmp
    requires d.InBlocks() ==> d.hist.dict == d.hist.tmp || d.hist.dictSize == 0
    modifies d.hist.mem
    ensures d.Valid() && d.Rest(rest) == old(d.Rest(rest))
  {
    hide ReadyIn, FlushingIn, CountedFor, Stored;
    ghost var m := d.hist.mem[..];
    CopyIn(d.hist.mem, 0, garbage, 0, size);
    StoredOnly(m, d.hist.mem, 0, size);
    if d.stage.FlushOut? {
      if d.hist.linked {
        FlushingStored(m, d.hist.mem[..], d.hist.h, d.hist.Where(), 0, size);
      } else {
        Untouched(m, d.hist.mem[..], 0, size, d.hist.tmpOut + d.hist.tmpOutStart, d.hist.tmpOut + d.hist.tmpOutSize);
      }
    } else if d.InBlocks() && !d.stage.Init? {
      ReadyStored(m, d.hist.mem[..], d.hist.Past(), d.hist.Where(), 0, size);
    }
  }

  /**
  One call of a client: how much input it offers, its buffer's capacity, and what it puts in the buffer afterwards.
  */
  datatype Call = Call(chunk: nat, capacity: nat, garbage: seq<byte>) {
    /** It offers some input and some room. */
    predicate Generous() { chunk >= 1 && capacity >= 1 }
  }

  predicate AllGenerous(calls: seq<Call>) { forall c :: c in calls ==> c.Generous() }

  lemma BeginsFrame(d: Dctx, input: seq<byte>)
    requires d.stage.GetFrameHeader?
    ensures d.Rest(input) == Frame(input) == Emit([], d.Rest(input)) && !d.InBlocks()
  {
    hide Frame;
    EmitNothing(Frame(input));
  }

  /**
  For every valid frame, every split of the input and all capacities: no call fails, the output is always a prefix of
  the content, and when the frame is complete the output is the content, exactly the frame has been consumed, and the
  context is back in its initial stage. Calls that offer some input and some room complete the frame before there are
  more of them than bytes of input and content.
  */
  method DecodeInPieces(input: seq<byte>, calls: seq<Call>, room: nat)
    returns (status: Status, out: seq<byte>, consumed: nat)
    requires forall c :: c in calls ==> c.capacity <= room && |c.garbage| == room
    ensures consumed <= |input|
    ensures Frame(input).Done? ==> !status.Error? && out <= Frame(input).content
    ensures Frame(input).Done? && status.Finished? ==> Frame(input) == Done(out, input[consumed..])
    ensures Frame(input).Done? && AllGenerous(calls) && |calls| > |input| + |Frame(input).content| ==> status.Finished?
  {
    hide Frame, Dctx.Valid, Dctx.Rest, Dctx.InBlocks;
    var mem := new byte[room + 1 + RESERVE](_ => 0);
    var d := new Dctx(mem, room + 1);
    status, out, consumed := Stop, [], 0;
    assert input[0..] == input;
    BeginsFrame(d, input);
    var i := 0;
    while i < |calls| && status.Stop?
      invariant 0 <= i <= |calls| && consumed <= |input| && !status.Again?
      invariant fresh(d) && fresh(d.hist) && d.hist.mem == mem && fresh(mem)
      invariant d.hist.tmp == room + 1 && mem.Length == room + 1 + RESERVE
      invariant status.Stop? ==> d.Valid() && (d.InBlocks() ==> d.hist.dict == d.hist.tmp || d.hist.dictSize == 0)
      invariant Leads(Frame(input), out, status, d.Rest(input[consumed..]), input[consumed..])
      invariant Frame(input).Done? && AllGenerous(calls) && status.Stop? ==> i <= consumed + |out|
    {
      var call := calls[i];
      ghost var now := d.Rest(input[consumed..]);
      var used, e;
      if Frame(input).Done? { LeadsDone(Frame(input), out, status, now, input[consumed..]); }
      status, used, e := OneCall(d, input, consumed, call, room);
      LeadsOn(Frame(input), out, now, e, status, d.Rest(input[consumed + used..]), input[consumed + used..]);
      out := out + e;
      consumed := consumed + used;
      i := i + 1;
    }
    LeadsPrefix(Frame(input), out, status, d.Rest(input[consumed..]), input[consumed..]);
  }

  method OneCall(d: Dctx, input: seq<byte>, consumed: nat, call: Call, room: nat)
      returns (status: Status, used: nat, e: seq<byte>)
    requires d.Valid() && consumed <= |input| && call.capacity <= room && |call.garbage| == room
    requires d.hist.tmp == room + 1 <= d.hist.mem.Length
    requires d.InBlocks() ==> d.hist.dict == d.hist.tmp || d.hist.dictSize == 0
    modifies d, d.hist, d.hist.mem
    ensures consumed + used <= |input| && !status.Again?
    ensures status.Stop? ==> d.Valid() && (d.InBlocks() ==> d.hist.dict == d.hist.tmp || d.hist.dictSize == 0)
    ensures Leads(old(d.Rest(input[consumed..])), e, status, d.Rest(input[consumed + used..]), input[consumed + used..])
    ensures old(d.Rest(input[consumed..])).Done? && call.chunk >= |input| - consumed && |e| < call.capacity ==>
      status.Finished?
    ensures old(d.Rest(input[consumed..])).Done? && call.Generous() && status.Stop? ==> used + |e| >= 1
  {
    hide Dctx.Valid, Dctx.Rest;
    var n := Min(call.chunk, |input| - consumed);
    var src := input[consumed..consumed + n];
    ghost var more := input[consumed + n..];
    assert src + more == input[consumed..];
    var produced;
    status, used, produced := d.Decompress(src, 0, call.capacity, true, false, more);
    e := d.hist.mem[..produced];
    assert d.hist.mem[..][0..0 + produced] == e;
    assert src[used..] + more == input[consumed + used..];
    if status.Stop? {
      Overwrite(d, room, call.garbage, input[consumed + used..]);
    }
  }

  /** A call that is offered the whole frame and more room than its content needs completes it. */
  method DecodeAtOnce(input: seq<byte>, capacity: nat) returns (status: Status, out: seq<byte>, consumed: nat)
    ensures consumed <= |input|
    ensures Frame(input).Done? && |Frame(input).content| < capacity ==>
      status.Finished? && Frame(input) == Done(out, input[consumed..])
  {
    hide Frame, Dctx.Valid, Dctx.Rest, Dctx.InBlocks;
    var mem := new byte[capacity + 1 + RESERVE](_ => 0);
    var d := new Dctx(mem, capacity + 1);
    assert input[0..] == input;
    BeginsFrame(d, input);
    status, consumed, out := OneCall(d, input, 0, Call(|input|, capacity, Zeros(capacity)), capacity);
    LeadsPrefix(Frame(input), out, status, d.Rest(input[consumed..]), input[consumed..]);
  }
}
