/**
What an LZ4 frame means: header, blocks, checksums and skippable frames, as a function of the whole input.
`h` is the content of the frame so far. The meaning of a rest of a frame is the content it adds and the input behind it.
*/
module Lz4FrameFormat {
  import opened Bytes
  import opened Lz4Format
  import XxHash32

  const MAGIC := 0x184D2204
  const MAGIC_SKIPPABLE := 0x184D2A50
  const MIN_HEADER := 7
  const MAX_HEADER := 19
  const UNCOMPRESSED := 0x8000_0000
  const U64 := 0x1_0000_0000_0000_0000

  /** Frame parameters; a content size of 0 stands for none. */
  datatype Info = Info(linked: bool, blockChecksum: bool, contentChecksum: bool, maxBlock: nat, contentSize: nat) {
    function CrcSize(): nat { if blockChecksum then 4 else 0 }
  }

  datatype Outcome = Fail | Done(content: seq<byte>, left: seq<byte>)

  /** Content that comes before an outcome. */
  function Emit(e: seq<byte>, o: Outcome): Outcome {
    match o
    case Fail => Fail
    case Done(c, left) => Done(e + c, left)
  }

  function LE32(s: seq<byte>): nat
    requires |s| >= 4
  {
    Little4(s[0], s[1], s[2], s[3])
  }

  function Little4(a: nat, b: nat, c: nat, d: nat): nat { a + 0x100 * b + 0x1_0000 * c + 0x100_0000 * d }

  function Checksum(s: seq<byte>): nat { XxHash32.Hash(s, 0) as nat }

  // ---------------------------------------------------------------- blocks

  function Blocks(info: Info, h: seq<byte>, src: seq<byte>): Outcome
    decreases |src|, 0
  {
    if |src| < 4 then Fail else Block(info, h, LE32(src), src[4..])
  }

  /** A block, or the end mark, behind its header. */
  function Block(info: Info, h: seq<byte>, header: nat, src: seq<byte>): Outcome
    decreases |src|, 3
  {
    if header == 0 then Suffix(info, h, src)
    else if header % UNCOMPRESSED > info.maxBlock then Fail
    else if header >= UNCOMPRESSED then Direct(info, h, [], header % UNCOMPRESSED, src)
    else Compressed(info, h, header + info.CrcSize(), src)
  }

  /** `n` more bytes of an uncompressed block of which `done` have been copied. */
  function Direct(info: Info, h: seq<byte>, done: seq<byte>, n: nat, src: seq<byte>): Outcome
    decreases |src|, 2
  {
    if |src| < n then Fail else Emit(src[..n], Checked(info, h + src[..n], done + src[..n], src[n..]))
  }

  /** Behind an uncompressed block: its checksum, if there is one. */
  function Checked(info: Info, h: seq<byte>, block: seq<byte>, src: seq<byte>): Outcome
    decreases |src|, 1
  {
    if !info.blockChecksum then Blocks(info, h, src)
    else if |src| < 4 || LE32(src) != Checksum(block) then Fail
    else Blocks(info, h, src[4..])
  }

  /** A compressed block that takes `n` bytes with its checksum. */
  function Compressed(info: Info, h: seq<byte>, n: nat, src: seq<byte>): Outcome
    decreases |src|, 2
  {
    if |src| < n || n < info.CrcSize() then Fail
    else
      var data := src[..n - info.CrcSize()];
      if info.blockChecksum && LE32(src[n - 4..]) != Checksum(data) then Fail
      else Decoded(info, h, data, src[n..])
  }

  /** A compressed block is decoded against the content before it, if blocks are linked. */
  function Decoded(info: Info, h: seq<byte>, data: seq<byte>, src: seq<byte>): Outcome
    decreases |src|, 1
  {
    var past := if info.linked then h else [];
    if !Legal(data, 0, past, |past| + info.maxBlock) then Fail
    else
      match Decode(data, 0, past)
      case None => Fail
      case Some(r) => if |r| < |past| then Fail else Emit(r[|past|..], Blocks(info, h + r[|past|..], src))
  }

  /** Behind the end mark: content size and content checksum. */
  function Suffix(info: Info, h: seq<byte>, src: seq<byte>): Outcome {
    if info.contentSize != 0 && (info.contentSize - |h|) % U64 != 0 then Fail
    else if !info.contentChecksum then Done([], src)
    else if |src| < 4 || LE32(src) != Checksum(h) then Fail
    else Done([], src[4..])
  }

  // ---------------------------------------------------------------- frames

  predicate Bit(b: byte, weight: nat)
    requires weight > 0
  {
    b / weight % 2 == 1
  }

  predicate Skippable(src: seq<byte>)
    requires |src| >= 4
  {
    LE32(src) / 16 == MAGIC_SKIPPABLE / 16
  }

  /** Size of a frame header, from its flags. */
  function HeaderSize(src: seq<byte>): (n: nat)
    requires |src| >= MIN_HEADER
    ensures MIN_HEADER <= n <= MAX_HEADER
  {
    MIN_HEADER + (if Bit(src[4], 8) then 8 else 0) + (if Bit(src[4], 1) then 4 else 0)
  }

  /** Magic number and flag byte are acceptable. */
  predicate GoodStart(src: seq<byte>)
    requires |src| >= MIN_HEADER
  {
    LE32(src) == MAGIC && !Bit(src[4], 2) && src[4] / 64 == 1
  }

  /** The rest of the header is acceptable. */
  predicate GoodHeader(src: seq<byte>)
    requires |src| >= MIN_HEADER && |src| >= HeaderSize(src)
  {
    var n := HeaderSize(src);
    !Bit(src[5], 128) && src[5] / 16 % 8 >= 4 && src[5] % 16 == 0 && src[n - 1] == Checksum(src[4..n - 1]) / 256 % 256
  }

  function HeaderInfo(src: seq<byte>): Info
    requires |src| >= MIN_HEADER && |src| >= HeaderSize(src) && src[5] / 16 % 8 >= 4
  {
    Info(!Bit(src[4], 32), Bit(src[4], 16), Bit(src[4], 4), BlockSize(src[5] / 16 % 8),
         if Bit(src[4], 8) then LE32(src[6..]) + U32 * LE32(src[10..]) else 0)
  }

  function BlockSize(id: nat): (n: nat)
    ensures 64 * KB <= n <= 4096 * KB
  {
    if id == 4 then 64 * KB else if id == 5 then 256 * KB else if id == 6 then 1024 * KB else 4096 * KB
  }

  /** A whole frame at the start of the input. */
  function Frame(src: seq<byte>): Outcome {
    if |src| < MIN_HEADER then Fail
    else if Skippable(src) then SkipSize(src[4..])
    else if !GoodStart(src) || |src| < HeaderSize(src) || !GoodHeader(src) then Fail
    else Blocks(HeaderInfo(src), [], src[HeaderSize(src)..])
  }

  /** A skippable frame behind its magic number. */
  function SkipSize(src: seq<byte>): Outcome { if |src| < 4 then Fail else Skip(LE32(src), src[4..]) }

  function Skip(n: nat, src: seq<byte>): Outcome { if |src| < n then Fail else Done([], src[n..]) }
}
