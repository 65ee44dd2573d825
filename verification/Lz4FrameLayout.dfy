/**
Frames laid out byte by byte, from literal bytes and bit weights, and that the meaning of a frame gives their content
back: the round trip that says which bytes are a frame.
*/
module Lz4FrameLayout {
  import opened Bytes
  import opened Lz4Format
  import opened Lz4FrameFormat

  // ---------------------------------------------------------------- layout

  /** What a frame header can say; `dictId` is a dictionary's number. */
  datatype Options = Options(
    independent: bool, blockChecksum: bool, hasSize: bool, contentChecksum: bool, dictId: Option<nat>, id: nat)
  {
    predicate Valid() { 4 <= id <= 7 && (dictId.Some? ==> dictId.value < U32) }
  }

  /** A block as it is, or as sequences and last literals. */
  datatype Piece = Raw(bytes: seq<byte>) | Packed(ss: seq<Sequence>, last: seq<byte>)

  function Bytes4(n: nat): (b: seq<byte>)
    requires n < U32
    ensures |b| == 4
  {
    [n % 256, n / 256 % 256, n / 65536 % 256, n / 0x100_0000]
  }

  function Bytes8(n: nat): (b: seq<byte>)
    requires n < U64
    ensures |b| == 8
  {
    Bytes4(n % U32) + Bytes4(n / U32)
  }

  function If(on: bool, weight: nat): nat { if on then weight else 0 }

  function FlagByte(o: Options): (b: byte) {
    64 + If(o.independent, 32) + If(o.blockChecksum, 16) + If(o.hasSize, 8) + If(o.contentChecksum, 4)
    + If(o.dictId.Some?, 1)
  }

  /** What lies between the magic number and the header's check byte. */
  function Descriptor(o: Options, size: nat): (d: seq<byte>)
    requires o.Valid()
    ensures |d| == 2 + If(o.hasSize, 8) + If(o.dictId.Some?, 4)
  {
    [FlagByte(o), 16 * o.id]
    + (if o.hasSize then Bytes8(size % U64) else [])
    + (if o.dictId.Some? then Bytes4(o.dictId.value) else [])
  }

  function Header(o: Options, size: nat): seq<byte>
    requires o.Valid()
  {
    [0x04, 0x22, 0x4D, 0x18] + Descriptor(o, size) + [Checksum(Descriptor(o, size)) / 256 % 256]
  }

  /** The largest block of a frame: 2^16, 2^18, 2^20 or 2^22 bytes. */
  function Limit(id: nat): nat
    requires 4 <= id <= 7
  {
    [0x1_0000, 0x4_0000, 0x10_0000, 0x40_0000][id - 4]
  }

  lemma ChecksumFits(s: seq<byte>)
    ensures Checksum(s) < U32
  {
  }

  function Crc(on: bool, s: seq<byte>): (b: seq<byte>)
    ensures |b| == If(on, 4)
  {
    ChecksumFits(s);
    if on then Bytes4(Checksum(s)) else []
  }

  function Data(piece: Piece): seq<byte>
    requires piece.Packed? ==> forall s :: s in piece.ss ==> s.Valid()
  {
    match piece
    case Raw(bytes) => bytes
    case Packed(ss, last) => EncodeSequences(ss) + EncodeLast(last)
  }

  /** A piece the format can express behind the content `h`. */
  ghost predicate Fits(o: Options, h: seq<byte>, piece: Piece)
    requires o.Valid()
  {
    match piece
    case Raw(bytes) => |bytes| <= Limit(o.id)
    case Packed(ss, last) =>
      var past := if o.independent then [] else h;
      && (forall s :: s in ss ==> s.Valid()) && Expand(past, ss).Some?
      && var g := Expand(past, ss).value;
      && |g| + |last| <= |past| + Limit(o.id) && |Data(piece)| <= Limit(o.id)
      && (ss != [] ==> |last| >= LASTLITERALS) && Polite(past, ss, |g| + |last|)
  }

  /** The content of a piece behind the content `h`. */
  ghost function Unpacked(o: Options, h: seq<byte>, piece: Piece): seq<byte>
    requires o.Valid() && Fits(o, h, piece)
  {
    match piece
    case Raw(bytes) => bytes
    case Packed(ss, last) =>
      var past := if o.independent then [] else h;
      Sliced(Expand(past, ss).value, |past|) + last
  }

  function Sliced(s: seq<byte>, n: nat): seq<byte> { if n <= |s| then s[n..] else [] }

  function LaidPiece(o: Options, piece: Piece): seq<byte>
    requires o.Valid() && (piece.Packed? ==> forall s :: s in piece.ss ==> s.Valid()) && |Data(piece)| <= Limit(o.id)
  {
    Bytes4(|Data(piece)| + If(piece.Raw?, 0x8000_0000)) + Data(piece) + Crc(o.blockChecksum, Data(piece))
  }

  ghost predicate AllFit(o: Options, h: seq<byte>, pieces: seq<Piece>)
    requires o.Valid()
    decreases |pieces|
  {
    pieces == [] || (Fits(o, h, pieces[0]) && AllFit(o, h + Unpacked(o, h, pieces[0]), pieces[1..]))
  }

  ghost function Content(o: Options, h: seq<byte>, pieces: seq<Piece>): seq<byte>
    requires o.Valid() && AllFit(o, h, pieces)
    decreases |pieces|
  {
    if pieces == [] then []
    else Unpacked(o, h, pieces[0]) + Content(o, h + Unpacked(o, h, pieces[0]), pieces[1..])
  }

  ghost function Laid(o: Options, h: seq<byte>, pieces: seq<Piece>): seq<byte>
    requires o.Valid() && AllFit(o, h, pieces)
    decreases |pieces|
  {
    if pieces == [] then [0, 0, 0, 0] + Crc(o.contentChecksum, h)
    else LaidPiece(o, pieces[0]) + Laid(o, h + Unpacked(o, h, pieces[0]), pieces[1..])
  }

  /** A whole frame. */
  ghost function Lay(o: Options, pieces: seq<Piece>): seq<byte>
    requires o.Valid() && AllFit(o, [], pieces)
  {
    Header(o, |Content(o, [], pieces)|) + Laid(o, [], pieces)
  }

  // ---------------------------------------------------------------- numbers read back

  lemma LE32Back(n: nat, rest: seq<byte>)
    requires n < U32
    ensures LE32(Bytes4(n) + rest) == n && (Bytes4(n) + rest)[4..] == rest
  {
    var s := Bytes4(n) + rest;
    assert s[0] == n % 256 && s[1] == n / 256 % 256 && s[2] == n / 65536 % 256 && s[3] == n / 0x100_0000;
    Digits(n);
  }

  lemma Digits(n: nat)
    ensures n == n % 256 + 0x100 * (n / 256 % 256) + 0x1_0000 * (n / 65536 % 256) + 0x100_0000 * (n / 0x100_0000)
  {
    var c := n / 256;
    var b := c / 256;
    assert n / 65536 == b;
    assert n / 0x100_0000 == b / 256;
  }

  // ---------------------------------------------------------------- blocks

  /** What a header of these options is read as. */
  function InfoOf(o: Options, size: nat): Info
    requires o.Valid()
  {
    Info(!o.independent, o.blockChecksum, o.contentChecksum, Limit(o.id), if o.hasSize then size % U64 else 0)
  }

  lemma RawBack(o: Options, size: nat, h: seq<byte>, bytes: seq<byte>, src: seq<byte>)
    requires o.Valid() && |bytes| <= Limit(o.id)
    ensures Blocks(InfoOf(o, size), h, LaidPiece(o, Raw(bytes)) + src)
      == Emit(bytes, Blocks(InfoOf(o, size), h + bytes, src))
  {
    hide Checksum, LE32, Blocks, Bytes4;
    var info, n := InfoOf(o, size), |bytes|;
    var crc := Crc(o.blockChecksum, bytes);
    var all := LaidPiece(o, Raw(bytes)) + src;
    assert all == Bytes4(n + 0x8000_0000) + (bytes + (crc + src));
    LE32Back(n + 0x8000_0000, bytes + (crc + src));
    BlocksBegin(info, h, all);
    var rest := bytes + (crc + src);
    assert rest[..n] == bytes && rest[n..] == crc + src && [] + bytes == bytes;
    CheckedBack(o, size, h + bytes, bytes, src);
  }

  lemma BlocksBegin(info: Info, h: seq<byte>, src: seq<byte>)
    requires |src| >= 4
    ensures Blocks(info, h, src) == Block(info, h, LE32(src), src[4..])
  {
    hide LE32, Block;
  }

  lemma CheckedBack(o: Options, size: nat, h: seq<byte>, block: seq<byte>, src: seq<byte>)
    requires o.Valid()
    ensures Checked(InfoOf(o, size), h, block, Crc(o.blockChecksum, block) + src) == Blocks(InfoOf(o, size), h, src)
  {
    hide Checksum, LE32, Blocks, Bytes4;
    ChecksumFits(block);
    if o.blockChecksum {
      LE32Back(Checksum(block), src);
    } else {
      assert [] + src == src;
    }
  }

  lemma PackedBack(o: Options, size: nat, h: seq<byte>, piece: Piece, src: seq<byte>)
    requires o.Valid() && piece.Packed? && Fits(o, h, piece)
    ensures Blocks(InfoOf(o, size), h, LaidPiece(o, piece) + src)
      == Emit(Unpacked(o, h, piece), Blocks(InfoOf(o, size), h + Unpacked(o, h, piece), src))
  {
    hide Checksum, LE32, Blocks, Bytes4, Decoded, Expand, Polite, EncodeSequences, EncodeLast, Unpacked, Compressed;
    hide Crc, Emit;
    var info, data := InfoOf(o, size), Data(piece);
    var n, crc := |data|, Crc(o.blockChecksum, data);
    assert n > 0 by { EncodeLastSize(piece.last); }
    var all, rest := LaidPiece(o, piece) + src, data + (crc + src);
    assert all == Bytes4(n) + rest;
    LE32Back(n, rest);
    BlocksBegin(info, h, all);
    CompressedBack(o, size, h, data, src);
    DecodedBack(o, size, h, piece, src);
  }

  lemma CompressedBack(o: Options, size: nat, h: seq<byte>, data: seq<byte>, src: seq<byte>)
    requires o.Valid()
    ensures Compressed(InfoOf(o, size), h, |data| + If(o.blockChecksum, 4), data + (Crc(o.blockChecksum, data) + src))
      == Decoded(InfoOf(o, size), h, data, src)
  {
    hide Checksum, LE32, Bytes4, Decoded;
    var n, crc := |data|, Crc(o.blockChecksum, data);
    Parts(data, crc, src);
    if o.blockChecksum {
      ChecksumFits(data);
      LE32Back(Checksum(data), src);
    }
  }

  lemma Parts(a: seq<byte>, b: seq<byte>, c: seq<byte>)
    ensures var s := a + (b + c);
      s[..|a|] == a && s[|a|..] == b + c && s[|a| + |b|..] == c
  {
  }

  lemma EncodeLastSize(last: seq<byte>)
    ensures |EncodeLast(last)| > 0
  {
    hide LengthTail;
  }

  lemma DecodedBack(o: Options, size: nat, h: seq<byte>, piece: Piece, src: seq<byte>)
    requires o.Valid() && piece.Packed? && Fits(o, h, piece)
    ensures Decoded(InfoOf(o, size), h, Data(piece), src)
      == Emit(Unpacked(o, h, piece), Blocks(InfoOf(o, size), h + Unpacked(o, h, piece), src))
  {
    hide Blocks, Decode, Legal, Expand, Polite, EncodeSequences, EncodeLast;
    var past := if o.independent then [] else h;
    var g := Expand(past, piece.ss).value;
    assert |piece.last| < U32 by { LastInside(piece); }
    DecodeOfEncode(piece.ss, piece.last, past);
    LegalOfEncode(piece.ss, piece.last, past);
    LegalWider(Data(piece), 0, past, |g| + |piece.last|, |past| + Limit(o.id));
    ExpandGrows(past, piece.ss);
    assert (g + piece.last)[|past|..] == g[|past|..] + piece.last;
  }

  lemma LastInside(piece: Piece)
    requires piece.Packed? && (forall s :: s in piece.ss ==> s.Valid())
    ensures |piece.last| <= |Data(piece)|
  {
    hide EncodeSequences, LengthTail;
  }

  lemma {:induction false} ExpandGrows(h: seq<byte>, ss: seq<Sequence>)
    requires Expand(h, ss).Some?
    ensures |h| <= |Expand(h, ss).value|
  {
    if ss != [] {
      ExpandGrows(h, ss[..|ss| - 1]);
    }
  }

  /** More room never makes a block illegal. */
  lemma {:induction false} LegalWider(src: seq<byte>, i: nat, h: seq<byte>, cap: int, wider: int)
    requires Legal(src, i, h, cap) && cap <= wider
    ensures Legal(src, i, h, wider)
    decreases |src| - i
  {
    hide ParseSequence;
    var p := ParseSequence(src, i);
    if p.Seq? {
      LegalWider(src, p.next, CopyMatch(h + src[p.from..p.to], p.offset, p.matchLength), cap, wider);
    }
  }

  lemma SuffixBack(o: Options, size: nat, h: seq<byte>, rest: seq<byte>)
    requires o.Valid() && size == |h|
    ensures Blocks(InfoOf(o, size), h, [0, 0, 0, 0] + Crc(o.contentChecksum, h) + rest) == Done([], rest)
  {
    hide Checksum, Bytes4, Blocks, Suffix, Crc;
    var crc, info := Crc(o.contentChecksum, h), InfoOf(o, size);
    var src := [0, 0, 0, 0] + crc + rest;
    assert src[0] == src[1] == src[2] == src[3] == 0 && src[4..] == crc + rest;
    BlocksBegin(info, h, src);
    SuffixIs(o, size, h, rest);
  }

  lemma SuffixIs(o: Options, size: nat, h: seq<byte>, rest: seq<byte>)
    requires o.Valid() && size == |h|
    ensures Suffix(InfoOf(o, size), h, Crc(o.contentChecksum, h) + rest) == Done([], rest)
  {
    hide Checksum, Bytes4, LE32, Limit;
    ChecksumFits(h);
    SameModulo(size);
    if o.contentChecksum {
      LE32Back(Checksum(h), rest);
    } else {
      assert [] + rest == rest;
    }
  }

  lemma SameModulo(n: nat)
    ensures (n % U64 - n) % U64 == 0
  {
    assert n == U64 * (n / U64) + n % U64;
    Multiple(n / U64);
  }

  lemma {:induction false} Multiple(k: nat)
    ensures (-(U64 * k)) % U64 == 0
  {
    if k > 0 {
      Multiple(k - 1);
      assert -(U64 * k) == -(U64 * (k - 1)) - U64;
    }
  }

  lemma {:induction false} LaidBack(o: Options, size: nat, h: seq<byte>, pieces: seq<Piece>, rest: seq<byte>)
    requires o.Valid() && AllFit(o, h, pieces) && size == |h| + |Content(o, h, pieces)|
    ensures Blocks(InfoOf(o, size), h, Laid(o, h, pieces) + rest) == Done(Content(o, h, pieces), rest)
    decreases |pieces|
  {
    hide Blocks, LaidPiece, Crc, Unpacked, Expand, Polite, EncodeSequences, EncodeLast;
    if pieces == [] {
      SuffixBack(o, size, h, rest);
    } else {
      var c := Unpacked(o, h, pieces[0]);
      var more := Laid(o, h + c, pieces[1..]);
      LaidBack(o, size, h + c, pieces[1..], rest);
      assert LaidPiece(o, pieces[0]) + more + rest == LaidPiece(o, pieces[0]) + (more + rest);
      PieceBack(o, size, h, pieces[0], more + rest);
    }
  }

  lemma PieceBack(o: Options, size: nat, h: seq<byte>, piece: Piece, src: seq<byte>)
    requires o.Valid() && Fits(o, h, piece)
    ensures Blocks(InfoOf(o, size), h, LaidPiece(o, piece) + src)
      == Emit(Unpacked(o, h, piece), Blocks(InfoOf(o, size), h + Unpacked(o, h, piece), src))
  {
    hide Blocks;
    if piece.Raw? {
      RawBack(o, size, h, piece.bytes, src);
    } else {
      PackedBack(o, size, h, piece, src);
    }
  }

  // ---------------------------------------------------------------- headers

  lemma FlagBits(o: Options)
    ensures var b := FlagByte(o);
      && b / 64 == 1 && Bit(b, 32) == o.independent && Bit(b, 16) == o.blockChecksum && Bit(b, 8) == o.hasSize
      && Bit(b, 4) == o.contentChecksum && !Bit(b, 2) && Bit(b, 1) == o.dictId.Some?
  {
  }

  lemma IdBits(id: nat)
    requires 4 <= id <= 7
    ensures var b := 16 * id;
      b < 256 && !Bit(b, 128) && b / 16 % 8 == id && b % 16 == 0 && BlockSize(id) == Limit(id)
  {
  }

  lemma SizeBack(size: nat, more: seq<byte>)
    ensures var s := Bytes8(size % U64) + more;
      LE32(s) + U32 * LE32(s[4..]) == size % U64
  {
    hide LE32, Bytes4;
    var n := size % U64;
    var s := Bytes8(n) + more;
    assert s == Bytes4(n % U32) + (Bytes4(n / U32) + more);
    LE32Back(n % U32, Bytes4(n / U32) + more);
    LE32Back(n / U32, more);
  }

  /** What the header's bytes are, one by one. */
  lemma HeaderParts(o: Options, size: nat, rest: seq<byte>)
    requires o.Valid()
    ensures var src, n := Header(o, size) + rest, 5 + |Descriptor(o, size)|;
      && |src| == n + |rest| && src[0] == 0x04 && src[1] == 0x22 && src[2] == 0x4D && src[3] == 0x18
      && src[4] == FlagByte(o) && src[5] == 16 * o.id && src[4..n - 1] == Descriptor(o, size)
      && src[n - 1] == Checksum(Descriptor(o, size)) / 256 % 256 && src[n..] == rest
      && (o.hasSize ==> exists more :: src[6..] == Bytes8(size % U64) + more)
  {
    hide Checksum, Bytes8, Bytes4, FlagByte;
    var d := Descriptor(o, size);
    var src := Header(o, size) + rest;
    Enclosed([0x04, 0x22, 0x4D, 0x18], d, [Checksum(d) / 256 % 256], rest);
    if o.hasSize {
      var id := if o.dictId.Some? then Bytes4(o.dictId.value) else [];
      var more := id + [Checksum(d) / 256 % 256] + rest;
      assert src[6..] == Bytes8(size % U64) + more;
    }
  }

  lemma Enclosed(a: seq<byte>, d: seq<byte>, c: seq<byte>, rest: seq<byte>)
    requires |a| == 4 && |d| >= 2 && |c| == 1
    ensures var src := a + d + c + rest;
      && src[0] == a[0] && src[1] == a[1] && src[2] == a[2] && src[3] == a[3] && src[4] == d[0] && src[5] == d[1]
      && src[4..4 + |d|] == d && src[4 + |d|] == c[0] && src[5 + |d|..] == rest
  {
  }

  lemma HeaderBack(o: Options, size: nat, rest: seq<byte>)
    requires o.Valid()
    ensures Frame(Header(o, size) + rest) == Blocks(InfoOf(o, size), [], rest)
  {
    hide Checksum, Bytes8, Bytes4, FlagByte, Blocks, Header, Descriptor, Bit, BlockSize, Limit;
    var src := Header(o, size) + rest;
    HeaderParts(o, size, rest);
    FlagBits(o);
    IdBits(o.id);
    MagicBack(src);
    if o.hasSize {
      var more :| src[6..] == Bytes8(size % U64) + more;
      SizeBack(size, more);
      assert src[6..][4..] == src[10..];
    }
  }

  lemma MagicBack(src: seq<byte>)
    requires |src| >= 4 && src[0] == 0x04 && src[1] == 0x22 && src[2] == 0x4D && src[3] == 0x18
    ensures LE32(src) == MAGIC && !Skippable(src)
  {
  }

  /**
  For every header and every list of blocks, the meaning of the laid-out frame is its content, and what follows is left
  alone.
  */
  lemma FrameOfLay(o: Options, pieces: seq<Piece>, rest: seq<byte>)
    requires o.Valid() && AllFit(o, [], pieces)
    ensures Frame(Lay(o, pieces) + rest) == Done(Content(o, [], pieces), rest)
  {
    hide Frame, Header, Laid, Blocks, Content;
    var size := |Content(o, [], pieces)|;
    LaidBack(o, size, [], pieces, rest);
    HeaderBack(o, size, Laid(o, [], pieces) + rest);
    assert Lay(o, pieces) + rest == Header(o, size) + (Laid(o, [], pieces) + rest);
  }

  /** A skippable frame has no content. */
  lemma FrameOfSkippable(k: nat, bytes: seq<byte>, rest: seq<byte>)
    requires k < 16 && |bytes| < U32
    ensures Frame([0x50 + k, 0x2A, 0x4D, 0x18] + Bytes4(|bytes|) + bytes + rest) == Done([], rest)
  {
    hide Bytes4;
    var src := [0x50 + k, 0x2A, 0x4D, 0x18] + Bytes4(|bytes|) + bytes + rest;
    assert src[0] == 0x50 + k && src[1] == 0x2A && src[2] == 0x4D && src[3] == 0x18;
    assert src[4..] == Bytes4(|bytes|) + (bytes + rest);
    hide LE32;
    SkippableMagic(src, k);
    LE32Back(|bytes|, bytes + rest);
    assert (bytes + rest)[|bytes|..] == rest;
  }

  lemma SkippableMagic(src: seq<byte>, k: nat)
    requires |src| >= 4 && k < 16 && src[0] == 0x50 + k && src[1] == 0x2A && src[2] == 0x4D && src[3] == 0x18
    ensures Skippable(src)
  {
  }

  /**
  Headers that are refused, whatever follows: another version, a reserved bit, a block size below 64 KB, or a wrong
  check byte.
  */
  lemma HeaderRefused(src: seq<byte>)
    requires |src| >= 19 && src[..4] == [0x04, 0x22, 0x4D, 0x18]
    requires var n := 7 + If(src[4] / 8 % 2 == 1, 8) + If(src[4] % 2 == 1, 4);
      || src[4] / 64 != 1 || src[4] / 2 % 2 == 1 || src[5] >= 128 || src[5] < 64 || src[5] % 16 != 0
      || src[n - 1] != Checksum(src[4..n - 1]) / 256 % 256
    ensures Frame(src) == Fail
  {
    hide Checksum, Blocks, LE32;
    assert src[0] == src[..4][0] && src[1] == src[..4][1] && src[2] == src[..4][2] && src[3] == src[..4][3];
    MagicBack(src);
  }
}
