/**
What the database holds for a value and how it comes back: the optional version prefix, the compression
header with its 254/255 status byte, the choice to compress, and the reusable read buffer that is
reallocated at most once per read.
*/
module StoredValue {
  import opened Bytes
  import opened Lz4Format
  import opened Lz4Copy
  import Lz4Decoder
  import Lz4Encoder

  const STATUS_BYTES := 250
  const LONG_SIZE := 0x100_0000
  const NOT_FOUND := 0xffff_ffff
  const MIN_BUFFER := 0x1000
  const MAX_BUFFER := 0xffff_fff8
  const INT_MAX := 0x7fff_ffff

  // ---------------------------------------------------------------- compression header

  /** Header in front of a block for a value of `n` bytes; `garbage` is the byte the long form leaves unset. */
  function Header(n: nat, garbage: byte): (h: seq<byte>)
    requires n < U32
  {
    if n < LONG_SIZE then [254, n / 65536, n / 256 % 256, n % 256]
    else [255, garbage, 0, 0, n / 0x100_0000, n / 65536 % 256, n / 256 % 256, n % 256]
  }

  /** Value size and header size as Compression::decompress reads them; None for an unknown status byte. */
  function ReadHeader(data: seq<byte>): (r: Option<(nat, nat)>)
    requires |data| >= 8 || (|data| >= 4 && data[0] != 255)
  {
    if data[0] == 254 then Some((BigEndian(0, data[1], data[2], data[3]), 4))
    else if data[0] == 255 then Some((BigEndian(data[4], data[5], data[6], data[7]), 8))
    else None
  }

  function BigEndian(a: nat, b: nat, c: nat, d: nat): nat { 0x100_0000 * a + 65536 * b + 256 * c + d }

  lemma HeaderRoundTrip(n: nat, garbage: byte, block: seq<byte>)
    requires n < U32
    ensures var h := Header(n, garbage);
      |h + block| >= |h| >= 4 && (h[0] == 255 ==> |h| == 8) && (h + block)[|h|..] == block && h[0] >= STATUS_BYTES
      && ReadHeader(h + block) == Some((n, |h|))
  {
    hide BigEndian;
    HeaderBack(n, garbage);
    var h := Header(n, garbage);
    assert forall k :: 0 <= k < |h| ==> (h + block)[k] == h[k];
  }

  /** The bytes of a header: status byte, and the length with its most significant byte first. */
  lemma HeaderLayout(n: nat, garbage: byte)
    requires n < U32
    ensures var h := Header(n, garbage);
      if n < 0x100_0000 then |h| == 4 && h[0] == 254 && n == BigEndian(0, h[1], h[2], h[3])
      else |h| == 8 && h[0] == 255 && n == BigEndian(h[4], h[5], h[6], h[7])
  {
    Digits4(n);
    if n < LONG_SIZE {
      assert n / 0x100_0000 == 0 && n / 65536 % 256 == n / 65536;
    }
  }

  lemma HeaderBack(n: nat, garbage: byte)
    requires n < U32
    ensures var h := Header(n, garbage);
      |h| == (if n < LONG_SIZE then 4 else 8) && ReadHeader(h) == Some((n, |h|))
  {
    hide BigEndian;
    Digits4(n);
    if n < LONG_SIZE {
      assert n / 0x100_0000 == 0 && n / 65536 % 256 == n / 65536;
    }
  }

  lemma Digits4(n: nat)
    ensures BigEndian(n / 0x100_0000, n / 65536 % 256, n / 256 % 256, n % 256) == n
  {
    var c := n / 256;
    var b := c / 256;
    assert n / 65536 == b;
    assert n / 0x100_0000 == b / 256;
  }

  // ---------------------------------------------------------------- what stored bytes mean

  /** `data` is a header and a block that decodes, against `dict`, to the value. */
  ghost predicate Packed(data: seq<byte>, value: seq<byte>, dict: seq<byte>) {
    && (|data| >= 8 || (|data| >= 4 && data[0] != 255)) && data[0] >= STATUS_BYTES
    && ReadHeader(data).Some?
    && var (size, header) := ReadHeader(data).value;
    && header <= |data| <= INT_MAX && size == |value| <= INT_MAX
    && Decode(data[header..], 0, dict) == Some(dict + value)
    && Legal(data[header..], 0, dict, |dict| + |value|)
    && (value == [] ==> data[header..] == [0])
  }

  /** `data` stands for the value, raw or packed; without compression there are only raw values. */
  ghost predicate Stands(data: seq<byte>, value: seq<byte>, compression: bool, dict: seq<byte>) {
    || (data == value && |value| <= INT_MAX && (compression && value != [] ==> value[0] < STATUS_BYTES))
    || (compression && Packed(data, value, dict))
  }

  /** Database contents of a value: a version of eight bytes, if the store keeps them, and the data. */
  ghost predicate Holding(stored: seq<byte>, version: seq<byte>, value: seq<byte>, hasVersions: bool, compression: bool,
      dict: seq<byte>) {
    if hasVersions then
      && |version| == 8 && |stored| >= 8 && stored[..8] == version
      && Stands(stored[8..], value, compression, dict)
    else Stands(stored, value, compression, dict)
  }

  // ---------------------------------------------------------------- the store

  /** What Compression::compress makes of a value. */
  datatype Compressed = Untouched | Failed | Done(data: seq<byte>)

  class Store {
    const hasVersions: bool
    const compression: bool
    const threshold: nat
    const dictionary: seq<byte>
    const stream: Lz4Encoder.Stream
    // the dictionary (when compressing) followed by the target area for values
    var buffer: array<byte>
    var maxLength: nat

    function Target(): nat { if compression then |dictionary| else 0 }

    ghost predicate Valid()
      reads this, buffer, stream
    {
      && buffer.Length == Target() + maxLength && maxLength <= MAX_BUFFER
      && (compression ==> buffer[..Target()] == dictionary)
      && stream.hashTable.Length == Lz4Encoder.HASH_SIZE
    }

    /** Compression starts on the dictionary rounded down to whole words, with no room for values. */
    constructor (hasVersions: bool, compression: bool, threshold: nat, dictionaryOption: seq<byte>)
      ensures Valid() && fresh(buffer) && fresh(stream) && fresh(stream.hashTable)
      ensures this.hasVersions == hasVersions && this.compression == compression && this.threshold == threshold
      ensures dictionary == dictionaryOption[..|dictionaryOption| / 8 * 8] && maxLength == 0
    {
      this.hasVersions, this.compression, this.threshold := hasVersions, compression, threshold;
      var dict := dictionaryOption[..|dictionaryOption| / 8 * 8];
      dictionary := dict;
      stream := new Lz4Encoder.Stream();
      maxLength := 0;
      var size := if compression then |dict| else 0;
      buffer := new byte[size](i requires 0 <= i < size => dict[i]);
    }

    // -------------------------------------------------------------- writing

    /** Compression::compress. `garbage` is whatever the fresh memory held at the unset header byte. */
    method Compress(value: seq<byte>, garbage: byte) returns (r: Compressed)
      requires Valid() && |value| < U32
      modifies stream, stream.hashTable
      ensures Valid()
      ensures r.Untouched? <==> |value| < threshold && (value == [] || value[0] < STATUS_BYTES)
      ensures r.Failed? <==> !r.Untouched? && |value| > Lz4Encoder.MAX_INPUT_SIZE
      ensures r.Done? ==> Packed(r.data, value, dictionary) && |r.data| <= |value| + |value| / 255 + 16 + 8
    {
      hide Decode, Legal, Lz4Encoder.Encodes, Header, ReadHeader, Lz4Encoder.TableOk;
      if |value| < threshold && !(|value| > 0 && value[0] >= STATUS_BYTES) { return Untouched; }
      var compressed := new byte[Lz4Encoder.CompressBound(|value|)];
      var _ := stream.LoadDict(dictionary);
      var n := stream.CompressFastContinue(value, true, compressed, compressed.Length, 1);
      if n == 0 { return Failed; }
      var block, h := compressed[..n], Header(|value|, garbage);
      Lz4Encoder.KeptSuffices(block, dictionary, value);
      HeaderRoundTrip(|value|, garbage, block);
      HeaderSize(|value|, garbage);
      r := Done(h + block);
    }

    /** Whether a request to compress the value is not made, or succeeds. */
    predicate Compressible(value: seq<byte>, next: byte) {
      if value == [] then threshold == 0 || next < STATUS_BYTES
      else |value| <= Lz4Encoder.MAX_INPUT_SIZE || (|value| < threshold && value[0] < STATUS_BYTES)
    }

    /**
    The data written for a value. The JavaScript side asks for compression by size or by the first byte it finds
    at the value's place, which for an empty value is an unrelated byte `next`. None: a requested compression
    produced nothing, so the instruction never gets its data.
    */
    method Encode(value: seq<byte>, next: byte, garbage: byte) returns (data: Option<seq<byte>>)
      requires Valid() && |value| < U32
      modifies stream, stream.hashTable
      ensures Valid()
      ensures data.Some? && |value| <= INT_MAX ==> Stands(data.value, value, compression, dictionary)
      ensures data.None? <==> compression && !Compressible(value, next)
    {
      hide Packed;
      var mustCompress := (if value == [] then next else value[0]) >= STATUS_BYTES;
      data := Some(value);
      if compression && (|value| >= threshold || mustCompress) {
        var r := Compress(value, garbage);
        data := if r.Done? then Some(r.data) else None;
      }
    }

    // -------------------------------------------------------------- reading

    /** Compression::decompress; `size` is the value's size even when it does not fit. */
    method Decompress(data: seq<byte>, ghost value: seq<byte>) returns (isValid: bool, size: nat)
      requires Valid() && compression && Packed(data, value, dictionary)
      modifies buffer
      ensures Valid() && size == |value|
      ensures isValid <==> |value| <= maxLength
      ensures isValid ==> buffer[Target()..Target() + size] == value
    {
      hide Decode, Legal, ReadHeader;
      var r := ReadHeader(data);
      size := r.value.0;
      if size > maxLength { return false, size; }
      var block := data[r.value.1..];
      assert buffer[Target() - |dictionary|..Target()] == buffer[..Target()];
      assert Lz4Decoder.DictionaryBytes(Lz4Decoder.Before(|dictionary|), buffer, Target()) == dictionary;
      var written := Lz4Decoder.DecompressSafeUsingDict(block, buffer, Target(), size, Lz4Decoder.Before(|dictionary|));
      isValid := written >= 0;
      assert buffer[..Target()] == dictionary;
      SameValue(dictionary, value, buffer[Target()..Target() + written]);
    }

    /** DbiWrap::doGetByBinary on the stored bytes: returns the value's size and, if there is room, copies the value. */
    method GetByBinary(stored: Option<seq<byte>>, ghost value: seq<byte>, ghost version: seq<byte>)
        returns (size: nat, lastVersion: seq<byte>)
      requires Valid()
      requires stored.Some? ==> Holding(stored.value, version, value, hasVersions, compression, dictionary)
      modifies buffer
      ensures Valid()
      ensures stored.None? ==> size == NOT_FOUND
      ensures stored.Some? ==> size == |value| && (hasVersions ==> lastVersion == version)
      ensures stored.Some? && |value| <= maxLength ==> buffer[Target()..Target() + |value|] == value
    {
      hide Packed;
      lastVersion := [];
      if stored.None? { return NOT_FOUND, lastVersion; }
      var data := stored.value;
      if hasVersions {
        lastVersion, data := data[..8], data[8..];
      }
      if compression && data != [] && data[0] >= STATUS_BYTES {
        var isValid;
        isValid, size := Decompress(data, value);
      } else {
        RawStands(data, value, compression, dictionary);
        size := |data|;
        if size <= maxLength {
          CopyIn(buffer, Target(), data, 0, size);
          Copied(buffer, Target(), data, 0, size);
          assert compression ==> buffer[..Target()] == dictionary;
        }
      }
    }

    /** _allocateGetBuffer: a larger buffer, with the dictionary copied to its start. */
    method AllocateGetBuffer(lastSize: nat)
      requires Valid() && lastSize <= MAX_BUFFER
      modifies this
      ensures Valid() && fresh(buffer) && maxLength >= lastSize
      ensures || maxLength == MIN_BUFFER || maxLength == 2 * lastSize >= MIN_BUFFER
              || maxLength == MAX_BUFFER < 2 * lastSize
    {
      var newLength := Min(Max(lastSize * 2, MIN_BUFFER), MAX_BUFFER);
      var size := Target() + newLength;
      var dict := dictionary;
      var prefix := Target();
      buffer := new byte[size](i requires 0 <= i < size => if i < prefix && i < |dict| then dict[i] else 0);
      maxLength := newLength;
    }

    /** getBinaryFast: reads, and if the value did not fit grows the buffer and reads once more. */
    method GetBinaryFast(stored: Option<seq<byte>>, ghost value: seq<byte>, ghost version: seq<byte>)
      returns (bytes: Option<seq<byte>>, lastVersion: seq<byte>, reallocations: nat)
      requires Valid()
      requires stored.Some? ==> Holding(stored.value, version, value, hasVersions, compression, dictionary)
      modifies this, buffer
      ensures Valid() && reallocations <= 1
      ensures bytes == if stored.Some? then Some(value) else None
      ensures stored.Some? && hasVersions ==> lastVersion == version
      ensures reallocations == 0 ==> buffer == old(buffer)
      ensures reallocations == 1 <==> stored.Some? && |value| > old(maxLength)
    {
      hide Holding;
      reallocations := 0;
      var lastSize;
      if stored.Some? { HoldingSize(stored.value, version, value, hasVersions, compression, dictionary); }
      lastSize, lastVersion := GetByBinary(stored, value, version);
      if lastSize > maxLength {
        if lastSize == NOT_FOUND { return None, lastVersion, 0; }
        AllocateGetBuffer(lastSize);
        reallocations := 1;
        lastSize, lastVersion := GetByBinary(stored, value, version);
      }
      bytes := Some(buffer[Target()..Target() + lastSize]);
    }

    /** A value put into a store, and read back through whatever buffer is there, is the same value and version. */
    method PutThenGet(value: seq<byte>, version: seq<byte>, next: byte, garbage: byte)
      returns (written: bool, bytes: Option<seq<byte>>, lastVersion: seq<byte>, reallocations: nat)
      requires Valid() && |value| <= INT_MAX - 8 && |version| == 8
      modifies this, buffer, stream, stream.hashTable
      ensures Valid()
      ensures written ==> bytes == Some(value) && (hasVersions ==> lastVersion == version) && reallocations <= 1
      ensures written <==> !compression || Compressible(value, next)
    {
      hide Stands;
      bytes, lastVersion, reallocations := None, [], 0;
      var data := Encode(value, next, garbage);
      written := data.Some?;
      if written {
        var stored := WithVersion(data.value, version);
        assert hasVersions ==> stored[8..] == data.value;
        bytes, lastVersion, reallocations := GetBinaryFast(Some(stored), value, version);
      }
    }

    /** putWithVersion: eight bytes of version in front of the data. */
    function WithVersion(data: seq<byte>, version: seq<byte>): (stored: seq<byte>)
      requires |version| == 8
    {
      if hasVersions then version + data else data
    }
  }

  // ---------------------------------------------------------------- helpers

  lemma HeaderSize(n: nat, garbage: byte)
    requires n < U32
    ensures |Header(n, garbage)| <= 8
  {
  }

  lemma SameValue(dict: seq<byte>, a: seq<byte>, b: seq<byte>)
    requires dict + a == dict + b
    ensures a == b
  {
    assert a == (dict + a)[|dict|..] == (dict + b)[|dict|..] == b;
  }

  /** Data that shows no status byte is the value itself. */
  lemma RawStands(data: seq<byte>, value: seq<byte>, compression: bool, dict: seq<byte>)
    requires Stands(data, value, compression, dict)
    requires !(compression && data != [] && data[0] >= STATUS_BYTES)
    ensures data == value
  {
    hide Decode, Legal, ReadHeader;
  }

  lemma HoldingSize(stored: seq<byte>, version: seq<byte>, value: seq<byte>, hasVersions: bool, compression: bool,
      dict: seq<byte>)
    requires Holding(stored, version, value, hasVersions, compression, dict)
    ensures |value| <= MAX_BUFFER
  {
    hide Decode, Legal;
  }
}
