/**
The binary layout of write instructions: what writeInstructions stores into the 64 KB instruction buffers and
what DoWrites reads back, byte by byte and across buffers. Positions count units of eight bytes. Numbers that
JavaScript stores as float64 and the worker reads as double or pointer are kept as their eight bytes.
*/
module InstructionLayout {
  import opened Bytes
  import opened Lz4Copy

  const BUFFER_SIZE := 0x10000
  const UNITS := BUFFER_SIZE / 8
  const POINTER_NEXT := 3
  const BLOCK_END := 2

  type Bits = b: seq<byte> | |b| == 8 witness [0, 0, 0, 0, 0, 0, 0, 0]

  datatype Value = Value(size: nat, pointer: Bits, compressor: Option<Bits>)

  /** An instruction without a key, or with a key and whatever options go with it. */
  datatype Fields =
    | Plain(code: nat, dbi: nat, strict: bool, delete: bool)
    | Keyed(code: nat, dbi: nat, key: seq<byte>, value: Option<Value>, noExists: bool, noDuplicate: bool,
        append: bool, delete: bool,
            ifVersion: Option<Bits>, version: Option<Bits>)
  {
    /** Codes: bit 2 tells a key, bit 1 a value; a keyless instruction is no link to another buffer and not empty. */
    predicate Valid() {
      && dbi < U32 && 0 < code < 16
      && (Plain? ==> code / 4 % 2 == 0 && code != POINTER_NEXT)
      && (Keyed? ==> code / 4 % 2 == 1 && |key| < U32 && (value.Some? <==> code / 2 % 2 == 1))
      && (Keyed? && value.Some? ==> value.value.size < U32)
    }
  }

  // ---------------------------------------------------------------- layout

  function LE32(n: nat): (b: seq<byte>)
    requires n < U32
    ensures |b| == 4
  {
    [n % 256, n / 256 % 256, n / 65536 % 256, n / 0x100_0000]
  }

  function Read32(b: seq<byte>): (n: nat)
    requires |b| == 4
  {
    Compose(b[0], b[1], b[2], b[3])
  }

  function Compose(a: int, b: int, c: int, d: int): int { a + 256 * b + 65536 * c + 0x100_0000 * d }

  lemma Read32OfLE32(n: nat)
    requires n < U32
    ensures Read32(LE32(n)) == n
  {
    var c := n / 256;
    var b := c / 256;
    assert n / 65536 == b;
    assert n / 0x100_0000 == b / 256;
  }

  function Bit(on: bool, weight: nat): nat { if on then weight else 0 }

  /** The flag word, byte by byte. */
  function Flags(f: Fields): (b: seq<byte>)
    requires f.Valid()
    ensures |b| == 4
  {
    match f
    case Plain(code, _, strict, delete) => [code, Bit(delete, 4), Bit(strict, 16), 0]
    case Keyed(code, _, _, value, noExists, noDuplicate, append, delete, ifVersion, version) =>
      [code + Bit(noExists, 16) + Bit(noDuplicate, 32),
       Bit(ifVersion.Some?, 1) + Bit(version.Some?, 2) + Bit(delete, 4),
       Bit(append, 2) + Bit(value.Some? && value.value.compressor.Some?, 16), 0]
  }

  /** Bytes between the end of a key and the value size: at least five, up to the next unit. */
  function Padding(keySize: nat): (n: nat)
    ensures 5 <= n <= 12 && (12 + keySize + n + 4) % 8 == 0
    ensures 12 + keySize + n + 4 == (keySize + 28) / 8 * 8
  {
    (keySize + 28) / 8 * 8 - 16 - keySize
  }

  function Optional(b: Option<Bits>): (r: seq<byte>)
    ensures |r| == if b.Some? then 8 else 0
  {
    if b.Some? then b.value else []
  }

  function ValueBytes(v: Option<Value>): (r: seq<byte>)
    requires v.Some? ==> v.value.size < U32
    ensures |r| == 4 + (if v.Some? then 8 + (if v.value.compressor.Some? then 8 else 0) else 0)
  {
    if v.Some? then LE32(v.value.size) + v.value.pointer + Optional(v.value.compressor) else Zeros(4)
  }

  /** The bytes of an instruction, in a buffer that was zero before. */
  function Image(f: Fields): (b: seq<byte>)
    requires f.Valid()
  {
    match f
    case Plain(_, dbi, _, _) => Flags(f) + LE32(dbi)
    case Keyed(_, dbi, key, value, _, _, _, _, ifVersion, version) =>
      (Flags(f) + LE32(dbi) + LE32(|key|) + key + Zeros(Padding(|key|)))
      + (ValueBytes(value) + Optional(ifVersion) + Optional(version))
  }

  /** Units an instruction takes. */
  function Units(f: Fields): (n: nat)
    requires f.Valid()
    ensures 8 * n == |Image(f)|
    ensures n >= 1
  {
    match f
    case Plain(_, _, _, _) => 1
    case Keyed(_, _, key, value, _, _, _, _, ifVersion, version) =>
      (|key| + 28) / 8 + Count(value.Some?) + Count(value.Some? && value.value.compressor.Some?)
      + Count(ifVersion.Some?) + Count(version.Some?)
  }

  function Count(on: bool): nat { if on then 1 else 0 }

  // ---------------------------------------------------------------- reading

  function Slice(buf: seq<byte>, at: nat, n: nat): (r: Option<seq<byte>>)
    ensures r.Some? ==> |r.value| == n
  {
    if at + n <= |buf| then Some(buf[at..at + n]) else None
  }

  predicate Has(b: byte, weight: nat)
    requires weight > 0
  {
    b / weight % 2 == 1
  }

  /** An optional eight-byte field at `at`: the field and where the next one starts. */
  function ReadOptional(buf: seq<byte>, at: nat, present: bool): Option<(Option<Bits>, nat)> {
    if !present then Some((None, at))
    else
      match Slice(buf, at, 8)
      case None => None
      case Some(b) => Some((Some(b), at + 8))
  }

  /** Value size in front of `at`, value pointer at `at`, and the compressor behind it. */
  function ReadValue(buf: seq<byte>, at: nat, present: bool, compressible: bool): Option<(Option<Value>, nat)>
    requires at >= 4
  {
    if !present then Some((None, at))
    else
      match (Slice(buf, at - 4, 4), Slice(buf, at, 8), ReadOptional(buf, at + 8, compressible))
      case (Some(size), Some(pointer), Some((compressor, next))) =>
        Some((Some(Value(Read32(size), pointer, compressor)), next))
      case _ => None
  }

  /** The options of a keyed instruction, from the unit behind its key on. */
  function ReadOptions(buf: seq<byte>, flags: seq<byte>, dbi: nat, key: seq<byte>, at: nat): Option<(Fields, nat)>
    requires |flags| == 4 && at >= 4
  {
    match ReadValue(buf, at, Has(flags[0], 2), Has(flags[2], 16))
    case None => None
    case Some((value, a)) =>
      match ReadOptional(buf, a, Has(flags[1], 1))
      case None => None
      case Some((ifVersion, b)) =>
        match ReadOptional(buf, b, Has(flags[1], 2))
        case None => None
        case Some((version, c)) =>
          Some((Keyed(flags[0] % 16, dbi, key, value, Has(flags[0], 16), Has(flags[0], 32), Has(flags[2], 2),
                      Has(flags[1], 4), ifVersion, version), c))
  }

  /** DoWrites at byte `at`: the instruction there, and where the next one starts. */
  function ReadInstruction(buf: seq<byte>, at: nat): Option<(Fields, nat)> {
    match (Slice(buf, at, 4), Slice(buf, at + 4, 4))
    case (Some(flags), Some(dbi)) =>
      if Has(flags[0], 4) then ReadKeyed(buf, at, flags, Read32(dbi))
      else Some((Plain(flags[0] % 16, Read32(dbi), Has(flags[2], 16), Has(flags[1], 4)), at + 8))
    case _ => None
  }

  function ReadKeyed(buf: seq<byte>, at: nat, flags: seq<byte>, dbi: nat): Option<(Fields, nat)>
    requires |flags| == 4
  {
    match Slice(buf, at + 8, 4)
    case None => None
    case Some(size) =>
      var n := Read32(size);
      match Slice(buf, at + 12, n)
      case None => None
      case Some(key) => ReadOptions(buf, flags, dbi, key, (at + 12 + n + 16) / 8 * 8)
  }

  // ---------------------------------------------------------------- round trip

  /** `part` lies in `buf` at `at`. */
  predicate Lies(buf: seq<byte>, at: nat, part: seq<byte>) { at + |part| <= |buf| && buf[at..at + |part|] == part }

  lemma LiesFirst(buf: seq<byte>, at: nat, a: seq<byte>, b: seq<byte>)
    requires Lies(buf, at, a + b)
    ensures Lies(buf, at, a) && Lies(buf, at + |a|, b)
  {
    var c := buf[at..at + |a + b|];
    assert c[..|a|] == a && c[|a|..] == b;
    assert c[..|a|] == buf[at..at + |a|] && c[|a|..] == buf[at + |a|..at + |a| + |b|];
  }

  lemma OptionalBack(buf: seq<byte>, at: nat, b: Option<Bits>)
    requires Lies(buf, at, Optional(b))
    ensures ReadOptional(buf, at, b.Some?) == Some((b, at + |Optional(b)|))
  {
  }

  lemma ValueBack(buf: seq<byte>, at: nat, v: Option<Value>)
    requires at >= 4 && (v.Some? ==> v.value.size < U32) && Lies(buf, at - 4, ValueBytes(v))
    ensures ReadValue(buf, at, v.Some?, v.Some? && v.value.compressor.Some?) == Some((v, at - 4 + |ValueBytes(v)|))
  {
    hide LE32, Read32, ReadOptional, Lies, Optional;
    if v.Some? {
      LiesFirst(buf, at - 4, LE32(v.value.size) + v.value.pointer, Optional(v.value.compressor));
      LiesFirst(buf, at - 4, LE32(v.value.size), v.value.pointer);
      OptionalBack(buf, at + 8, v.value.compressor);
      Read32OfLE32(v.value.size);
      LiesSlice(buf, at - 4, LE32(v.value.size));
      LiesSlice(buf, at, v.value.pointer);
    }
  }

  lemma LiesSlice(buf: seq<byte>, at: nat, part: seq<byte>)
    requires Lies(buf, at, part)
    ensures Slice(buf, at, |part|) == Some(part)
  {
  }

  /** The flag bytes give back the code and every option bit. */
  lemma FlagsBack(f: Fields)
    requires f.Valid()
    ensures var b := Flags(f);
      && b[0] % 16 == f.code && (Has(b[0], 4) <==> f.Keyed?)
      && (f.Plain? ==> Has(b[2], 16) == f.strict && Has(b[1], 4) == f.delete)
      && (f.Keyed? ==>
            && Has(b[0], 2) == f.value.Some? && Has(b[0], 16) == f.noExists && Has(b[0], 32) == f.noDuplicate
            && Has(b[1], 1) == f.ifVersion.Some? && Has(b[1], 2) == f.version.Some? && Has(b[1], 4) == f.delete
            && Has(b[2], 2) == f.append && Has(b[2], 16) == (f.value.Some? && f.value.value.compressor.Some?))
  {
    hide Bit, Has;
    if f.Plain? {
      FirstByte(f.code, false, false);
      OtherByte(false, false, f.delete);
      LastByte(false, f.strict);
    } else {
      FirstByte(f.code, f.noExists, f.noDuplicate);
      OtherByte(f.ifVersion.Some?, f.version.Some?, f.delete);
      LastByte(f.append, f.value.Some? && f.value.value.compressor.Some?);
    }
  }

  /** The flag word as a number: the code and the weights of the options. */
  lemma FlagWord(f: Fields)
    requires f.Valid()
    ensures Read32(Flags(f)) == f.code + Bit(f.delete, 0x400) +
      (match f
       case Plain(_, _, strict, _) => Bit(strict, 0x10_0000)
       case Keyed(_, _, _, value, noExists, noDuplicate, append, _, ifVersion, version) =>
         Bit(noExists, 0x10) + Bit(noDuplicate, 0x20) + Bit(ifVersion.Some?, 0x100) + Bit(version.Some?, 0x200)
         + Bit(append, 0x2_0000) + Bit(value.Some? && value.value.compressor.Some?, 0x10_0000))
  {
  }

  /** Only a DROP_DB without options has a flag word of 12. */
  lemma BareDrop(f: Fields)
    requires f.Valid()
    ensures f.Keyed? && f.key == [] ==>
      (Flags(f) == [12, 0, 0, 0] <==> f == Keyed(12, f.dbi, [], None, false, false, false, false, None, None))
  {
    hide Has, Bit;
    FlagsBack(f);
    NoFlags();
  }

  lemma NoFlags()
    ensures Bit(false, 1) == Bit(false, 2) == Bit(false, 4) == Bit(false, 16) == Bit(false, 32) == 0
    ensures !Has(0, 1) && !Has(0, 2) && !Has(0, 4) && !Has(0, 16) && !Has(12, 2) && !Has(12, 16) && !Has(12, 32)
  {
  }

  lemma FirstByte(code: nat, a: bool, b: bool)
    requires code < 16
    ensures var n := code + Bit(a, 16) + Bit(b, 32);
      && n < 256 && n % 16 == code && Has(n, 2) == (code / 2 % 2 == 1) && Has(n, 4) == (code / 4 % 2 == 1)
      && Has(n, 16) == a && Has(n, 32) == b
    ensures Bit(false, 16) == Bit(false, 32) == 0
  {
    var h := Count(a) + 2 * Count(b);
    var n := code + 16 * h;
    assert n / 16 == h && n % 16 == code;
    assert n / 4 == code / 4 + 4 * h && n / 2 == code / 2 + 8 * h;
    assert n / 32 == h / 2;
  }

  lemma OtherByte(a: bool, b: bool, c: bool)
    ensures var n := Bit(a, 1) + Bit(b, 2) + Bit(c, 4);
      n < 256 && Has(n, 1) == a && Has(n, 2) == b && Has(n, 4) == c
    ensures Bit(false, 1) == Bit(false, 2) == 0
  {
  }

  lemma LastByte(a: bool, b: bool)
    ensures var n := Bit(a, 2) + Bit(b, 16);
      n < 256 && Has(n, 2) == a && Has(n, 16) == b
    ensures Bit(false, 2) == 0
  {
  }

  lemma OptionsBack(buf: seq<byte>, at: nat, f: Fields)
    requires f.Valid() && f.Keyed? && at >= 4
    requires Lies(buf, at - 4, ValueBytes(f.value) + Optional(f.ifVersion) + Optional(f.version))
    ensures ReadOptions(buf, Flags(f), f.dbi, f.key, at)
      == Some((f, at - 4 + |ValueBytes(f.value)| + |Optional(f.ifVersion)| + |Optional(f.version)|))
  {
    hide Flags, Has, ReadValue, ReadOptional, Lies, ValueBytes, Optional;
    FlagsBack(f);
    LiesFirst(buf, at - 4, ValueBytes(f.value) + Optional(f.ifVersion), Optional(f.version));
    LiesFirst(buf, at - 4, ValueBytes(f.value), Optional(f.ifVersion));
    ValueBack(buf, at, f.value);
    var a := at - 4 + |ValueBytes(f.value)|;
    OptionalBack(buf, a, f.ifVersion);
    OptionalBack(buf, a + |Optional(f.ifVersion)|, f.version);
  }

  lemma KeyedBack(buf: seq<byte>, at: nat, f: Fields)
    requires f.Valid() && f.Keyed? && at % 8 == 0 && Lies(buf, at, Image(f))
    ensures ReadInstruction(buf, at) == Some((f, at + |Image(f)|))
  {
    hide Image, ReadInstruction, Flags, ReadOptions, Lies, ValueBytes, Optional, LE32, Padding;
    var head := Flags(f) + LE32(f.dbi) + LE32(|f.key|) + f.key;
    var options := ValueBytes(f.value) + Optional(f.ifVersion) + Optional(f.version);
    ImageKeyed(f);
    LiesFirst(buf, at, head + Zeros(Padding(|f.key|)), options);
    LiesFirst(buf, at, head, Zeros(Padding(|f.key|)));
    HeadBack(buf, at, f);
    Aligned(at, |f.key|);
    OptionsBack(buf, at + 16 + |f.key| + Padding(|f.key|), f);
  }

  lemma ImageKeyed(f: Fields)
    requires f.Valid() && f.Keyed?
    ensures Image(f) == (Flags(f) + LE32(f.dbi) + LE32(|f.key|) + f.key + Zeros(Padding(|f.key|)))
      + (ValueBytes(f.value) + Optional(f.ifVersion) + Optional(f.version))
  {
  }

  /** The words in front of the options, read back. */
  lemma HeadBack(buf: seq<byte>, at: nat, f: Fields)
    requires f.Valid() && f.Keyed? && Lies(buf, at, Flags(f) + LE32(f.dbi) + LE32(|f.key|) + f.key)
    ensures ReadInstruction(buf, at)
      == ReadOptions(buf, Flags(f), f.dbi, f.key, (at + 12 + |f.key| + 16) / 8 * 8)
  {
    hide Flags, Has, ReadOptions, Lies, LE32, Read32, Slice;
    LiesFirst(buf, at, Flags(f) + LE32(f.dbi) + LE32(|f.key|), f.key);
    LiesFirst(buf, at, Flags(f) + LE32(f.dbi), LE32(|f.key|));
    LiesFirst(buf, at, Flags(f), LE32(f.dbi));
    LiesSlice(buf, at, Flags(f));
    LiesSlice(buf, at + 4, LE32(f.dbi));
    LiesSlice(buf, at + 8, LE32(|f.key|));
    LiesSlice(buf, at + 12, f.key);
    Read32OfLE32(f.dbi);
    Read32OfLE32(|f.key|);
    FlagsBack(f);
  }

  /** The worker's rounding of the address behind the key lands on the unit the layout continues at. */
  lemma Aligned(at: nat, keySize: nat)
    requires at % 8 == 0
    ensures (at + 12 + keySize + 16) / 8 * 8 == at + 16 + keySize + Padding(keySize)
  {
    var u := at / 8;
    assert at == 8 * u;
    assert (8 * u + (keySize + 28)) / 8 == u + (keySize + 28) / 8;
  }

  /** DoWrites reads back, from wherever it lies, exactly the instruction that was laid out, and where it ends. */
  lemma ReadsBack(buf: seq<byte>, at: nat, f: Fields)
    requires f.Valid() && at % 8 == 0 && Lies(buf, at, Image(f))
    ensures ReadInstruction(buf, at) == Some((f, at + 8 * Units(f)))
  {
    hide Flags, Has, Lies, LE32, Read32, Slice;
    if f.Keyed? {
      KeyedBack(buf, at, f);
    } else {
      LiesFirst(buf, at, Flags(f), LE32(f.dbi));
      LiesSlice(buf, at, Flags(f));
      LiesSlice(buf, at + 4, LE32(f.dbi));
      Read32OfLE32(f.dbi);
      FlagsBack(f);
    }
  }

  // ---------------------------------------------------------------- writing

  /** Up to `base` as before, then `image`, then zeros to the end. */
  ghost predicate Written(s: seq<byte>, before: seq<byte>, base: nat, image: seq<byte>) {
    && |s| == |before| && base + |image| <= |s|
    && s == before[..base] + image + Zeros(|s| - base - |image|)
  }

  lemma WrittenMore(s: seq<byte>, t: seq<byte>, before: seq<byte>, base: nat, image: seq<byte>, gap: nat,
      part: seq<byte>)
    requires Written(s, before, base, image) && base + |image| + gap + |part| <= |s| == |t|
    requires var at := base + |image| + gap;
      t == s[..at] + part + s[at + |part|..]
    ensures Written(t, before, base, image + Zeros(gap) + part)
  {
    var at := base + |image| + gap;
    assert s[..at] == before[..base] + image + Zeros(gap);
    assert s[at + |part|..] == Zeros(|s| - at - |part|);
    assert before[..base] + image + Zeros(gap) + part == before[..base] + (image + Zeros(gap) + part);
  }

  /** A plain store of some bytes. */
  method Store(buf: array<byte>, at: nat, part: seq<byte>)
    requires at + |part| <= buf.Length
    modifies buf
    ensures buf[..] == old(buf[..at]) + part + old(buf[at + |part|..])
  {
    CopyIn(buf, at, part, 0, |part|);
    Copied(buf, at, part, 0, |part|);
    assert buf[..] == buf[..at] + buf[at..at + |part|] + buf[at + |part|..];
    assert buf[..at] == old(buf[..at]) && buf[at + |part|..] == old(buf[at + |part|..]);
  }

  /** Stores behind what has been written, leaving a gap. */
  method Emit(buf: array<byte>, at: nat, gap: nat, part: seq<byte>, ghost before: seq<byte>, ghost base: nat,
      ghost image: seq<byte>) returns (next: nat)
    requires Written(buf[..], before, base, image) && at == base + |image| && at + gap + |part| <= buf.Length
    modifies buf
    ensures next == at + gap + |part| && Written(buf[..], before, base, image + Zeros(gap) + part)
  {
    ghost var s := buf[..];
    Store(buf, at + gap, part);
    assert s[..at + gap] == old(buf[..at + gap]) && s[at + gap + |part|..] == old(buf[at + gap + |part|..]);
    WrittenMore(s, buf[..], before, base, image, gap, part);
    next := at + gap + |part|;
  }

  lemma WrittenZeros(s: seq<byte>, before: seq<byte>, base: nat, image: seq<byte>, gap: nat)
    requires Written(s, before, base, image) && base + |image| + gap <= |s|
    ensures Written(s, before, base, image + Zeros(gap))
  {
    assert Zeros(gap) + Zeros(|s| - base - |image| - gap) == Zeros(|s| - base - |image|);
  }

  /** An optional field. */
  method EmitOptional(buf: array<byte>, at: nat, b: Option<Bits>, ghost before: seq<byte>, ghost base: nat,
      ghost image: seq<byte>) returns (next: nat)
    requires Written(buf[..], before, base, image) && at == base + |image| && at + |Optional(b)| <= buf.Length
    modifies buf
    ensures next == at + |Optional(b)| && Written(buf[..], before, base, image + Optional(b))
  {
    next := at;
    if b.Some? {
      next := Emit(buf, at, 0, b.value, before, base, image);
      assert image + Zeros(0) + b.value == image + b.value;
    } else {
      assert image + [] == image;
    }
  }

  /** The value size, and the value pointer and compressor behind it; without a value only the room is left. */
  method EmitValue(buf: array<byte>, at: nat, gap: nat, v: Option<Value>, ghost before: seq<byte>, ghost base: nat,
      ghost image: seq<byte>) returns (next: nat)
    requires v.Some? ==> v.value.size < U32
    requires Written(buf[..], before, base, image) && at == base + |image| && at + gap + |ValueBytes(v)| <= buf.Length
    modifies buf
    ensures next == at + gap + |ValueBytes(v)| && Written(buf[..], before, base, image + Zeros(gap) + ValueBytes(v))
  {
    hide LE32, Written;
    if v.Some? {
      next := Emit(buf, at, gap, LE32(v.value.size), before, base, image);
      ghost var i1 := image + Zeros(gap) + LE32(v.value.size);
      next := Emit(buf, next, 0, v.value.pointer, before, base, i1);
      ghost var i2 := i1 + Zeros(0) + v.value.pointer;
      next := EmitOptional(buf, next, v.value.compressor, before, base, i2);
      assert i2 + Optional(v.value.compressor) == image + Zeros(gap) + ValueBytes(v);
    } else {
      WrittenZeros(buf[..], before, base, image, gap);
      WrittenZeros(buf[..], before, base, image + Zeros(gap), 4);
      next := at + gap + 4;
    }
  }

  /** writeInstructions up to publication: everything but the flag word. */
  method WriteBody(buf: array<byte>, position: nat, f: Fields) returns (next: nat)
    requires f.Valid() && 8 * position + |Image(f)| <= buf.Length
    requires Written(buf[..], buf[..], 8 * position, [])
    modifies buf
    ensures next == position + Units(f) && Written(buf[..], old(buf[..]), 8 * position, Zeros(4) + Image(f)[4..])
  {
    hide LE32, Written, Flags, ValueBytes, Optional;
    ghost var before := buf[..];
    var base := 8 * position;
    var at := Emit(buf, base, 4, LE32(f.dbi), before, base, []);
    ghost var i1 := [] + Zeros(4) + LE32(f.dbi);
    if f.Keyed? {
      at := Emit(buf, at, 0, LE32(|f.key|), before, base, i1);
      ghost var i2 := i1 + Zeros(0) + LE32(|f.key|);
      at := Emit(buf, at, 0, f.key, before, base, i2);
      ghost var i3 := i2 + Zeros(0) + f.key;
      at := EmitValue(buf, at, Padding(|f.key|), f.value, before, base, i3);
      ghost var i4 := i3 + Zeros(Padding(|f.key|)) + ValueBytes(f.value);
      at := EmitOptional(buf, at, f.ifVersion, before, base, i4);
      at := EmitOptional(buf, at, f.version, before, base, i4 + Optional(f.ifVersion));
      KeyedBody(f);
    } else {
      assert i1 == Zeros(4) + Image(f)[4..];
    }
    next := at / 8;
  }

  lemma KeyedBody(f: Fields)
    requires f.Valid() && f.Keyed?
    ensures Zeros(4) + Image(f)[4..]
      == [] + Zeros(4) + LE32(f.dbi) + Zeros(0) + LE32(|f.key|) + Zeros(0) + f.key + Zeros(Padding(|f.key|))
        + ValueBytes(f.value)
         + Optional(f.ifVersion) + Optional(f.version)
  {
    hide LE32, Flags, ValueBytes, Optional;
    assert Image(f)[4..] == (LE32(f.dbi) + LE32(|f.key|) + f.key + Zeros(Padding(|f.key|)))
      + (ValueBytes(f.value) + Optional(f.ifVersion) + Optional(f.version));
  }

  lemma WrittenFlags(s: seq<byte>, t: seq<byte>, before: seq<byte>, base: nat, flags: seq<byte>, rest: seq<byte>)
    requires Written(s, before, base, Zeros(4) + rest) && |flags| == 4
    requires t == s[..base] + flags + s[base + 4..]
    ensures Written(t, before, base, flags + rest)
  {
    assert s[..base] == before[..base];
    assert s[base + 4..] == rest + Zeros(|s| - base - 4 - |rest|);
    assert s[..base] + flags + (rest + Zeros(|s| - base - 4 - |rest|))
      == before[..base] + (flags + rest) + Zeros(|s| - base - 4 - |rest|);
  }

  lemma ImageSize(f: Fields)
    requires f.Valid()
    ensures |Image(f)| >= 8 && Image(f) == Flags(f) + Image(f)[4..]
  {
    hide Flags, ValueBytes, LE32, Optional;
  }

  /** writeInstructions and publication of one instruction. */
  method WriteInstruction(buf: array<byte>, position: nat, f: Fields) returns (next: nat)
    requires f.Valid() && 8 * position + |Image(f)| <= buf.Length
    requires Written(buf[..], buf[..], 8 * position, [])
    modifies buf
    ensures next == position + Units(f) && Written(buf[..], old(buf[..]), 8 * position, Image(f))
  {
    hide Written, Image, Flags;
    next := WriteBody(buf, position, f);
    var at := 8 * position;
    ghost var s := buf[..];
    ImageSize(f);
    label unpublished:
    Store(buf, at, Flags(f));
    assert old@unpublished(buf[..at]) == s[..at] && old@unpublished(buf[at + 4..]) == s[at + 4..];
    WrittenFlags(s, buf[..], old(buf[..]), at, Flags(f), Image(f)[4..]);
  }

  // ---------------------------------------------------------------- streams of instructions

  /** Address of an instruction buffer, as the link to it holds it: buffers are numbered. */
  function Address(b: nat): Bits
    requires b < U32
  {
    LE32(b) + Zeros(4)
  }

  /** A POINTER_NEXT at byte `at` of a buffer, linking to buffer `b`. */
  predicate Link(buf: seq<byte>, at: nat, b: nat) {
    at + 16 <= |buf| && buf[at] == POINTER_NEXT && b < U32 && buf[at + 8..at + 16] == Address(b)
  }

  /** Where the worker goes on from byte `at` of buffer `b`: through a link, or right there. */
  function Follow(buffers: seq<seq<byte>>, b: nat, at: nat): (nat, nat) {
    if b < |buffers| && at + 16 <= |buffers[b]| && buffers[b][at] % 16 == POINTER_NEXT then
      (Read32(buffers[b][at + 8..at + 12]), 0)
    else (b, at)
  }

  /** The first `n` instructions the worker reads, and where the last of them ends. */
  function ReadStream(buffers: seq<seq<byte>>, n: nat): Option<(seq<Fields>, nat, nat)> {
    if n == 0 then Some(([], 0, 0))
    else
      match ReadStream(buffers, n - 1)
      case None => None
      case Some((fs, b, at)) =>
        var (c, start) := Follow(buffers, b, at);
        if c >= |buffers| then None
        else
          match ReadInstruction(buffers[c], start)
          case None => None
          case Some((f, end)) => Some((fs + [f], c, end))
  }

  /** `places` says where each instruction of `fs` lies, and where the next one goes. */
  ghost predicate Placed(buffers: seq<seq<byte>>, fs: seq<Fields>, places: seq<(nat, nat)>) {
    && |places| == |fs| + 1 && places[0] == (0, 0)
    && (forall i :: 0 <= i < |fs| ==> PlacedAt(buffers, fs[i], places[i], places[i + 1]))
  }

  /** An instruction lies at `here`; the next goes right behind it, or to the start of the buffer it links to. */
  ghost predicate PlacedAt(buffers: seq<seq<byte>>, f: Fields, here: (nat, nat), next: (nat, nat)) {
    && f.Valid() && here.0 < |buffers| && here.1 % 8 == 0 && Lies(buffers[here.0], here.1, Image(f))
    && var end := here.1 + |Image(f)|;
    (next == (here.0, end) || (next == (here.0 + 1, 0) && Link(buffers[here.0], end, here.0 + 1)))
  }

  /** An instruction is never taken for a link. */
  lemma NotALink(buffers: seq<seq<byte>>, f: Fields, here: (nat, nat), next: (nat, nat))
    requires PlacedAt(buffers, f, here, next)
    ensures Follow(buffers, here.0, here.1) == here
  {
    hide Read32, Image, Flags, Has, Lies;
    FlagsBack(f);
    FirstOfImage(buffers[here.0], here.1, f);
  }

  lemma FirstOfImage(buf: seq<byte>, at: nat, f: Fields)
    requires f.Valid() && Lies(buf, at, Image(f))
    ensures at < |buf| && buf[at] == Flags(f)[0]
  {
    hide Flags, Image;
    ImageSize(f);
    assert buf[at..at + |Image(f)|][0] == buf[at];
  }

  lemma LinkFollowed(buffers: seq<seq<byte>>, b: nat, at: nat, c: nat)
    requires b < |buffers| && Link(buffers[b], at, c)
    ensures Follow(buffers, b, at) == (c, 0)
  {
    hide LE32, Read32;
    var buf := buffers[b];
    assert buf[at + 8..at + 12] == buf[at + 8..at + 16][..4] == LE32(c);
    Read32OfLE32(c);
  }

  /** The worker reads back every instruction of the stream, in order, through all links. */
  lemma {:induction false} ReadsStreamBack(buffers: seq<seq<byte>>, fs: seq<Fields>, places: seq<(nat, nat)>, n: nat)
    requires Placed(buffers, fs, places) && n <= |fs|
    ensures ReadStream(buffers, n).Some?
    ensures var (read, b, at) := ReadStream(buffers, n).value;
      read == fs[..n] && (places[n] == (b, at) || (places[n] == Follow(buffers, b, at)))
  {
    hide Follow, ReadInstruction, Image, Lies, Link;
    if n > 0 {
      ReadsStreamBack(buffers, fs, places, n - 1);
      var here := places[n - 1];
      assert PlacedAt(buffers, fs[n - 1], here, places[n]);
      NotALink(buffers, fs[n - 1], here, places[n]);
      ReadsBack(buffers[here.0], here.1, fs[n - 1]);
      var end := here.1 + |Image(fs[n - 1])|;
      if places[n] != (here.0, end) {
        LinkFollowed(buffers, here.0, end, here.0 + 1);
      }
      assert fs[..n] == fs[..n - 1] + [fs[n - 1]];
    }
  }

  // ---------------------------------------------------------------- room

  /** newBufferThreshold: where the next instruction goes to a new buffer. */
  function Threshold(maxKeySize: nat): nat
    requires maxKeySize <= BUFFER_SIZE - 64
  {
    (BUFFER_SIZE - maxKeySize - 64) / 8
  }

  predicate KeyFits(f: Fields, maxKeySize: nat) { f.Keyed? ==> |f.key| <= maxKeySize }

  /** An instruction begun at or below the threshold ends inside its buffer, with the flag word of the next slot. */
  lemma EndsInside(maxKeySize: nat, position: nat, f: Fields)
    requires maxKeySize <= BUFFER_SIZE - 64 && position <= Threshold(maxKeySize) && f.Valid() && KeyFits(f, maxKeySize)
    ensures 8 * (position + Units(f)) + 4 <= BUFFER_SIZE
  {
    hide Image;
  }

  /**
  Every instruction begun at most `ends` units behind the threshold leaves room for a link behind it: the position
  gets there by `ends` block ends since the last comparison with the threshold.
  */
  ghost predicate AlwaysRoom(maxKeySize: nat, ends: nat)
    requires maxKeySize <= BUFFER_SIZE - 64
  {
    forall position: nat, f: Fields :: position <= Threshold(maxKeySize) + ends && KeyFits(f, maxKeySize) ==>
      Room(position, f)
  }

  /** Room for the instruction and a link. */
  predicate Room(position: nat, f: Fields) { f.Valid() ==> position + Units(f) + 2 <= UNITS }

  /** The longest instruction. */
  function Longest(keySize: nat): (f: Fields)
    requires keySize < U32
    ensures f.Valid() && f.Keyed? && |f.key| == keySize && Units(f) == (keySize + 28) / 8 + 4
  {
    var b: Bits := [0, 0, 0, 0, 0, 0, 0, 0];
    Keyed(15, 0, Zeros(keySize), Some(Value(0, b, Some(b))), false, false, false, false, Some(b), Some(b))
  }

  lemma UnitsBound(f: Fields, maxKeySize: nat)
    requires f.Valid() && KeyFits(f, maxKeySize)
    ensures Units(f) <= (maxKeySize + 28) / 8 + 4
  {
    hide Image;
  }

  /** There is always room for the link exactly without such block ends, for maximum key sizes of 1, 2 or 3 modulo 8. */
  lemma AlwaysRoomIff(maxKeySize: nat, ends: nat)
    requires maxKeySize <= BUFFER_SIZE - 64
    ensures AlwaysRoom(maxKeySize, ends) <==> ends == 0 && 1 <= maxKeySize % 8 <= 3
  {
    hide Units, Image;
    LongestEnd(maxKeySize);
    if ends == 0 && 1 <= maxKeySize % 8 <= 3 {
      forall position: nat, f: Fields | position <= Threshold(maxKeySize) && KeyFits(f, maxKeySize)
        ensures Room(position, f)
      {
        if f.Valid() { UnitsBound(f, maxKeySize); }
      }
    } else {
      var f, position := Longest(maxKeySize), Threshold(maxKeySize) + Min(ends, 1);
      assert !Room(position, f);
    }
  }

  lemma LongestEnd(maxKeySize: nat)
    requires maxKeySize <= BUFFER_SIZE - 64
    ensures Threshold(maxKeySize) + (maxKeySize + 28) / 8 + 4 + 2 <= UNITS <==> 1 <= maxKeySize % 8 <= 3
    ensures Threshold(maxKeySize) + 1 + (maxKeySize + 28) / 8 + 4 + 2 > UNITS
  {
    var q, r := maxKeySize / 8, maxKeySize % 8;
    assert maxKeySize == 8 * q + r;
    assert (maxKeySize + 28) / 8 == q + (r + 28) / 8;
    assert Threshold(maxKeySize) == 8184 - q + (-r) / 8;
  }

  // ---------------------------------------------------------------- the stream

  lemma PlacedKept(buffers: seq<seq<byte>>, after: seq<seq<byte>>, fs: seq<Fields>, places: seq<(nat, nat)>, b: nat,
      at: nat)
    requires Placed(buffers, fs, places) && InFront(fs, places, b, at)
    requires b < |buffers| <= |after| && |after[b]| == |buffers[b]| >= at && after[b][..at] == buffers[b][..at]
    requires forall i :: 0 <= i < b ==> after[i] == buffers[i]
    ensures Placed(after, fs, places)
  {
    forall i | 0 <= i < |fs| ensures PlacedAt(after, fs[i], places[i], places[i + 1]) {
      assert PlacedAt(buffers, fs[i], places[i], places[i + 1]);
      OnePlaceKept(buffers, after, fs[i], places[i], places[i + 1], b, at);
    }
  }

  /**
  An instruction lies in a buffer before `b`, or in buffer `b` with its end at most at `at` and no link behind it.
  */
  ghost predicate EndsBy(f: Fields, here: (nat, nat), next: (nat, nat), b: nat, at: nat) {
    here.0 < b || (here.0 == b && f.Valid() && here.1 + |Image(f)| <= at && next.0 == b)
  }

  ghost predicate InFront(fs: seq<Fields>, places: seq<(nat, nat)>, b: nat, at: nat) {
    |places| == |fs| + 1 && forall i :: 0 <= i < |fs| ==> EndsBy(fs[i], places[i], places[i + 1], b, at)
  }

  lemma OnePlaceKept(buffers: seq<seq<byte>>, after: seq<seq<byte>>, f: Fields, here: (nat, nat), next: (nat, nat),
      b: nat, at: nat)
    requires PlacedAt(buffers, f, here, next) && EndsBy(f, here, next, b, at)
    requires b < |buffers| <= |after| && |after[b]| == |buffers[b]| >= at && after[b][..at] == buffers[b][..at]
    requires forall i :: 0 <= i < b ==> after[i] == buffers[i]
    ensures PlacedAt(after, f, here, next)
  {
    hide Image;
    if here.0 == b {
      var end := here.1 + |Image(f)|;
      assert after[b][here.1..end] == after[b][..at][here.1..end];
      assert buffers[b][here.1..end] == buffers[b][..at][here.1..end];
    }
  }

  lemma WrittenTail(s: seq<byte>, before: seq<byte>, base: nat, image: seq<byte>)
    requires Written(s, before, base, image)
    ensures Written(s, s, base + |image|, []) && s[..base] == before[..base] && Lies(s, base, image)
  {
    var tail := Zeros(|s| - base - |image|);
    assert s[..base + |image|] == before[..base] + image;
    assert s == s[..base + |image|] + [] + tail;
    assert s[base..base + |image|] == image;
  }

  /** Same buffers up to byte `at` of the last one, `b`. */
  ghost predicate Extends(buffers: seq<seq<byte>>, after: seq<seq<byte>>, b: nat, at: nat) {
    && b + 1 == |buffers| <= |after| && |after[b]| == |buffers[b]| >= at && after[b][..at] == buffers[b][..at]
    && forall i :: 0 <= i < b ==> after[i] == buffers[i]
  }

  lemma ExtendsLast(full: seq<seq<byte>>, a: seq<byte>, b: seq<byte>, at: nat)
    requires at <= |a| == |b| && a[..at] == b[..at]
    ensures Extends(full + [a], full + [b], |full|, at) && (full + [b])[|full|] == b
  {
  }

  lemma PutPlaced(buffers: seq<seq<byte>>, after: seq<seq<byte>>, f: Fields, fs: seq<Fields>, places: seq<(nat, nat)>,
      b: nat, at: nat)
    requires Placed(buffers, fs, places) && InFront(fs, places, b, at) && places[|fs|] == (b, at)
    requires Extends(buffers, after, b, at)
    requires f.Valid() && at % 8 == 0 && Lies(after[b], at, Image(f))
    ensures Placed(after, fs + [f], places + [(b, at + |Image(f)|)])
    ensures InFront(fs + [f], places + [(b, at + |Image(f)|)], b, at + |Image(f)|)
  {
    hide Image, PlacedAt, Lies;
    PlacedKept(buffers, after, fs, places, b, at);
    var gs, ps, end := fs + [f], places + [(b, at + |Image(f)|)], at + |Image(f)|;
    forall i | 0 <= i < |gs|
      ensures PlacedAt(after, gs[i], ps[i], ps[i + 1]) && EndsBy(gs[i], ps[i], ps[i + 1], b, end)
    {
      if i < |fs| {
        assert gs[i] == fs[i] && ps[i] == places[i] && ps[i + 1] == places[i + 1];
        assert PlacedAt(after, fs[i], places[i], places[i + 1]) && EndsBy(fs[i], places[i], places[i + 1], b, at);
      } else {
        LastPlaced(after, f, b, at);
      }
    }
  }

  lemma LastPlaced(after: seq<seq<byte>>, f: Fields, b: nat, at: nat)
    requires f.Valid() && at % 8 == 0 && b < |after| && Lies(after[b], at, Image(f))
    ensures PlacedAt(after, f, (b, at), (b, at + |Image(f)|))
  {
    hide Image, Lies;
  }

  lemma SwitchPlaced(buffers: seq<seq<byte>>, after: seq<seq<byte>>, fs: seq<Fields>, places: seq<(nat, nat)>, b: nat,
      at: nat)
    requires Placed(buffers, fs, places) && InFront(fs, places, b, at) && fs != [] && places[|fs|] == (b, at) && at > 0
    requires Extends(buffers, after, b, at) && Link(after[b], at, b + 1)
    ensures Placed(after, fs, places[|fs| := (b + 1, 0)])
    ensures InFront(fs, places[|fs| := (b + 1, 0)], b + 1, 0)
  {
    hide Image, PlacedAt, Lies, Link;
    PlacedKept(buffers, after, fs, places, b, at);
    var ps := places[|fs| := (b + 1, 0)];
    forall i | 0 <= i < |fs|
      ensures PlacedAt(after, fs[i], ps[i], ps[i + 1]) && EndsBy(fs[i], ps[i], ps[i + 1], b + 1, 0)
    {
      assert PlacedAt(after, fs[i], places[i], places[i + 1]) && EndsBy(fs[i], places[i], places[i + 1], b, at);
      if i == |fs| - 1 {
        LastLinked(after, fs[i], places[i], b, at);
      }
    }
  }

  lemma LastLinked(after: seq<seq<byte>>, f: Fields, here: (nat, nat), b: nat, at: nat)
    requires PlacedAt(after, f, here, (b, at)) && at > 0 && Link(after[b], at, b + 1)
    ensures PlacedAt(after, f, here, (b + 1, 0))
  {
    hide Image, Lies, Link;
  }

  /** Instruction buffers of a store: those filled and linked, and the one being filled. */
  class Instructions {
    const maxKeySize: nat
    var full: seq<seq<byte>>
    var current: array<byte>
    var position: nat
    // block ends since the position was last compared with the threshold
    ghost var ends: nat
    // no store has fallen behind the end of a buffer yet; the code has no such flag
    var intact: bool
    // everything appended so far, and where it lies
    ghost var written: seq<Fields>
    ghost var places: seq<(nat, nat)>

    ghost function Buffers(): seq<seq<byte>>
      reads this, current
    {
      full + [current[..]]
    }

    ghost predicate Valid()
      reads this, current
    {
      && maxKeySize <= BUFFER_SIZE - 64
      && current.Length == BUFFER_SIZE && |full| < U32 - 1
      && position <= Threshold(maxKeySize) + ends
      && (intact ==> Sound())
    }

    /** The buffers hold everything appended, linked in order, and zeros behind it. */
    ghost predicate Sound()
      reads this, current
    {
      && Written(current[..], current[..], 8 * position, [])
      && Placed(Buffers(), written, places) && places[|written|] == (|full|, 8 * position)
      && InFront(written, places, |full|, 8 * position)
    }

    constructor (maxKeySize: nat)
      requires maxKeySize <= BUFFER_SIZE - 64
      ensures Valid() && intact && ends == 0 && position == 0 && full == [] && written == [] && fresh(current)
      ensures this.maxKeySize == maxKeySize
    {
      this.maxKeySize := maxKeySize;
      full, position, written, places, ends, intact := [], 0, [], [(0, 0)], 0, true;
      current := new byte[BUFFER_SIZE](_ => 0);
      new;
      assert current[..] == current[..][..0] + [] + Zeros(BUFFER_SIZE);
    }

    /** What the worker reads is what was appended. */
    lemma ReadBack()
      requires Valid() && intact
      ensures ReadStream(Buffers(), |written|).Some? && ReadStream(Buffers(), |written|).value.0 == written
    {
      hide ReadStream, Placed, InFront, Written;
      ReadsStreamBack(Buffers(), written, places, |written|);
    }

    /** One instruction in the current buffer, without the check for a new one. */
    method Put(f: Fields)
      requires Sound() && current.Length == BUFFER_SIZE && |full| < U32 - 1 && f.Valid() && position + Units(f) <= UNITS
      modifies this`position, this`written, this`places, current
      ensures Sound() && written == old(written) + [f] && position == old(position) + Units(f)
    {
      hide Image, Units, Placed, InFront, PlacedAt, Lies, Written, Extends;
      ghost var before, buffers := current[..], Buffers();
      PlacedSize(buffers, written, places);
      var at := 8 * position;
      position := WriteInstruction(current, position, f);
      WrittenTail(current[..], before, at, Image(f));
      ExtendsLast(full, before, current[..], at);
      PutPlaced(buffers, Buffers(), f, written, places, |full|, at);
      written, places := written + [f], places + [(|full|, 8 * position)];
    }

    /** A POINTER_NEXT behind the last instruction, and a new zeroed buffer. */
    method Switch()
      requires Sound() && current.Length == BUFFER_SIZE && 0 < position && position + 2 <= UNITS && written != []
      requires |full| < U32 - 2
      modifies this`full, this`current, this`position, this`places, current
      ensures Sound() && current.Length == BUFFER_SIZE && written == old(written) && position == 0
      ensures fresh(current) && |full| == old(|full|) + 1
    {
      hide Image, Units, Placed, InFront, PlacedAt, Address, Written;
      ghost var before, buffers := current[..], Buffers();
      PlacedSize(buffers, written, places);
      var at := 8 * position;
      Store(current, at + 8, Address(|full| + 1));
      Store(current, at, [POINTER_NEXT, 0, 0, 0]);
      LinkStored(before, current[..], at, |full| + 1);
      full := full + [current[..]];
      current := new byte[BUFFER_SIZE](_ => 0);
      position := 0;
      assert Written(current[..], current[..], 0, []) by { AllZeros(current[..]); }
      SwitchPlaced(buffers, Buffers(), written, places, |full| - 1, at);
      places := places[|written| := (|full|, 0)];
    }

    /**
    writeInstructions: refuses an empty or too long key, otherwise appends the instruction and, behind the
    threshold, links to a new buffer. The stream stays readable exactly if the instruction and, behind it, a link
    have room; what does not fit in the buffer is dropped, as stores behind the end of a typed array are.
    */
    method Append(f: Fields) returns (ok: bool)
      requires Valid() && f.Valid() && |full| < U32 - 2
      modifies this, current
      ensures Valid() && (current == old(current) || fresh(current)) && |full| <= old(|full|) + 1
      ensures f.Plain? || 0 < |f.key| <= maxKeySize ==> ok
      ensures f.Keyed? && |f.key| > maxKeySize ==> !ok
      ensures f.Keyed? && f.key == [] ==>
        (ok <==> f == Keyed(12, f.dbi, [], None, false, false, false, false, None, None))
      ensures !ok ==> written == old(written) && position == old(position) && ends == old(ends) && intact == old(intact)
      ensures ok ==> ends == 0 && position <= Threshold(maxKeySize)
      ensures ok ==>
        position == (if old(position) + Units(f) > Threshold(maxKeySize) then 0 else old(position) + Units(f))
      ensures ok && old(position) + Units(f) <= Threshold(maxKeySize) ==> full == old(full)
      ensures ok ==> (intact <==> old(intact) && Room(old(position), f))
      ensures ok && intact ==> written == old(written) + [f]
      ensures old(ends) == 0 && 1 <= maxKeySize % 8 <= 3 ==> intact == old(intact)
    {
      hide Image, Placed, InFront, Written, Units, AlwaysRoom, Flags;
      BareDrop(f);
      if f.Keyed? && ((|f.key| == 0 && Flags(f) != [12, 0, 0, 0]) || |f.key| > maxKeySize) { return false; }
      ok := true;
      RoomFor(maxKeySize, ends, position, f);
      if position + Units(f) + 2 > UNITS {
        Overflow(f);
      } else if intact {
        Put(f);
        if position > Threshold(maxKeySize) {
          Switch();
        }
      } else {
        StoreInside(current, 8 * position, Image(f));
        position := position + Units(f);
        if position > Threshold(maxKeySize) {
          NewBuffer();
        }
      }
      ends := 0;
    }

    /** An instruction that does not fit with its link: the stores behind the end of the buffer are dropped. */
    method Overflow(f: Fields)
      requires f.Valid() && position + Units(f) + 2 > UNITS && current.Length == BUFFER_SIZE
      modifies this`full, this`current, this`position, this`intact, current
      ensures fresh(current) && current.Length == BUFFER_SIZE && position == 0 && !intact && |full| == old(|full|) + 1
      ensures !Link(full[|full| - 1], 8 * (old(position) + Units(f)), |full|)
    {
      StoreInside(current, 8 * position, Image(f));
      StoreInside(current, 8 * (position + Units(f)), [POINTER_NEXT, 0, 0, 0]);
      NewBuffer();
      intact := false;
    }

    method NewBuffer()
      requires current.Length == BUFFER_SIZE
      modifies this`full, this`current, this`position
      ensures fresh(current) && current.Length == BUFFER_SIZE && position == 0
      ensures full == old(full) + [old(current[..])]
    {
      full := full + [current[..]];
      current := new byte[BUFFER_SIZE](_ => 0);
      position := 0;
    }

    /** finishBatch: a block end, with no check for a new buffer; behind the last unit it is dropped. */
    method FinishBatch()
      requires Valid()
      modifies this`position, this`written, this`places, this`ends, this`intact, current
      ensures Valid() && position == old(position) + 1 && ends == old(ends) + 1
      ensures intact <==> old(intact) && old(position) < UNITS
      ensures intact ==> written == old(written) + [Plain(BLOCK_END, 0, false, false)]
    {
      hide Image, Placed, InFront, Written;
      var f := Plain(BLOCK_END, 0, false, false);
      if intact && position < UNITS {
        Put(f);
      } else {
        StoreInside(current, 8 * position, Image(f));
        position := position + 1;
        intact := false;
      }
      ends := ends + 1;
    }
  }

  /** A store of which what lies behind the end of the buffer is dropped. */
  method StoreInside(buf: array<byte>, at: nat, part: seq<byte>)
    modifies buf
    ensures forall k :: at <= k < Min(at + |part|, buf.Length) ==> buf[k] == part[k - at]
    ensures forall k :: 0 <= k < Min(at, buf.Length) ==> buf[k] == old(buf[k])
  {
    if at < buf.Length {
      var n := Min(|part|, buf.Length - at);
      CopyIn(buf, at, part, 0, n);
    }
  }

  lemma RoomFor(maxKeySize: nat, ends: nat, position: nat, f: Fields)
    requires maxKeySize <= BUFFER_SIZE - 64 && position <= Threshold(maxKeySize) + ends && f.Valid()
    requires KeyFits(f, maxKeySize)
    ensures ends == 0 && 1 <= maxKeySize % 8 <= 3 ==> Room(position, f)
  {
    hide Units, Image;
    if ends == 0 && 1 <= maxKeySize % 8 <= 3 { AlwaysRoomIff(maxKeySize, ends); }
  }

  /**
  A run that loses the stream, for every maximum key size: instructions up to the threshold, a block end, and one long
  instruction behind it. For maximum key sizes other than 1, 2 and 3 modulo 8 no block end is needed.
  */
  method LosesLink(maxKeySize: nat, blockEnd: bool) returns (instructions: Instructions)
    requires 0 < maxKeySize <= BUFFER_SIZE - 64 && (blockEnd || !(1 <= maxKeySize % 8 <= 3))
    ensures fresh(instructions) && instructions.Valid() && !instructions.intact
  {
    hide Image, Units, Written, Placed, InFront;
    instructions := new Instructions(maxKeySize);
    var start := Plain(1, 0, false, false);
    assert Units(start) == 1 by { PlainUnits(start); }
    while instructions.position < Threshold(maxKeySize)
      invariant fresh(instructions) && fresh(instructions.current) && instructions.Valid() && instructions.intact
      invariant instructions.maxKeySize == maxKeySize && instructions.ends == 0 && instructions.full == []
      invariant instructions.position <= Threshold(maxKeySize)
      decreases Threshold(maxKeySize) - instructions.position
    {
      var accepted := instructions.Append(start);
    }
    LongestEnd(maxKeySize);
    if blockEnd { instructions.FinishBatch(); }
    var ok := instructions.Append(Longest(maxKeySize));
  }

  lemma PlainUnits(f: Fields)
    requires f.Valid() && f.Plain?
    ensures Units(f) == 1
  {
  }

  lemma PlacedSize(buffers: seq<seq<byte>>, fs: seq<Fields>, places: seq<(nat, nat)>)
    requires Placed(buffers, fs, places)
    ensures |places| == |fs| + 1
  {
  }

  lemma AllZeros(s: seq<byte>)
    requires forall i :: 0 <= i < |s| ==> s[i] == 0
    ensures Written(s, s, 0, [])
  {
    assert s == s[..0] + [] + Zeros(|s|);
  }

  lemma LinkStored(before: seq<byte>, after: seq<byte>, at: nat, b: nat)
    requires at + 16 <= |before| && b < U32
    requires var mid := before[..at + 8] + Address(b) + before[at + 16..];
      after == mid[..at] + [POINTER_NEXT, 0, 0, 0] + mid[at + 4..]
    ensures Link(after, at, b) && |after| == |before| && after[..at] == before[..at]
  {
    hide Address;
    var mid := before[..at + 8] + Address(b) + before[at + 16..];
    assert mid[..at] == before[..at] && mid[at + 8..at + 16] == Address(b);
    assert after[at + 8..at + 16] == mid[at + 8..at + 16];
  }
}
