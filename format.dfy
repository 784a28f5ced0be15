/** The byte-level layout of the Wii "LZ77 type 0x10" container: the 4-byte
    header, the 2-byte back-reference field and the flag-bit test. Shifts and
    masks of the original are written as division and remainder by powers of
    two on unbounded integers. */
module Lz77Format {

  /** One byte of a Python `bytes` object. */
  type Byte = b: int | 0 <= b < 0x100

  /** The only container type the codec accepts (`WiiLZ77.TYPE_LZ77`). */
  const TYPE_LZ77: Byte := 0x10

  /** Lengths that fit in the 24 bits of the header above the tag. */
  const MAX_LENGTH: nat := 0x100_0000

  const U32_LIMIT: nat := 0x1_0000_0000

  datatype Error =
    | UnsupportedFormat(tag: Byte)   // header tag other than TYPE_LZ77
    | TruncatedInput                 // input ended before a header, flag byte or token was complete
    | InvalidBackReference           // a back-reference points before the start of the output
    | LengthTooLarge                 // the length does not fit in the 24-bit header field

  datatype Result<T> = Ok(value: T) | Err(error: Error)

  /** The decoded header word: `uncompressed_length` and `compression_type`. */
  datatype Header = Header(length: nat, tag: Byte)

  /** `n` copies of the byte `b`. */
  function Repeat(b: Byte, n: nat): (r: seq<Byte>)
    ensures |r| == n && forall j :: 0 <= j < n ==> r[j] == b
  {
    seq(n, _ => b)
  }

  function Min(a: int, b: int): (r: int) {
    if a <= b then a else b
  }

  /** Little-endian unsigned 32-bit word at `pos` (`struct.unpack('<I', ...)`). */
  function ReadU32LE(data: seq<Byte>, pos: nat): (w: nat)
    requires pos + 4 <= |data|
    ensures w < U32_LIMIT
  {
    var b0, b1, b2, b3: int := data[pos], data[pos + 1], data[pos + 2], data[pos + 3];
    b0 + 0x100 * b1 + 0x1_0000 * b2 + 0x100_0000 * b3
  }

  /** Little-endian encoding of a 32-bit word (`struct.pack('<I', w)`). */
  function WriteU32LE(w: nat): (r: seq<Byte>)
    requires w < U32_LIMIT
    ensures |r| == 4
  {
    [w % 0x100, (w / 0x100) % 0x100, (w / 0x1_0000) % 0x100, w / 0x100_0000]
  }

  /** Splitting `lo + 0x100 * hi` into its low byte and the rest. */
  lemma ByteSplit(lo: Byte, hi: nat)
    ensures (lo + 0x100 * hi) % 0x100 == lo && (lo + 0x100 * hi) / 0x100 == hi
  {
  }

  lemma ReadWriteU32LE(w: nat, rest: seq<Byte>)
    requires w < U32_LIMIT
    ensures ReadU32LE(WriteU32LE(w) + rest, 0) == w
  {
    var q1, q2 := w / 0x100, w / 0x1_0000;
    assert q1 / 0x100 == q2 && q2 / 0x100 == w / 0x100_0000;
    assert w == w % 0x100 + 0x100 * q1;
    assert q1 == q1 % 0x100 + 0x100 * q2;
    assert q2 == q2 % 0x100 + 0x100 * (w / 0x100_0000);
  }

  lemma WriteReadU32LE(data: seq<Byte>)
    requires 4 <= |data|
    ensures WriteU32LE(ReadU32LE(data, 0)) == data[..4]
  {
    var b0, b1, b2, b3: Byte := data[0], data[1], data[2], data[3];
    var w := ReadU32LE(data, 0);
    var hi2 := b2 + 0x100 * b3;
    var hi1 := b1 + 0x100 * hi2;
    assert w == b0 + 0x100 * hi1;
    ByteSplit(b0, hi1);
    ByteSplit(b1, hi2);
    ByteSplit(b2, b3);
    assert w / 0x1_0000 == (w / 0x100) / 0x100 == hi2;
    assert w / 0x100_0000 == (w / 0x1_0000) / 0x100 == b3;
  }

  /** Big-endian unsigned 16-bit word at `pos` (`struct.unpack('>H', ...)`). */
  function ReadU16BE(data: seq<Byte>, pos: nat): (w: nat)
    requires pos + 2 <= |data|
    ensures w < 0x1_0000
  {
    0x100 * (data[pos] as int) + data[pos + 1]
  }

  /** Header of a stream: the word's low byte is the tag, the upper 24 bits
      the declared output length. */
  function ParseHeader(data: seq<Byte>): (r: Result<Header>)
    ensures |data| < 4 ==> r == Err(TruncatedInput)
    ensures 4 <= |data| && data[0] != TYPE_LZ77 ==> r == Err(UnsupportedFormat(data[0]))
    ensures 4 <= |data| && data[0] == TYPE_LZ77 ==>
              r == Ok(Header(data[1] + 0x100 * (data[2] as int) + 0x1_0000 * (data[3] as int), TYPE_LZ77))
    ensures r.Ok? ==> r.value.length < MAX_LENGTH
  {
    if |data| < 4 then Err(TruncatedInput)
    else
      var hdr := ReadU32LE(data, 0);
      var uncompressedLength := hdr / 0x100;
      var compressionType := hdr % 0x100;
      if compressionType != TYPE_LZ77 then Err(UnsupportedFormat(compressionType))
      else Ok(Header(uncompressedLength, compressionType))
  }

  /** The 32-bit header word `length << 8 | TYPE_LZ77`. */
  function HeaderWord(length: nat): (w: nat) {
    length * 0x100 + TYPE_LZ77
  }

  lemma HeaderWordFits(length: nat)
    ensures HeaderWord(length) < U32_LIMIT <==> length < MAX_LENGTH
  {
  }

  /** The four header bytes the encoder writes. */
  function EncodeHeader(length: nat): (r: seq<Byte>)
    requires length < MAX_LENGTH
    ensures r == [TYPE_LZ77, length % 0x100, (length / 0x100) % 0x100, length / 0x1_0000]
  {
    WriteU32LE(HeaderWord(length))
  }

  /** Whatever follows it, an encoded header parses back to its length and tag. */
  lemma ParseEncodeHeader(length: nat, rest: seq<Byte>)
    requires length < MAX_LENGTH
    ensures ParseHeader(EncodeHeader(length) + rest) == Ok(Header(length, TYPE_LZ77))
  {
    ReadWriteU32LE(HeaderWord(length), rest);
  }

  /** `flags & 0x80` on the low byte of the flags: the current flag bit
      selects a back-reference. */
  predicate IsBackReference(flags: Byte) {
    flags >= 0x80
  }

  /** `flags <<= 1` on the low byte of the flags (`(flags << 1) & 0xff`). */
  function ShiftFlags(flags: Byte): (r: Byte)
    ensures r == (2 * flags) % 0x100
  {
    if flags >= 0x80 then 2 * flags - 0x100 else 2 * flags
  }

  /** The source keeps `flags` as an unbounded integer and tests only its bit 7,
      which depends on the low byte alone; shifting commutes with taking it. */
  lemma SourceFlags(flags: nat)
    ensures (flags / 0x80) % 2 == 1 <==> IsBackReference(flags % 0x100)
    ensures (flags * 2) % 0x100 == ShiftFlags(flags % 0x100)
  {
    SourceFlagTest(flags);
    SourceShift(flags);
  }

  lemma SourceFlagTest(flags: nat)
    ensures (flags / 0x80) % 2 == 1 <==> flags % 0x100 >= 0x80
  {
    var q, b := flags / 0x100, flags % 0x100;
    var h := if b >= 0x80 then 1 else 0;
    assert flags == 0x80 * (2 * q + h) + (b - 0x80 * h);
    DivMod128(flags, 2 * q + h, b - 0x80 * h);
    assert (2 * q + h) % 2 == h;
  }

  lemma SourceShift(flags: nat)
    ensures (flags * 2) % 0x100 == ShiftFlags(flags % 0x100)
  {
    var q, b := flags / 0x100, flags % 0x100;
    var h := if b >= 0x80 then 1 else 0;
    assert flags * 2 == 0x100 * (2 * q + h) + (2 * b - 0x100 * h);
    DivMod256(flags * 2, 2 * q + h, 2 * b - 0x100 * h);
  }

  /** Quotient and remainder by 0x80 are determined by `n = 0x80 * q + r, 0 <= r < 0x80`. */
  lemma DivMod128(n: nat, q: int, r: int)
    requires n == 0x80 * q + r && 0 <= r < 0x80
    ensures n / 0x80 == q && n % 0x80 == r
  {
  }

  lemma DivMod256(n: nat, q: int, r: int)
    requires n == 0x100 * q + r && 0 <= r < 0x100
    ensures n / 0x100 == q && n % 0x100 == r
  {
  }

  /** The flags after `i` shifts. */
  function Shifted(flags: Byte, i: nat): (r: Byte) {
    if i == 0 then flags else ShiftFlags(Shifted(flags, i - 1))
  }

  function Pow2(k: nat): (p: nat)
    ensures p >= 1
  {
    if k == 0 then 1 else 2 * Pow2(k - 1)
  }

  /** Shifting `i` times keeps the low byte of `flags * 2^i`. */
  lemma {:induction false} ShiftedLowByte(flags: Byte, i: nat)
    ensures Shifted(flags, i) == (flags * Pow2(i)) % 0x100
  {
    if i > 0 {
      var p := Pow2(i - 1);
      ShiftedLowByte(flags, i - 1);
      SourceShift(flags * p);
      DoubleFactor(flags, p);
    }
  }

  lemma DoubleFactor(a: nat, b: nat)
    ensures a * (2 * b) == (a * b) * 2
  {
  }

  /** After `i` shifts the tested bit is bit `7 - i` of the original flag
      byte: the bits are consumed most significant first. */
  lemma {:induction false} FlagBitsMsbFirst(flags: Byte, i: nat)
    requires i < 8
    ensures IsBackReference(Shifted(flags, i)) <==> (flags / Pow2(7 - i)) % 2 == 1
  {
    ShiftedLowByte(flags, i);
    SourceFlagTest(flags * Pow2(i));
    assert Pow2(0) == 1 && Pow2(1) == 2 && Pow2(2) == 4 && Pow2(3) == 8;
    assert Pow2(4) == 16 && Pow2(5) == 32 && Pow2(6) == 64 && Pow2(7) == 128;
    if i == 0 {
    } else if i == 1 {
      assert flags * 2 / 0x80 == flags / 64;
    } else if i == 2 {
      assert flags * 4 / 0x80 == flags / 32;
    } else if i == 3 {
      assert flags * 8 / 0x80 == flags / 16;
    } else if i == 4 {
      assert flags * 16 / 0x80 == flags / 8;
    } else if i == 5 {
      assert flags * 32 / 0x80 == flags / 4;
    } else if i == 6 {
      assert flags * 64 / 0x80 == flags / 2;
    } else {
      assert flags * 128 / 0x80 == flags;
    }
  }

  /** `3 + ((info >> 12) & 0xf)`: bytes a back-reference copies before clamping. */
  function BackRefLength(info: nat): (n: nat) {
    3 + (info / 0x1000) % 0x10
  }

  /** `(info & 0xfff) + 1`: how far behind the end of the output the copy starts. */
  function BackRefDistance(info: nat): (d: nat) {
    info % 0x1000 + 1
  }

  /** The two back-reference bytes `hi lo`: the high nibble of `hi` is the
      length minus 3 and the remaining 12 bits the displacement. */
  lemma BackRefFields(hi: Byte, lo: Byte)
    ensures BackRefLength(ReadU16BE([hi, lo], 0)) == 3 + hi / 0x10
    ensures BackRefDistance(ReadU16BE([hi, lo], 0)) == (hi % 0x10) * 0x100 + lo + 1
    ensures 3 <= BackRefLength(ReadU16BE([hi, lo], 0)) <= 18
    ensures 1 <= BackRefDistance(ReadU16BE([hi, lo], 0)) <= 0x1000
  {
    var info := ReadU16BE([hi, lo], 0);
    var low := (hi % 0x10) * 0x100 + lo;
    assert hi == 0x10 * (hi / 0x10) + hi % 0x10;
    assert info == 0x1000 * (hi / 0x10) + low && 0 <= low < 0x1000;
    assert info / 0x1000 == hi / 0x10 && info % 0x1000 == low;
  }
}
