/** What the encoder and the decoder promise together: decompressing the
    output of `compress` gives back its input, and a few streams worked out
    byte by byte. */
module Lz77RoundTrip {
  import opened Lz77Format
  import opened Lz77Decompress
  import opened Lz77Compress

  /** A zero flag byte read from bit `i` on: the literals `chunk` are copied,
      up to the end of the flag byte or of the declared length, whichever
      comes first. */
  lemma {:induction false} GroupOfLiterals(data: seq<Byte>, c: Cursor, i: nat, length: nat, chunk: seq<Byte>)
    requires 1 <= |chunk| && i + |chunk| <= 8 && |c.out| + |chunk| <= length
    requires c.pos + |chunk| <= |data| && data[c.pos..c.pos + |chunk|] == chunk
    requires i + |chunk| == 8 || |c.out| + |chunk| == length
    ensures Group(data, c, 0, i, length) == Ok(Cursor(c.pos + |chunk|, c.out + chunk))
    decreases |chunk|
  {
    ChunkHead(data, c.pos, chunk);
    if |chunk| == 1 {
      LastLiteral(data, c, i, length, chunk[0]);
      assert chunk == [chunk[0]];
    } else {
      var t := Cursor(c.pos + 1, c.out + [chunk[0]]);
      GroupOfLiterals(data, t, i + 1, length, chunk[1..]);
      CursorAfterChunk(c, chunk);
      LiteralStep(data, c, i, length, chunk[0], Cursor(c.pos + |chunk|, c.out + chunk));
    }
  }

  /** The first byte of a chunk found at `pos`, and where the rest lies. */
  lemma ChunkHead(data: seq<Byte>, pos: nat, chunk: seq<Byte>)
    requires 1 <= |chunk| && pos + |chunk| <= |data| && data[pos..pos + |chunk|] == chunk
    ensures data[pos] == chunk[0] && data[pos + 1..pos + |chunk|] == chunk[1..]
  {
    assert data[pos] == data[pos..pos + |chunk|][0];
    assert data[pos..pos + |chunk|][1..] == data[pos + 1..pos + |chunk|];
  }

  /** Copying the head of `chunk` and then its tail copies `chunk`. */
  lemma CursorAfterChunk(c: Cursor, chunk: seq<Byte>)
    requires 1 <= |chunk|
    ensures Cursor(c.pos + 1 + |chunk[1..]|, c.out + [chunk[0]] + chunk[1..]) == Cursor(c.pos + |chunk|, c.out + chunk)
  {
    assert [chunk[0]] + chunk[1..] == chunk;
    assert c.out + [chunk[0]] + chunk[1..] == c.out + ([chunk[0]] + chunk[1..]);
  }

  /** A clear flag bit that is not the group's last copies the literal byte
      `b` found at the cursor and the group goes on. */
  lemma LiteralStep(data: seq<Byte>, c: Cursor, i: nat, length: nat, b: Byte, d: Cursor)
    requires i < 8 && |c.out| + 1 < length && c.pos < |data| && data[c.pos] == b
    requires Group(data, Cursor(c.pos + 1, c.out + [b]), 0, i + 1, length) == Ok(d)
    ensures Group(data, c, 0, i, length) == Ok(d)
  {
    assert Token(data, c, 0, length) == Ok(Cursor(c.pos + 1, c.out + [b]));
  }

  /** The last literal of a group: the flag byte or the output ends there. */
  lemma LastLiteral(data: seq<Byte>, c: Cursor, i: nat, length: nat, b: Byte)
    requires i < 8 && |c.out| < length && c.pos < |data| && data[c.pos] == b
    requires i + 1 == 8 || |c.out| + 1 == length
    ensures Group(data, c, 0, i, length) == Ok(Cursor(c.pos + 1, c.out + [b]))
  {
    var t := Cursor(c.pos + 1, c.out + [b]);
    assert Token(data, c, 0, length) == Ok(t);
    if |t.out| < length {
      assert Group(data, t, 0, 8, length) == Ok(t);
    }
  }

  /** The first group of a non-empty `x`: a zero flag byte and the first `k`
      bytes of `x`, followed by the groups of the rest. */
  lemma FirstGroup(x: seq<Byte>, k: nat)
    requires |x| > 0 && k == Min(8, |x|)
    ensures 1 + k <= |LiteralGroups(x)| && LiteralGroups(x)[0] == 0
    ensures LiteralGroups(x)[1..1 + k] == x[..k]
    ensures LiteralGroups(x)[1 + k..] == LiteralGroups(x[k..])
  {
    var g := [0] + x[..k];
    assert LiteralGroups(x) == g + LiteralGroups(x[k..]);
    assert |g| == 1 + k;
  }

  lemma SliceOfSuffix(data: seq<Byte>, pos: nat, i: nat, j: nat)
    requires pos + j <= |data| && i <= j
    ensures data[pos..][i..j] == data[pos + i..pos + j]
    ensures data[pos..][i..] == data[pos + i..]
  {
  }

  /** Where the literal groups of a non-empty `x` start at `pos`: a zero flag
      byte, the first `k` bytes of `x`, then the groups of the rest. */
  lemma SplitGroups(data: seq<Byte>, pos: nat, x: seq<Byte>, k: nat)
    requires |x| > 0 && k == Min(8, |x|) && pos <= |data| && data[pos..] == LiteralGroups(x)
    ensures pos + 1 + k <= |data| && data[pos] == 0
    ensures data[pos + 1..pos + 1 + k] == x[..k]
    ensures data[pos + 1 + k..] == LiteralGroups(x[k..])
  {
    FirstGroup(x, k);
    assert data[pos] == data[pos..][0];
    SliceOfSuffix(data, pos, 1, 1 + k);
    SliceOfSuffix(data, pos, 1 + k, 1 + k);
  }

  lemma ConcatSplit(out: seq<Byte>, x: seq<Byte>, k: nat)
    requires k <= |x|
    ensures out + x[..k] + x[k..] == out + x
  {
    assert x[..k] + x[k..] == x;
  }

  /** One literal group of `k` bytes takes the decoder from `pos` to
      `pos + 1 + k`, appending those bytes. */
  lemma LiteralGroupStep(data: seq<Byte>, pos: nat, out: seq<Byte>, length: nat, chunk: seq<Byte>)
    requires 1 <= |chunk| <= 8 && |out| + |chunk| <= length && (|chunk| == 8 || |out| + |chunk| == length)
    requires pos + 1 + |chunk| <= |data| && data[pos] == 0 && data[pos + 1..pos + 1 + |chunk|] == chunk
    ensures Run(data, Cursor(pos, out), length) == Run(data, Cursor(pos + 1 + |chunk|, out + chunk), length)
  {
    var k := |chunk|;
    var c1 := Cursor(pos + 1 + k, out + chunk);
    GroupOfLiterals(data, Cursor(pos + 1, out), 0, length, chunk);
    RunAfterGroup(data, Cursor(pos, out), c1, length);
  }

  /** Decoding the literal groups of `x`, which run to the end of `data`,
      appends exactly `x` to the output. */
  lemma {:induction false} RunOfLiteralGroups(data: seq<Byte>, pos: nat, out: seq<Byte>, x: seq<Byte>, length: nat)
    requires pos <= |data| && data[pos..] == LiteralGroups(x) && length == |out| + |x|
    ensures Run(data, Cursor(pos, out), length) == Ok(Cursor(|data|, out + x))
    decreases |x|
  {
    if |x| > 0 {
      var k := Min(8, |x|);
      var chunk := x[..k];
      SplitGroups(data, pos, x, k);
      LiteralGroupStep(data, pos, out, length, chunk);
      RunOfLiteralGroups(data, pos + 1 + k, out + chunk, x[k..], length);
      ConcatSplit(out, x, k);
    } else {
      assert out + x == out;
    }
  }

  /** A stream whose header parses and whose tokens run to the declared
      length decodes to the output of that run. */
  lemma DecodeOfRun(data: seq<Byte>, length: nat, c: Cursor)
    requires ParseHeader(data) == Ok(Header(length, TYPE_LZ77))
    requires Run(data, Cursor(4, []), length) == Ok(c)
    ensures Decode(data) == Ok(c.out)
  {
  }

  /** `decompress(compress(x)) == x` for every input whose length fits the
      24-bit header field. */
  lemma RoundTrip(x: seq<Byte>)
    requires |x| < MAX_LENGTH
    ensures Compressed(x).Ok?
    ensures Decode(Compressed(x).value) == Ok(x)
  {
    var data := EncodeHeader(|x|) + LiteralGroups(x);
    assert Compressed(x) == Ok(data);
    ParseEncodeHeader(|x|, LiteralGroups(x));
    assert data[4..] == LiteralGroups(x);
    RunOfLiteralGroups(data, 4, [], x, |x|);
    assert [] + x == x;
    DecodeOfRun(data, |x|, Cursor(|data|, x));
  }

  /** Ten equal bytes encode as the header `(10 << 8) | 0x10`, a full group
      of eight and a partial group of two: sixteen bytes, which decode back. */
  lemma TenEqualBytes(a: Byte)
    ensures Compressed(Repeat(a, 10)) == Ok([0x10, 10, 0, 0, 0] + Repeat(a, 8) + [0] + Repeat(a, 2))
    ensures |Compressed(Repeat(a, 10)).value| == 16
    ensures Decode(Compressed(Repeat(a, 10)).value) == Ok(Repeat(a, 10))
  {
    var x := Repeat(a, 10);
    assert x[..8] == Repeat(a, 8) && x[8..] == Repeat(a, 2);
    assert x[8..][..2] == x[8..] && x[8..][2..] == [];
    assert LiteralGroups(x[8..]) == [0] + Repeat(a, 2);
    assert LiteralGroups(x) == [0] + Repeat(a, 8) + [0] + Repeat(a, 2);
    assert EncodeHeader(10) == [0x10, 10, 0, 0];
    assert [0x10, 10, 0, 0] + ([0] + Repeat(a, 8) + [0] + Repeat(a, 2))
        == [0x10, 10, 0, 0, 0] + Repeat(a, 8) + [0] + Repeat(a, 2);
    RoundTrip(x);
  }

  /** The header word `0x411` has tag `0x11`: refused whatever follows. */
  lemma WrongTagRefused(rest: seq<Byte>)
    ensures Decode([0x11, 0x04, 0x00, 0x00] + rest) == Err(UnsupportedFormat(0x11))
  {
    assert ([0x11, 0x04, 0x00, 0x00] + rest)[0] == 0x11;
  }

  /** A back-reference token with displacement 0 and length `n + 3` after the
      single byte `a` repeats `a` up to the declared length `n + 4`. */
  lemma RunLengthToken(data: seq<Byte>, pos: nat, a: Byte, n: nat)
    requires n < 0x10 && pos + 2 <= |data| && data[pos] == n * 0x10 && data[pos + 1] == 0
    ensures Token(data, Cursor(pos, [a]), 0x80, n + 4) == Ok(Cursor(pos + 2, Repeat(a, n + 4)))
  {
    var info := ReadU16BE(data, pos);
    assert info == n * 0x1000 && BackRefDistance(info) == 1 && BackRefLength(info) == n + 3;
    CopyBackRunLength([a], n + 3);
    assert [a] + Repeat(a, n + 3) == Repeat(a, n + 4);
  }

  /** Run-length extension through the decoder: a literal `a`, then a
      back-reference with displacement 0 and length `n + 3`, gives `n + 4`
      bytes `a`; the byte-by-byte path copies bytes it has just written. */
  lemma OverlappingBackReference(a: Byte, n: nat)
    requires n < 0x10
    ensures Decode([0x10, n + 4, 0, 0, 0x40, a, n * 0x10, 0x00]) == Ok(Repeat(a, n + 4))
  {
    var data: seq<Byte> := [0x10, n + 4, 0, 0, 0x40, a, n * 0x10, 0x00];
    var length := n + 4;
    var run := Repeat(a, length);
    var afterLiteral := Cursor(6, [a]);
    assert [] + [data[5]] == [a];
    assert Token(data, Cursor(5, []), 0x40, length) == Ok(afterLiteral);
    RunLengthToken(data, 6, a, n);
    assert Group(data, afterLiteral, 0x80, 1, length) == Ok(Cursor(8, run));
    assert Group(data, Cursor(5, []), 0x40, 0, length) == Ok(Cursor(8, run));
    RunAfterGroup(data, Cursor(4, []), Cursor(8, run), length);
    assert Run(data, Cursor(8, run), length) == Ok(Cursor(8, run));
    DecodeOfRun(data, length, Cursor(8, run));
  }

  /** The case of the longest back-reference: eighteen copies of `a`. */
  lemma EighteenCopies(a: Byte)
    ensures Decode([0x10, 19, 0, 0, 0x40, a, 0xF0, 0x00]) == Ok(Repeat(a, 19))
  {
    OverlappingBackReference(a, 15);
  }

  /** The declared length is reached by the first bit of the flag byte `0x7F`:
      the seven back-reference bits after it are never acted on, so nothing
      more is read and the stream, which ends there, decodes. */
  lemma StopsMidFlagByte()
    ensures Decode([0x10, 1, 0, 0, 0x7F, 0x41]) == Ok([0x41])
  {
    var data: seq<Byte> := [0x10, 1, 0, 0, 0x7F, 0x41];
    assert [] + [data[5]] == [0x41];
    assert Token(data, Cursor(5, []), 0x7F, 1) == Ok(Cursor(6, [0x41]));
    assert Group(data, Cursor(5, []), 0x7F, 0, 1) == Ok(Cursor(6, [0x41]));
  }

  /** A header declaring a non-empty output with nothing after it: the first
      flag byte is missing. */
  lemma MissingFlagByte(length: nat)
    requires 0 < length < MAX_LENGTH
    ensures Decode(EncodeHeader(length)) == Err(TruncatedInput)
  {
    ParseEncodeHeader(length, []);
    assert EncodeHeader(length) + [] == EncodeHeader(length);
  }

  /** A back-reference as the very first token points before the start of
      the output, whatever its two bytes say. */
  lemma BackReferenceBeforeStart(length: nat, flags: Byte, hi: Byte, lo: Byte)
    requires 0 < length < MAX_LENGTH && flags >= 0x80
    ensures Decode(EncodeHeader(length) + [flags, hi, lo]) == Err(InvalidBackReference)
  {
    var data := EncodeHeader(length) + [flags, hi, lo];
    ParseEncodeHeader(length, [flags, hi, lo]);
    assert data[4] == flags && data[5] == hi && data[6] == lo;
    assert IsBackReference(flags);
    assert Token(data, Cursor(5, []), flags, length) == Err(InvalidBackReference);
    assert Group(data, Cursor(5, []), flags, 0, length) == Err(InvalidBackReference);
    assert Run(data, Cursor(4, []), length) == Err(InvalidBackReference);
  }
}
