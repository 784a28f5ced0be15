/** `WiiLZ77.decompress`: a flag-byte-driven interpreter of literal and
    back-reference tokens. `Decode` is the reference definition, given as
    functions over a cursor (read position, output so far); the method
    `Decompress` is the source's loop and is proved to compute `Decode`. */
module Lz77Decompress {
  import opened Lz77Format

  /** Decoder state: the read position in the input and the output so far. */
  datatype Cursor = Cursor(pos: nat, out: seq<Byte>)

  /** `out` followed by `count` bytes, each a copy of the byte `distance`
      positions before it: the meaning of a back-reference, overlapping or not. */
  function CopyBack(out: seq<Byte>, distance: nat, count: nat): (r: seq<Byte>)
    requires 1 <= distance <= |out|
    ensures |r| == |out| + count
    decreases count
  {
    if count == 0 then out
    else CopyBack(out + [out[|out| - distance]], distance, count - 1)
  }

  /** A `0` flag bit: one byte copied from the input. */
  function Literal(data: seq<Byte>, c: Cursor): (r: Result<Cursor>)
    ensures r.Ok? <==> c.pos < |data|
    ensures r.Err? ==> r.error == TruncatedInput
    ensures r.Ok? ==> r.value.pos == c.pos + 1 && r.value.out == c.out + [data[c.pos]]
  {
    if c.pos >= |data| then Err(TruncatedInput)
    else Ok(Cursor(c.pos + 1, c.out + [data[c.pos]]))
  }

  /** A `1` flag bit: a big-endian 16-bit `info`, copying up to
      `BackRefLength(info)` bytes from `BackRefDistance(info)` bytes back,
      never past `length` bytes of output. */
  function BackReference(data: seq<Byte>, c: Cursor, length: nat): (r: Result<Cursor>)
    requires |c.out| < length
    ensures c.pos + 2 > |data| ==> r == Err(TruncatedInput)
    ensures c.pos + 2 <= |data| ==>
              (r.Ok? <==> BackRefDistance(ReadU16BE(data, c.pos)) <= |c.out|)
    ensures r.Err? && c.pos + 2 <= |data| ==> r.error == InvalidBackReference
    ensures r.Ok? ==> r.value.pos == c.pos + 2
    ensures r.Ok? ==> |r.value.out| == Min(|c.out| + BackRefLength(ReadU16BE(data, c.pos)), length)
  {
    if c.pos + 2 > |data| then Err(TruncatedInput)
    else
      var info := ReadU16BE(data, c.pos);
      var distance := BackRefDistance(info);
      if distance > |c.out| then Err(InvalidBackReference)
      else
        var count := Min(BackRefLength(info), length - |c.out|);
        Ok(Cursor(c.pos + 2, CopyBack(c.out, distance, count)))
  }

  /** One token, chosen by the current flag bit. */
  function Token(data: seq<Byte>, c: Cursor, flags: Byte, length: nat): (r: Result<Cursor>)
    requires |c.out| < length
    ensures r.Ok? ==> |c.out| < |r.value.out| <= length
    ensures r.Ok? ==> c.pos < r.value.pos <= c.pos + 2 && r.value.pos <= |data|
  {
    if IsBackReference(flags) then BackReference(data, c, length) else Literal(data, c)
  }

  /** Tokens `i`..7 of one flag byte (`flags` its low byte, already shifted `i` times),
      stopping as soon as the output reaches `length`. */
  function Group(data: seq<Byte>, c: Cursor, flags: Byte, i: nat, length: nat): (r: Result<Cursor>)
    requires i <= 8 && |c.out| < length && c.pos <= |data|
    ensures r.Ok? ==> |c.out| <= |r.value.out| <= length
    ensures r.Ok? ==> c.pos <= r.value.pos <= |data|
    ensures r.Ok? && i < 8 ==> c.pos < r.value.pos && |c.out| < |r.value.out|
    decreases 8 - i
  {
    if i == 8 then Ok(c)
    else
      var t := Token(data, c, flags, length);
      if t.Err? || |t.value.out| >= length then t
      else Group(data, t.value, ShiftFlags(flags), i + 1, length)
  }

  /** Flag bytes and their tokens until the output reaches `length`. */
  function Run(data: seq<Byte>, c: Cursor, length: nat): (r: Result<Cursor>)
    requires |c.out| <= length && c.pos <= |data|
    ensures r.Ok? ==> |r.value.out| == length
    ensures r.Ok? ==> c.pos <= r.value.pos <= |data|
    decreases |data| - c.pos
  {
    if |c.out| >= length then Ok(c)
    else if c.pos >= |data| then Err(TruncatedInput)
    else
      var g := Group(data, Cursor(c.pos + 1, c.out), data[c.pos], 0, length);
      if g.Err? then g else Run(data, g.value, length)
  }

  /** The whole stream: header, then tokens from offset 4 into an empty output. */
  function Decode(data: seq<Byte>): (r: Result<seq<Byte>>)
    ensures |data| < 4 ==> r == Err(TruncatedInput)
    ensures 4 <= |data| && data[0] != TYPE_LZ77 ==> r == Err(UnsupportedFormat(data[0]))
    ensures r.Ok? ==> ParseHeader(data).Ok? && |r.value| == ParseHeader(data).value.length
  {
    var h := ParseHeader(data);
    if h.Err? then Err(h.error)
    else
      var end := Run(data, Cursor(4, []), h.value.length);
      if end.Err? then Err(end.error) else Ok(end.value.out)
  }

  /** A back-reference leaves the output produced so far unchanged. */
  lemma {:induction false} CopyBackExtends(out: seq<Byte>, distance: nat, count: nat)
    requires 1 <= distance <= |out|
    ensures out <= CopyBack(out, distance, count)
    decreases count
  {
    if count > 0 {
      CopyBackExtends(out + [out[|out| - distance]], distance, count - 1);
    }
  }

  /** The output is append-only: no token, flag byte or run of flag bytes
      changes a byte already produced. */
  lemma TokenAppends(data: seq<Byte>, c: Cursor, flags: Byte, length: nat)
    requires |c.out| < length
    requires Token(data, c, flags, length).Ok?
    ensures c.out < Token(data, c, flags, length).value.out
  {
    if IsBackReference(flags) {
      var info := ReadU16BE(data, c.pos);
      CopyBackExtends(c.out, BackRefDistance(info), Min(BackRefLength(info), length - |c.out|));
    }
  }

  lemma {:induction false} GroupAppends(data: seq<Byte>, c: Cursor, flags: Byte, i: nat, length: nat)
    requires i <= 8 && |c.out| < length && c.pos <= |data|
    requires Group(data, c, flags, i, length).Ok?
    ensures c.out <= Group(data, c, flags, i, length).value.out
    decreases 8 - i
  {
    if i < 8 {
      var t := Token(data, c, flags, length);
      TokenAppends(data, c, flags, length);
      if |t.value.out| < length {
        GroupAppends(data, t.value, ShiftFlags(flags), i + 1, length);
      }
    }
  }

  lemma {:induction false} RunAppends(data: seq<Byte>, c: Cursor, length: nat)
    requires |c.out| <= length && c.pos <= |data|
    requires Run(data, c, length).Ok?
    ensures c.out <= Run(data, c, length).value.out
    decreases |data| - c.pos
  {
    if |c.out| < length {
      var c1 := Cursor(c.pos + 1, c.out);
      var g := Group(data, c1, data[c.pos], 0, length);
      GroupAppends(data, c1, data[c.pos], 0, length);
      RunAppends(data, g.value, length);
    }
  }

  /** A flag byte governs at most eight tokens of at most two bytes each:
      tokens `i`..7 read no more than `2 * (8 - i)` bytes. */
  lemma {:induction false} GroupBounded(data: seq<Byte>, c: Cursor, flags: Byte, i: nat, length: nat)
    requires i <= 8 && |c.out| < length && c.pos <= |data|
    requires Group(data, c, flags, i, length).Ok?
    ensures Group(data, c, flags, i, length).value.pos <= c.pos + 2 * (8 - i)
    decreases 8 - i
  {
    if i < 8 {
      var t := Token(data, c, flags, length);
      if |t.value.out| < length {
        GroupBounded(data, t.value, ShiftFlags(flags), i + 1, length);
      }
    }
  }

  /** Every byte a back-reference appends repeats the output byte `distance`
      positions before it. */
  lemma {:induction false} CopyBackRepeats(out: seq<Byte>, distance: nat, count: nat, j: nat)
    requires 1 <= distance <= |out| && |out| <= j < |out| + count
    ensures CopyBack(out, distance, count)[j] == CopyBack(out, distance, count)[j - distance]
    decreases count
  {
    var out' := out + [out[|out| - distance]];
    if j > |out| {
      CopyBackRepeats(out', distance, count - 1, j);
    } else {
      CopyBackExtends(out', distance, count - 1);
    }
  }

  /** The bulk slice copy, used when the source range lies in finished output,
      appends exactly what the byte-by-byte copy appends. */
  lemma BulkCopyIsCopyBack(out: seq<Byte>, distance: nat, count: nat)
    requires 1 <= distance <= |out|
    requires |out| - distance + count <= |out|
    ensures out + out[|out| - distance..|out| - distance + count] == CopyBack(out, distance, count)
  {
    var ptr := |out| - distance;
    var r := CopyBack(out, distance, count);
    var s := out + out[ptr..ptr + count];
    assert |s| == |r|;
    CopyBackExtends(out, distance, count);
    forall j | 0 <= j < |r| ensures s[j] == r[j] {
      if j >= |out| {
        CopyBackRepeats(out, distance, count, j);
      }
    }
  }

  /** Run-length extension: a copy from one byte back repeats the last byte. */
  lemma {:induction false} CopyBackRunLength(out: seq<Byte>, count: nat)
    requires 1 <= |out|
    ensures CopyBack(out, 1, count) == out + Repeat(out[|out| - 1], count)
    decreases count
  {
    if count > 0 {
      var a := out[|out| - 1];
      CopyBackRunLength(out + [a], count - 1);
      assert out + [a] + Repeat(a, count - 1) == out + Repeat(a, count);
    }
  }

  /** `CopyBack` is the only extension of `out` by `count` bytes in which every
      new byte repeats the byte `distance` before it. */
  lemma {:induction false} CopyBackUnique(out: seq<Byte>, distance: nat, count: nat, s: seq<Byte>)
    requires 1 <= distance <= |out|
    requires |s| == |out| + count && out <= s
    requires forall j :: |out| <= j < |s| ==> s[j] == s[j - distance]
    ensures s == CopyBack(out, distance, count)
    decreases count
  {
    if count > 0 {
      var out' := out + [out[|out| - distance]];
      assert s[|out|] == s[|out| - distance];
      assert out' <= s;
      CopyBackUnique(out', distance, count - 1, s);
    }
  }

  /** What a back-reference appends: the output so far is kept, and every new
      byte repeats the byte `BackRefDistance(info)` positions before it. */
  lemma BackReferenceRepeats(data: seq<Byte>, c: Cursor, length: nat, k: nat)
    requires |c.out| < length
    requires BackReference(data, c, length).Ok?
    requires |c.out| <= k < |BackReference(data, c, length).value.out|
    ensures c.out <= BackReference(data, c, length).value.out
    ensures k >= BackRefDistance(ReadU16BE(data, c.pos))
    ensures BackReference(data, c, length).value.out[k] ==
            BackReference(data, c, length).value.out[k - BackRefDistance(ReadU16BE(data, c.pos))]
  {
    var info := ReadU16BE(data, c.pos);
    var count := Min(BackRefLength(info), length - |c.out|);
    CopyBackExtends(c.out, BackRefDistance(info), count);
    CopyBackRepeats(c.out, BackRefDistance(info), count, k);
  }

  /** Step `i` of a flag byte `f`, which `Run` starts with `Group(.., f, 0, ..)`
      and `Shifted(f, 0) == f`: the flags have been shifted `i` times, the token
      is a back-reference exactly when bit `7 - i` of `f` is set, and the next
      step runs with the flags shifted `i + 1` times. */
  lemma GroupReadsFlagBits(data: seq<Byte>, c: Cursor, f: Byte, i: nat, length: nat)
    requires i < 8 && |c.out| < length && c.pos <= |data|
    ensures Group(data, c, Shifted(f, i), i, length) ==
      var t := if (f / Pow2(7 - i)) % 2 == 1 then BackReference(data, c, length) else Literal(data, c);
      if t.Err? || |t.value.out| >= length then t
      else Group(data, t.value, Shifted(f, i + 1), i + 1, length)
  {
    FlagBitsMsbFirst(f, i);
  }

  /** One flag byte and its tokens take the decoder from `c` to `c1`. */
  lemma RunAfterGroup(data: seq<Byte>, c: Cursor, c1: Cursor, length: nat)
    requires |c.out| < length && c.pos < |data|
    requires Group(data, Cursor(c.pos + 1, c.out), data[c.pos], 0, length) == Ok(c1)
    ensures Run(data, c, length) == Run(data, c1, length)
  {
  }

  lemma TokenReadsPrefix(data: seq<Byte>, data': seq<Byte>, c: Cursor, flags: Byte, length: nat)
    requires |c.out| < length
    requires Token(data, c, flags, length).Ok?
    requires Token(data, c, flags, length).value.pos <= |data'|
    requires data'[..Token(data, c, flags, length).value.pos] == data[..Token(data, c, flags, length).value.pos]
    ensures Token(data', c, flags, length) == Token(data, c, flags, length)
  {
    var p := Token(data, c, flags, length).value.pos;
    assert data'[c.pos] == data'[..p][c.pos] == data[..p][c.pos] == data[c.pos];
    if IsBackReference(flags) {
      assert data'[c.pos + 1] == data'[..p][c.pos + 1] == data[..p][c.pos + 1] == data[c.pos + 1];
    }
  }

  lemma {:induction false} GroupReadsPrefix(data: seq<Byte>, data': seq<Byte>, c: Cursor, flags: Byte, i: nat, length: nat)
    requires i <= 8 && |c.out| < length && c.pos <= |data| && c.pos <= |data'|
    requires Group(data, c, flags, i, length).Ok?
    requires Group(data, c, flags, i, length).value.pos <= |data'|
    requires data'[..Group(data, c, flags, i, length).value.pos] == data[..Group(data, c, flags, i, length).value.pos]
    ensures Group(data', c, flags, i, length) == Group(data, c, flags, i, length)
    decreases 8 - i
  {
    if i < 8 {
      var p := Group(data, c, flags, i, length).value.pos;
      var t := Token(data, c, flags, length);
      assert data'[..t.value.pos] == data'[..p][..t.value.pos];
      TokenReadsPrefix(data, data', c, flags, length);
      if |t.value.out| < length {
        GroupReadsPrefix(data, data', t.value, ShiftFlags(flags), i + 1, length);
      }
    }
  }

  lemma {:induction false} RunReadsPrefix(data: seq<Byte>, data': seq<Byte>, c: Cursor, length: nat)
    requires |c.out| <= length && c.pos <= |data| && c.pos <= |data'|
    requires Run(data, c, length).Ok?
    requires Run(data, c, length).value.pos <= |data'|
    requires data'[..Run(data, c, length).value.pos] == data[..Run(data, c, length).value.pos]
    ensures Run(data', c, length) == Run(data, c, length)
    decreases |data| - c.pos
  {
    if |c.out| < length {
      var p := Run(data, c, length).value.pos;
      var c1 := Cursor(c.pos + 1, c.out);
      var g := Group(data, c1, data[c.pos], 0, length);
      assert g.Ok?;
      RunAfterGroup(data, c, g.value, length);
      assert data'[c.pos] == data'[..p][c.pos] == data[..p][c.pos] == data[c.pos];
      assert data'[..g.value.pos] == data'[..p][..g.value.pos];
      GroupReadsPrefix(data, data', c1, data[c.pos], 0, length);
      RunAfterGroup(data', c, g.value, length);
      RunReadsPrefix(data, data', g.value, length);
    }
  }

  /** Once the declared length is reached nothing more is read, so bytes
      appended after a complete stream never change what it decodes to. */
  lemma TrailingBytesIgnored(data: seq<Byte>, extra: seq<Byte>)
    requires Decode(data).Ok?
    ensures Decode(data + extra) == Decode(data)
  {
    var h := ParseHeader(data);
    var c0 := Cursor(4, []);
    var p := Run(data, c0, h.value.length).value.pos;
    HeaderOfExtended(data, extra);
    assert (data + extra)[..p] == data[..p];
    RunReadsPrefix(data, data + extra, c0, h.value.length);
  }

  lemma HeaderOfExtended(data: seq<Byte>, extra: seq<Byte>)
    requires 4 <= |data|
    ensures ParseHeader(data + extra) == ParseHeader(data)
  {
    assert (data + extra)[..4] == data[..4];
  }

  /** The copy of one back-reference starting at `ptr` in the output: a bulk
      slice when the source range lies in finished output, otherwise one byte
      at a time so that bytes just written are copied again. */
  method CopyBackReference(dout: seq<Byte>, ptr: nat, cnt: nat) returns (r: seq<Byte>)
    requires ptr < |dout|
    ensures r == CopyBack(dout, |dout| - ptr, cnt)
  {
    ghost var distance := |dout| - ptr;
    if ptr + cnt < |dout| {
      BulkCopyIsCopyBack(dout, distance, cnt);
      r := dout + dout[ptr..ptr + cnt];
    } else {
      r := dout;
      var p := ptr;
      var k := 0;
      while k < cnt
        invariant k <= cnt && p == |r| - distance && |dout| <= |r|
        invariant CopyBack(r, distance, cnt - k) == CopyBack(dout, distance, cnt)
      {
        assert r[p..p + 1] == [r[|r| - distance]];
        r := r + r[p..p + 1];
        p := p + 1;
        k := k + 1;
      }
    }
  }

  /** One token of the inner loop: a back-reference when the current flag bit
      (`flags & 0x80`) is set, otherwise a literal byte. */
  method DecodeToken(data: seq<Byte>, pos: nat, dout: seq<Byte>, flags: Byte, uncompressedLength: nat)
    returns (r: Result<Cursor>)
    requires |dout| < uncompressedLength
    ensures r == Token(data, Cursor(pos, dout), flags, uncompressedLength)
  {
    if IsBackReference(flags) {
      if pos + 2 > |data| {
        return Err(TruncatedInput);
      }
      var info := ReadU16BE(data, pos);
      var num := 3 + (info / 0x1000) % 0x10;
      var ptr := |dout| - info % 0x1000 - 1;
      var cnt := Min(num, uncompressedLength - |dout|);
      if ptr < 0 {
        return Err(InvalidBackReference);
      }
      var copied := CopyBackReference(dout, ptr, cnt);
      return Ok(Cursor(pos + 2, copied));
    } else {
      if pos >= |data| {
        return Err(TruncatedInput);
      }
      return Ok(Cursor(pos + 1, dout + [data[pos]]));
    }
  }

  /** The tokens of one flag byte, most significant bit first, leaving the
      loop as soon as the output reaches `uncompressedLength`. Only the low
      byte of the shifted flags is kept (see `SourceFlags`). */
  method DecodeGroup(data: seq<Byte>, pos: nat, dout: seq<Byte>, flags: Byte, uncompressedLength: nat)
    returns (r: Result<Cursor>)
    requires pos <= |data| && |dout| < uncompressedLength
    ensures r == Group(data, Cursor(pos, dout), flags, 0, uncompressedLength)
  {
    var c := Cursor(pos, dout);
    var bits := flags;
    var i := 0;
    while i < 8
      invariant i <= 8 && c.pos <= |data| && |c.out| < uncompressedLength
      invariant bits == Shifted(flags, i)
      invariant Group(data, c, bits, i, uncompressedLength) == Group(data, Cursor(pos, dout), flags, 0, uncompressedLength)
      decreases 8 - i
    {
      var t := DecodeToken(data, c.pos, c.out, bits, uncompressedLength);
      if t.Err? {
        return t;
      }
      c := t.value;
      bits := ShiftFlags(bits);
      if |c.out| >= uncompressedLength {
        return Ok(c);
      }
      i := i + 1;
    }
    return Ok(c);
  }

  /** `WiiLZ77.decompress`: the header, then one flag byte and its tokens at
      a time until the output has the declared length. */
  method Decompress(data: seq<Byte>) returns (r: Result<seq<Byte>>)
    ensures r == Decode(data)
    ensures r.Ok? ==> |r.value| == data[1] + 0x100 * (data[2] as int) + 0x1_0000 * (data[3] as int)
  {
    if |data| < 4 {
      return Err(TruncatedInput);
    }
    var hdr := ReadU32LE(data, 0);
    var uncompressedLength := hdr / 0x100;
    var compressionType := hdr % 0x100;
    if compressionType != TYPE_LZ77 {
      return Err(UnsupportedFormat(compressionType));
    }
    var c := Cursor(4, []);
    while |c.out| < uncompressedLength
      invariant c.pos <= |data| && |c.out| <= uncompressedLength
      invariant Run(data, c, uncompressedLength) == Run(data, Cursor(4, []), uncompressedLength)
      decreases |data| - c.pos
    {
      if c.pos >= |data| {
        return Err(TruncatedInput);
      }
      var flags := data[c.pos];
      var g := DecodeGroup(data, c.pos + 1, c.out, flags, uncompressedLength);
      if g.Err? {
        return Err(g.error);
      }
      c := g.value;
    }
    return Ok(c.out);
  }
}
