# Wii LZ77 (type 0x10) codec — a verified model

This project models `WiiLZ77` from `scripts/lz77.py`. That class is a byte-level codec for the Nintendo "LZ77 type 0x10" container.

A stream has three parts:
- a 4-byte little-endian header word `uncompressed_length << 8 | 0x10`;
- a sequence of flag bytes, each governing up to eight tokens, most significant bit first;
- the tokens themselves. A clear bit is one literal byte. A set bit is a 2-byte big-endian back-reference: copy `3 + (info >> 12 & 0xf)` bytes, starting `(info & 0xfff) + 1` bytes back in the output.

`decompress` interprets such a stream. It clamps every copy to the declared length and stops as soon as that length is reached, even in the middle of a flag byte. `compress` is a trivial encoder: the header, then for every 8 input bytes a `0x00` flag byte and those bytes as literals.

Modules:
- `Lz77Format` (`format.dfy`): bytes, the header word, the 16-bit back-reference field and the flag bits. Python's shifts and masks are written as division and remainder by powers of two on unbounded integers.
- `Lz77Decompress` (`decompress.dfy`): the reference definition `Decode`, built from `Token`, `Group` (one flag byte) and `Run` (flag bytes until the output is complete) over a `Cursor` (read position, output so far). The source's loops are the methods `CopyBackReference` (the byte-by-byte copy), `DecodeGroup` (the `for` loop over the eight flag bits) and `Decompress` (the outer `while`). `DecodeToken` is one pass of the inner loop's body. Each of the four is proved to compute the matching function.
- `Lz77Compress` (`compress.dfy`): the reference definition `Compressed` and the stride-8 loop `Compress`, proved to compute it.
- `Lz77RoundTrip` (`roundtrip.dfy`): `Decode(Compressed(x)) == x`, plus streams worked out byte by byte.

Bytes are the subset type `Byte` (0..255). A Python `bytes` value is a `seq<Byte>`.

Failures are explicit results (`Result` with an `Error`):
- `UnsupportedFormat(tag)` for a tag other than 0x10 (the source raises `ValueError`);
- `TruncatedInput` when the header, a flag byte or a token is cut short (the source raises `struct.error`, sooner or later);
- `InvalidBackReference` when a back-reference points before the start of the output;
- `LengthTooLarge` when `compress` is given 2^24 bytes or more, because the header word no longer fits in 32 bits and `struct.pack('<I', ...)` raises.

The source shifts `flags` left without bound and tests only `flags & 0x80`, which depends on the low byte alone. So the model keeps only the low byte and shifts it with `ShiftFlags`, a multiplication by two modulo 256. `SourceFlags` proves that the test and the shift agree with the unbounded integer of the source.

Small functions render single source expressions: `IsBackReference` (`flags & 0x80`, line 26), `ShiftFlags` (`flags <<= 1`, line 40), `BackRefLength` and `BackRefDistance` (lines 28-30), `ReadU32LE`, `ReadU16BE` and `WriteU32LE` (the `struct` calls at lines 13, 27 and 49) and `HeaderWord` (line 49). What they mean is proved in `SourceFlags`, `ShiftedLowByte`, `FlagBitsMsbFirst`, `BackRefFields`, `ReadWriteU32LE`, `WriteReadU32LE` and `HeaderWordFits`.

Notes on the code:
- Over-long input to `compress` makes `struct.pack` raise; the length is not truncated silently.
- Ten bytes compress to 16 bytes: 4 of header, 10 of literals and 2 flag bytes (`TenEqualBytes`).
- The header word `0x411` is laid out in memory as the bytes `11 04 00 00`, and its tag is `0x11` (`WrongTagRefused`).
- The inner `for i in range(cnt)` reuses the name of the outer loop variable. This has no effect, because the outer loop takes its next value from its own `range` iterator; the model uses separate counters.

## Model

| member | source | states |
|---|---|---|
| Lz77Format.ReadWriteU32LE | scripts/lz77.py:13 | reading back the four little-endian bytes written for a 32-bit word gives that word, whatever follows them |
| Lz77Format.WriteReadU32LE | scripts/lz77.py:13 | re-encoding the word read from the first four bytes gives exactly those four bytes |
| Lz77Format.ParseHeader | scripts/lz77.py:13-18 | fewer than 4 bytes is `TruncatedInput`; a low header byte other than 0x10 is refused with that tag, whatever the rest holds; otherwise the length is bytes 1..3 little-endian, so it is below 2^24 |
| Lz77Format.HeaderWordFits | scripts/lz77.py:49 | the header word `len << 8` OR `0x10` fits in an unsigned 32-bit word exactly when `len < 2^24` |
| Lz77Format.EncodeHeader | scripts/lz77.py:49 | the header bytes are `0x10`, then the length's low, middle and high byte |
| Lz77Format.ParseEncodeHeader | scripts/lz77.py:13-15 | the header `compress` writes parses back to the same length and tag 0x10, whatever follows it |
| Lz77Format.SourceFlags | scripts/lz77.py:26 | testing bit 7 of the unbounded `flags` is testing the low byte, and `flags <<= 1` followed by taking the low byte is `ShiftFlags` of the low byte |
| Lz77Format.ShiftFlags | scripts/lz77.py:40 | the shifted flag byte is `2 * flags mod 256`, the low byte of `flags << 1` |
| Lz77Format.ShiftedLowByte | scripts/lz77.py:40 | after `i` shifts the kept flags are the low byte of `flags * 2^i` |
| Lz77Format.FlagBitsMsbFirst | scripts/lz77.py:25-26 | on the step after `i` shifts, the test selects bit `7 - i` of the flag byte: bits are consumed most significant first |
| Lz77Format.BackRefFields | scripts/lz77.py:27-30 | for the bytes `hi lo`, the length is `3 + hi >> 4` (3..18) and the distance back is `(hi & 0xf) * 256 + lo + 1` (1..4096) |
| Lz77Decompress.CopyBack | scripts/lz77.py:32-37 | a back-reference of `count` bytes lengthens the output by exactly `count` |
| Lz77Decompress.CopyBackExtends | scripts/lz77.py:33-36 | a back-reference leaves the bytes already output unchanged |
| Lz77Decompress.CopyBackRepeats | scripts/lz77.py:32-37 | every byte a back-reference appends equals the output byte `distance` positions before it |
| Lz77Decompress.CopyBackUnique | scripts/lz77.py:32-37 | the copy is the only extension of the output with that property, so any correct copy equals it |
| Lz77Decompress.BulkCopyIsCopyBack | scripts/lz77.py:32-33 | when `ptr + cnt < len(dout)`, the bulk slice `dout[ptr:ptr + cnt]` appends the same bytes as the byte-by-byte copy |
| Lz77Decompress.CopyBackRunLength | scripts/lz77.py:34-37 | a byte-by-byte copy from one byte back appends `count` copies of the last byte (run-length extension) |
| Lz77Decompress.Literal | scripts/lz77.py:38-39 | a clear flag bit appends the input byte at the read position and advances by one byte; at the end of the input it is `TruncatedInput` |
| Lz77Decompress.BackReference | scripts/lz77.py:26-37 | with fewer than two bytes left it is `TruncatedInput`; otherwise it succeeds exactly when `(info & 0xfff) + 1` reaches no further back than the start of the output (else `InvalidBackReference`), advances by two bytes and leaves the output `min(len(dout) + num, uncompressed_length)` long |
| Lz77Decompress.BackReferenceRepeats | scripts/lz77.py:30-37 | a back-reference keeps the output so far, and every byte it appends repeats the byte `(info & 0xfff) + 1` positions before it |
| Lz77Decompress.Token | scripts/lz77.py:26-39 | a successful token adds at least one byte without passing the declared length, and reads one or two input bytes |
| Lz77Decompress.Group | scripts/lz77.py:25-42 | a successful flag byte never passes the declared length or the input, and while it has tokens left it consumes input and adds output |
| Lz77Decompress.GroupReadsFlagBits | scripts/lz77.py:25-42 | step `i` of flag byte `f` runs with `f` shifted `i` times; it is a back-reference exactly when bit `7 - i` of `f` is set, and it hands `f` shifted `i + 1` times to the next step |
| Lz77Decompress.GroupBounded | scripts/lz77.py:25-39 | one flag byte governs at most eight tokens of at most two bytes each |
| Lz77Decompress.Run | scripts/lz77.py:22-42 | on success the output has exactly the declared length, and the read position stays within the input |
| Lz77Decompress.Decode | scripts/lz77.py:10-44 | a short header is refused; a wrong tag is refused with that tag; on success the output length equals the declared length |
| Lz77Decompress.TokenAppends | scripts/lz77.py:33-39 | a token strictly extends the output and changes none of the bytes already there |
| Lz77Decompress.GroupAppends | scripts/lz77.py:25-42 | the tokens of a flag byte only append to the output |
| Lz77Decompress.RunAppends | scripts/lz77.py:22-42 | the whole decoding loop only appends to the output |
| Lz77Decompress.TokenReadsPrefix | scripts/lz77.py:26-39 | a token reads nothing past the position it stops at |
| Lz77Decompress.GroupReadsPrefix | scripts/lz77.py:25-42 | once the length is reached, the rest of the flag byte is discarded: inputs that agree up to where the group stops decode alike |
| Lz77Decompress.RunReadsPrefix | scripts/lz77.py:22-42 | the loop reads nothing past where it stops |
| Lz77Decompress.TrailingBytesIgnored | scripts/lz77.py:22-44 | bytes appended after a complete stream never change its decoding |
| Lz77Decompress.CopyBackReference | scripts/lz77.py:30-37 | both copy paths (bulk slice, or one byte at a time with `ptr += 1`) compute `CopyBack` |
| Lz77Decompress.DecodeToken | scripts/lz77.py:26-39 | one step of the inner loop computes `Token`, with its truncation and invalid-reference errors |
| Lz77Decompress.DecodeGroup | scripts/lz77.py:25-42 | the `for i in range(8)` loop with `flags <<= 1` and the early `break` computes `Group` |
| Lz77Decompress.Decompress | scripts/lz77.py:10-44 | `decompress` computes `Decode`, and on success returns exactly the length in header bytes 1..3 |
| Lz77Compress.LiteralGroups | scripts/lz77.py:50-52 | the groups hold every input byte plus one flag byte per started block of eight |
| Lz77Compress.GroupCountIsCeiling | scripts/lz77.py:50 | `range(0, len(data), 8)` has `ceil(len(data) / 8)` steps |
| Lz77Compress.Compressed | scripts/lz77.py:47-53 | the encoding exists exactly when `len(data) < 2^24`; it is `4 + len + ceil(len / 8)` bytes long and begins with the header for `len` |
| Lz77Compress.EmptyInput | scripts/lz77.py:49-53 | an empty input encodes to the four header bytes alone |
| Lz77Compress.LiteralGroupsAt | scripts/lz77.py:50-52 | after the header, each offset that is a multiple of nine holds a zero flag byte, and any other offset `q` holds input byte `q - q / 9 - 1` |
| Lz77Compress.Compress | scripts/lz77.py:47-53 | `compress` computes `Compressed`, including the refusal of lengths of 2^24 or more |
| Lz77RoundTrip.GroupOfLiterals | scripts/lz77.py:38-42 | under a zero flag byte, the next bytes are copied one by one up to the end of the flag byte or of the declared length |
| Lz77RoundTrip.RunOfLiteralGroups | scripts/lz77.py:22-42 | decoding the literal groups of `x` appends exactly `x` and consumes all of them |
| Lz77RoundTrip.RoundTrip | scripts/lz77.py:47-53 | for every `x` shorter than 2^24 bytes, compressing succeeds and decompressing the result gives back `x` |
| Lz77RoundTrip.TenEqualBytes | scripts/lz77.py:49-52 | ten equal bytes encode as a 4-byte header, a full group and a two-byte group (16 bytes), and decode back |
| Lz77RoundTrip.WrongTagRefused | scripts/lz77.py:17-18 | the header word `0x411` (tag 0x11) is refused whatever follows |
| Lz77RoundTrip.RunLengthToken | scripts/lz77.py:34-37 | a back-reference with displacement 0 after the single byte `a` fills the output with `a` |
| Lz77RoundTrip.OverlappingBackReference | scripts/lz77.py:32-37 | the stream for a literal `a` and an overlapping back-reference of length `n + 3` decodes to `n + 4` bytes `a` |
| Lz77RoundTrip.EighteenCopies | scripts/lz77.py:28 | the longest back-reference (nibble 0xf) copies 18 bytes |
| Lz77RoundTrip.StopsMidFlagByte | scripts/lz77.py:41-42 | a stream that reaches its length at the first bit of flag byte `0x7f` ignores the seven set bits after it and needs no more input |
| Lz77RoundTrip.MissingFlagByte | scripts/lz77.py:22-23 | a header that declares output but has nothing after it is `TruncatedInput` |
| Lz77RoundTrip.BackReferenceBeforeStart | scripts/lz77.py:26-30 | a back-reference as the very first token is an `InvalidBackReference` |

## Left out

- `main` and the command-line entry point (scripts/lz77.py:56-76): argument parsing and file I/O.
- `io.BytesIO` and `struct` are library mechanics. They are replaced by explicit index arithmetic on the input sequence, with little-endian 32-bit, big-endian 16-bit and single-byte reads.
- Lz77Decompress.Decompress: a literal read at the end of input appends nothing in the source (`stream.read(1)` returns `b''`), and the source raises only at its next `struct` read. The model (`Lz77Decompress.Literal`) fails with `TruncatedInput` at once; the outcome is a failure either way. The exception types and messages are not modelled.
- Lz77Decompress.Decompress: a back-reference pointing before the start of the output gives `InvalidBackReference`. The source has no check there, and a negative `ptr` gets Python's negative-index slicing. The bulk slice (`ptr + cnt < len(dout)`) appends a slice counted from the end of the output, possibly shorter than `cnt` or empty. The byte-by-byte loop appends nothing while `ptr == -1` and at most one byte per step, counted from the end, while `ptr <= -2`; once `ptr` reaches 0 it copies forward from the start of the output. Either way the bytes added need not be `cnt` bytes from `distance` back, and may be fewer than `cnt`. Decoding may then go on to a successful output where the model returns `InvalidBackReference`; that behaviour is not modelled. `Lz77Decompress.BackReference`, `Decode` and `DecodeToken` make the same choice.
- Lz77Compress.Compress: an input of 2^24 bytes or more gives `LengthTooLarge`, where the source raises `struct.error` from `struct.pack`.
- The unused local `disp` (scripts/lz77.py:29) is dead code and has no counterpart.
- `flags` is kept as its low byte rather than as an unbounded integer; `SourceFlags` shows the two agree on every test and shift the loop makes.
- The encoder never searches for matches or emits back-references, and neither does the model.
