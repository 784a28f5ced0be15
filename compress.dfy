/** `WiiLZ77.compress`: a container that stores every byte as a literal. After
    the header come groups of a `0x00` flag byte and up to eight input bytes. */
module Lz77Compress {
  import opened Lz77Format

  /** The groups that follow the header: for each offset `0, 8, 16, ...` a zero
      flag byte and the (at most eight) next input bytes. */
  function LiteralGroups(data: seq<Byte>): (r: seq<Byte>)
    ensures |r| == |data| + GroupCount(|data|)
    decreases |data|
  {
    if |data| == 0 then []
    else
      var k := Min(8, |data|);
      [0] + data[..k] + LiteralGroups(data[k..])
  }

  /** How many groups `n` input bytes make: one per started block of eight. */
  function GroupCount(n: nat): (r: nat)
    decreases n
  {
    if n == 0 then 0 else 1 + GroupCount(n - Min(8, n))
  }

  /** The number of groups is `ceil(n / 8)`. */
  lemma {:induction false} GroupCountIsCeiling(n: nat)
    ensures GroupCount(n) == (n + 7) / 8
    decreases n
  {
    if n > 0 {
      GroupCountIsCeiling(n - Min(8, n));
    }
  }

  /** The whole encoding, or `LengthTooLarge` when the length does not fit the
      24-bit header field (there `struct.pack('<I', ...)` raises). */
  function Compressed(data: seq<Byte>): (r: Result<seq<Byte>>)
    ensures r.Ok? <==> |data| < MAX_LENGTH
    ensures r.Ok? ==> |r.value| == 4 + |data| + (|data| + 7) / 8
    ensures r.Ok? ==> r.value[..4] == EncodeHeader(|data|)
  {
    GroupCountIsCeiling(|data|);
    if |data| >= MAX_LENGTH then Err(LengthTooLarge)
    else Ok(EncodeHeader(|data|) + LiteralGroups(data))
  }

  /** An empty input is encoded as the header alone. */
  lemma EmptyInput()
    ensures Compressed([]) == Ok([TYPE_LZ77, 0, 0, 0])
  {
    assert EncodeHeader(0) + LiteralGroups([]) == [TYPE_LZ77, 0, 0, 0];
  }

  /** Layout of the groups: the byte at offset `q` is a zero flag byte when
      `q` is a multiple of nine, otherwise input byte `q - q / 9 - 1`. */
  lemma {:induction false} LiteralGroupsAt(data: seq<Byte>, q: nat)
    requires q < |LiteralGroups(data)|
    ensures q % 9 == 0 ==> LiteralGroups(data)[q] == 0
    ensures q % 9 != 0 ==> 0 <= q - q / 9 - 1 < |data| && LiteralGroups(data)[q] == data[q - q / 9 - 1]
    decreases |data|
  {
    var k := Min(8, |data|);
    var rest := data[k..];
    assert LiteralGroups(data) == [0] + data[..k] + LiteralGroups(rest);
    if q < 9 {
      assert q % 9 == q && q / 9 == 0;
    } else {
      var q' := q - 9;
      assert k == 8;
      assert LiteralGroups(data)[q] == LiteralGroups(rest)[q'];
      LiteralGroupsAt(rest, q');
      assert q' % 9 == q % 9 && q' / 9 == q / 9 - 1;
      if q % 9 != 0 {
        assert q - q / 9 - 1 == 8 + (q' - q' / 9 - 1);
      }
    }
  }

  /** The groups from offset `i` on: one group for `data[i:i + 8]`, then the rest. */
  lemma NextGroup(data: seq<Byte>, i: nat)
    requires i < |data|
    ensures LiteralGroups(data[i..]) ==
      [0] + data[i..Min(i + 8, |data|)] + LiteralGroups(data[Min(i + 8, |data|)..])
  {
    var k := Min(8, |data| - i);
    assert data[i..][..k] == data[i..Min(i + 8, |data|)];
    assert data[i..][k..] == data[Min(i + 8, |data|)..];
  }

  /** Appending one group to the output moves it from the pending groups to
      the output, leaving their concatenation unchanged. */
  lemma EmitGroup(dout: seq<Byte>, data: seq<Byte>, i: nat)
    requires i < |data|
    ensures dout + LiteralGroups(data[i..]) ==
      dout + [0] + data[i..Min(i + 8, |data|)] + LiteralGroups(data[Min(i + 8, |data|)..])
  {
    NextGroup(data, i);
  }

  /** `WiiLZ77.compress`: the header word `len(data) << 8 | TYPE_LZ77`, then a
      zero flag byte before each slice `data[i:i + 8]`. */
  method Compress(data: seq<Byte>) returns (r: Result<seq<Byte>>)
    ensures r == Compressed(data)
  {
    var word := HeaderWord(|data|);
    if word >= U32_LIMIT {
      return Err(LengthTooLarge);
    }
    HeaderWordFits(|data|);
    var dout := WriteU32LE(word);
    var i := 0;
    while i < |data|
      invariant 0 <= i
      invariant dout + LiteralGroups(data[Min(i, |data|)..]) == EncodeHeader(|data|) + LiteralGroups(data)
      decreases |data| - i
    {
      EmitGroup(dout, data, i);
      dout := dout + [0] + data[i..Min(i + 8, |data|)];
      i := i + 8;
    }
    assert data[Min(i, |data|)..] == [];
    assert dout == EncodeHeader(|data|) + LiteralGroups(data);
    return Ok(dout);
  }
}
