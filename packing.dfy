/** Packing a string of '0' and '1' into bytes, most significant bit first (the
    second loop of `huffmanEncode` in src/lib/compressors.ts).

    Bit `i` of the string goes to byte `i >> 3` at bit position `7 - (i & 7)`,
    counting positions from the least significant bit; for the non-negative
    indexes of a string these are `i / 8` and `7 - i % 8`. A byte is a `bv8`, as
    one element of a `Uint8Array`. */
module BitPacking {

  /** The value `1 << (7 - j)`: the bit that holds the `j`-th bit of a group of
      eight, the first of them being the most significant. */
  function Mask(j: nat): (m: bv8)
    requires j < 8
  {
    if j == 0 then 0x80 else if j == 1 then 0x40 else if j == 2 then 0x20
    else if j == 3 then 0x10 else if j == 4 then 0x08 else if j == 5 then 0x04
    else if j == 6 then 0x02 else 0x01
  }

  /** The table above is the shift the source writes. */
  lemma MaskIsShift(j: nat)
    requires j < 8
    ensures Mask(j) == (1 as bv8) << (7 - j)
  {
  }

  /** The `j`-th bit of `b`, most significant first. */
  predicate BitAt(b: bv8, j: nat)
    requires j < 8
  {
    b & Mask(j) != 0
  }

  /** `Math.ceil(n / 8)`: the number of bytes that hold `n` bits. */
  function ByteCount(n: nat): nat
  {
    (n + 7) / 8
  }

  /** Bit `i` of the string is set: it exists and is '1'. */
  predicate Bit(bits: string, i: nat)
  {
    i < |bits| && bits[i] == '1'
  }

  /** Byte `k` of the packed output: bits `8k` to `8k + 7` of the string, most
      significant first, with missing bits taken as 0. */
  function PackedByte(bits: string, k: nat): bv8
  {
    (if Bit(bits, 8 * k) then 0x80 else 0) |
    (if Bit(bits, 8 * k + 1) then 0x40 else 0) |
    (if Bit(bits, 8 * k + 2) then 0x20 else 0) |
    (if Bit(bits, 8 * k + 3) then 0x10 else 0) |
    (if Bit(bits, 8 * k + 4) then 0x08 else 0) |
    (if Bit(bits, 8 * k + 5) then 0x04 else 0) |
    (if Bit(bits, 8 * k + 6) then 0x02 else 0) |
    (if Bit(bits, 8 * k + 7) then 0x01 else 0)
  }

  /** The packed bytes of a bit string. */
  function Pack(bits: string): (out: seq<bv8>)
    ensures |out| == ByteCount(|bits|)
  {
    seq(ByteCount(|bits|), k requires 0 <= k => PackedByte(bits, k))
  }

  /** Setting one bit of a byte leaves the other seven as they were. */
  lemma SetBit(b: bv8, m: nat, j: nat)
    requires m < 8 && j < 8
    ensures BitAt(b | Mask(m), j) <==> BitAt(b, j) || j == m
  {
  }

  /** The bits of a packed byte are the string's bits. */
  lemma PackedByteBits(bits: string, k: nat, j: nat)
    requires j < 8
    ensures BitAt(PackedByte(bits, k), j) <==> Bit(bits, 8 * k + j)
  {
  }

  /** A byte is determined by its eight bits. */
  lemma ByteExt(a: bv8, b: bv8)
    requires forall j :: 0 <= j < 8 ==> (BitAt(a, j) <==> BitAt(b, j))
    ensures a == b
  {
    assert BitAt(a, 0) == BitAt(b, 0) && BitAt(a, 1) == BitAt(b, 1);
    assert BitAt(a, 2) == BitAt(b, 2) && BitAt(a, 3) == BitAt(b, 3);
    assert BitAt(a, 4) == BitAt(b, 4) && BitAt(a, 5) == BitAt(b, 5);
    assert BitAt(a, 6) == BitAt(b, 6) && BitAt(a, 7) == BitAt(b, 7);
  }

  /** The packing loop: a zeroed buffer of `ceil(|bits| / 8)` bytes, in which
      every '1' of the string sets its bit. */
  method PackBits(bits: string) returns (out: array<bv8>)
    ensures fresh(out)
    ensures out[..] == Pack(bits)
  {
    var n := ByteCount(|bits|);
    out := new bv8[n](_ => 0);
    var i := 0;
    while i < |bits|
      invariant 0 <= i <= |bits|
      invariant out.Length == n
      invariant forall k, j :: 0 <= k < n && 0 <= j < 8 ==>
        (BitAt(out[k], j) <==> 8 * k + j < i && bits[8 * k + j] == '1')
    {
      var byteIndex := i / 8;
      var bitIndex := i % 8;
      if bits[i] == '1' {
        var before := out[byteIndex];
        out[byteIndex] := before | Mask(bitIndex);
        forall j | 0 <= j < 8
          ensures BitAt(out[byteIndex], j) <==> BitAt(before, j) || j == bitIndex
        {
          SetBit(before, bitIndex, j);
        }
      }
      assert i == 8 * byteIndex + bitIndex;
      i := i + 1;
    }
    forall k | 0 <= k < n ensures out[k] == Pack(bits)[k] {
      forall j | 0 <= j < 8 ensures BitAt(out[k], j) <==> BitAt(Pack(bits)[k], j) {
        PackedByteBits(bits, k, j);
      }
      ByteExt(out[k], Pack(bits)[k]);
    }
  }

  /** The layout of the packed output: `ceil(|bits| / 8)` bytes; bit `i` of the
      string is bit `7 - i % 8` (most significant first) of byte `i / 8`; the
      padding bits after the end of the string are 0; no bits, no bytes. */
  lemma PackLayout(bits: string)
    ensures |Pack(bits)| * 8 >= |bits| && |Pack(bits)| * 8 < |bits| + 8
    ensures forall i :: 0 <= i < |bits| ==>
      (BitAt(Pack(bits)[i / 8], i % 8) <==> bits[i] == '1')
    ensures forall i :: |bits| <= i < 8 * |Pack(bits)| ==> !BitAt(Pack(bits)[i / 8], i % 8)
    ensures bits == [] ==> Pack(bits) == []
  {
    forall i | 0 <= i < 8 * |Pack(bits)|
      ensures BitAt(Pack(bits)[i / 8], i % 8) <==> Bit(bits, i)
    {
      PackedByteBits(bits, i / 8, i % 8);
    }
  }
}
