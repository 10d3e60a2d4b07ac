/**
 * LSB-first bit packing of DEFLATE (section 3.1.1 of RFC 1951): the
 * `BitWriter` and `BitReader` classes of the custom DEFLATE implementation.
 * Bit position `p` of a byte buffer is bit `p % 8` of byte `p / 8`.
 */
module BitIO {
  import opened Arith
  import opened FixedHuffman

  /** The byte with only bit `k` set, `1 << k`, spelled out. */
  function Mask(k: nat): bv8
    requires k < 8
  {
    if k == 0 then 1 else if k == 1 then 2 else if k == 2 then 4 else if k == 3 then 8
    else if k == 4 then 16 else if k == 5 then 32 else if k == 6 then 64 else 128
  }

  /** `Mask(k)` is the shift `1 << k` of the source. */
  lemma MaskIsShift(k: nat)
    requires k < 8
    ensures Mask(k) == 1 << k
  {
  }

  /** Bit `k` of byte `x`. */
  predicate ByteBit(x: bv8, k: nat)
    requires k < 8
  {
    x & Mask(k) != 0
  }

  /** The test `(x >> k) & 1` of `read_bit_msb` is bit `k` of `x`. */
  lemma ShiftTestIsByteBit(x: bv8, k: nat)
    requires k < 8
    ensures ((x >> k) & 1 == 1) == ByteBit(x, k)
  {
  }

  /** Bit `p` of the buffer; positions past the end read as 0. */
  function BitAt(data: seq<bv8>, p: nat): bool
  {
    p / 8 < |data| && ByteBit(data[p / 8], p % 8)
  }

  /** The `n` bits of the buffer starting at position `p`. */
  function BitsFrom(data: seq<bv8>, p: nat, n: nat): (bits: seq<bool>)
    ensures |bits| == n
    ensures forall i :: 0 <= i < n ==> bits[i] == BitAt(data, p + i)
  {
    seq(n, i requires 0 <= i < n => BitAt(data, p + i))
  }

  /** Bit `i` of `v`, the test `v & (1 << i)`. */
  function Bit(v: nat, i: nat): bool
  {
    (v / Pow2(i)) % 2 == 1
  }

  /** The `n` low bits of `v`, least significant first. */
  function LsbBits(v: nat, n: nat): (bits: seq<bool>)
    ensures |bits| == n
    ensures forall i :: 0 <= i < n ==> bits[i] == Bit(v, i)
  {
    seq(n, i requires 0 <= i < n => Bit(v, i))
  }

  /** The number a sequence of bits stands for, least significant first. */
  function LsbValue(bits: seq<bool>): (v: nat)
    ensures v < Pow2(|bits|)
  {
    if bits == [] then 0
    else LsbValue(bits[..|bits| - 1]) + (if bits[|bits| - 1] then Pow2(|bits| - 1) else 0)
  }

  /** `data` holds exactly `bits`, padded with zero bits to a whole number of bytes. */
  ghost predicate Packs(data: seq<bv8>, bits: seq<bool>)
  {
    && |data| == (|bits| + 7) / 8
    && forall p :: 0 <= p < 8 * |data| ==> BitAt(data, p) == (p < |bits| && bits[p])
  }

  /** Reading back the `n` low bits of `v`, least significant first, gives `v mod 2^n`. */
  lemma {:induction false} LsbValueOfBits(v: nat, n: nat)
    ensures LsbValue(LsbBits(v, n)) == v % Pow2(n)
  {
    if n == 0 {
    } else {
      assert LsbBits(v, n)[..n - 1] == LsbBits(v, n - 1);
      LsbValueOfBits(v, n - 1);
      ModPow2Step(v, n - 1);
    }
  }

  /** Reading one bit further appends that bit. */
  lemma BitsFromSnoc(data: seq<bv8>, p: nat, n: nat)
    ensures BitsFrom(data, p, n + 1) == BitsFrom(data, p, n) + [BitAt(data, p + n)]
  {
  }

  /** Reading one bit more adds that bit's weight to the value read. */
  lemma LsbValueStep(data: seq<bv8>, p: nat, n: nat, q: nat)
    requires q == p + n
    ensures LsbValue(BitsFrom(data, p, n + 1)) == LsbValue(BitsFrom(data, p, n)) + (if BitAt(data, q) then Pow2(n) else 0)
  {
    BitsFromSnoc(data, p, n);
    LsbValueSnoc(BitsFrom(data, p, n), BitAt(data, p + n));
  }

  /** Appending a bit adds its weight. */
  lemma LsbValueSnoc(bits: seq<bool>, b: bool)
    ensures LsbValue(bits + [b]) == LsbValue(bits) + (if b then Pow2(|bits|) else 0)
  {
    assert (bits + [b])[..|bits|] == bits;
  }

  /**
   * `write_code_reversed` emits bit `n-1-j` of the code as its `j`-th bit, so the
   * MSB-first bits of a code are the `write_bits` bits of that code reversed.
   */
  lemma {:induction false} MsbBitsAreReversedLsbBits(c: nat, n: nat, j: nat)
    requires j < n
    ensures MsbBits(c, n)[j] == Bit(c, n - 1 - j)
    ensures MsbBits(c, n)[j] == LsbBits(c, n)[n - 1 - j]
  {
    if j < n - 1 {
      MsbBitsAreReversedLsbBits(c / 2, n - 1, j);
      DivDiv(c, Pow2(n - 2 - j));
    }
  }

  /** One more step of `write_bits` appends bit `i` of the value. */
  lemma LsbBitsSnoc(v: nat, i: nat)
    ensures LsbBits(v, i + 1) == LsbBits(v, i) + [Bit(v, i)]
  {
  }

  /** One more step of `write_code_reversed` extends the emitted prefix by bit `i` of the code. */
  lemma MsbPrefixGrows(c: nat, n: nat, i: nat)
    requires i < n
    ensures MsbBits(c, n)[..n - i] == MsbBits(c, n)[..n - 1 - i] + [Bit(c, i)]
  {
    MsbBitsAreReversedLsbBits(c, n, n - 1 - i);
  }

  /** The bits of a packed buffer are the packed bits; past them the buffer reads as zeros. */
  lemma PackedBitsFrom(data: seq<bv8>, bits: seq<bool>, p: nat, n: nat)
    requires Packs(data, bits)
    ensures p + n <= |bits| ==> BitsFrom(data, p, n) == bits[p..p + n]
    ensures p >= |bits| ==> forall i :: 0 <= i < n ==> !BitsFrom(data, p, n)[i]
  {
    if p + n <= |bits| {
      forall i | 0 <= i < n
        ensures BitsFrom(data, p, n)[i] == bits[p + i]
      {
        assert p + i < 8 * |data|;
      }
    }
    if p >= |bits| {
      forall i | 0 <= i < n
        ensures !BitsFrom(data, p, n)[i]
      {
        if p + i < 8 * |data| {
        }
      }
    }
  }

  /** Setting one bit of a byte leaves the other seven as they were. */
  lemma OrBit(x: bv8, m: nat, n: nat)
    requires m < 8 && n < 8
    ensures ByteBit(x | Mask(m), n) == (n == m || ByteBit(x, n))
  {
  }

  /** The test `x & (1 << m)` of `read_bits`: it is bit `m` of `x`. */
  function MaskTest(x: bv8, m: nat): (r: bool)
    requires m < 8
    ensures r == ByteBit(x, m)
  {
    MaskIsShift(m);
    x & (1 << m) != 0
  }

  /** ORing bit `p` into its byte sets that bit and no other. */
  lemma SetBitAt(data: seq<bv8>, p: nat)
    requires p / 8 < |data|
    ensures forall j: nat :: BitAt(data[p / 8 := data[p / 8] | Mask(p % 8)], j) == (j == p || BitAt(data, j))
  {
    var d := data[p / 8 := data[p / 8] | Mask(p % 8)];
    forall j: nat
      ensures BitAt(d, j) == (j == p || BitAt(data, j))
    {
      if j / 8 == p / 8 {
        OrBit(data[p / 8], p % 8, j % 8);
      }
    }
  }

  /** Pushing a zero byte adds only zero bits. */
  lemma AppendZeroByte(data: seq<bv8>)
    ensures forall j: nat :: BitAt(data + [0], j) == BitAt(data, j)
  {
    forall j: nat
      ensures BitAt(data + [0], j) == BitAt(data, j)
    {
      if j / 8 == |data| {
        assert (data + [0])[j / 8] == 0;
        assert !ByteBit(0, j % 8);
      }
    }
  }

  /** The buffer after one write step at position `p`. */
  function PushBit(data: seq<bv8>, p: nat, b: bool): (d: seq<bv8>)
    requires p / 8 <= |data|
  {
    var d1 := if p / 8 >= |data| then data + [0] else data;
    if b then d1[p / 8 := d1[p / 8] | Mask(p % 8)] else d1
  }

  /** A write step sets bit `p` when `b` holds and leaves every other bit as it was. */
  lemma PushBitAt(data: seq<bv8>, p: nat, b: bool)
    requires p / 8 <= |data|
    ensures forall j: nat :: BitAt(PushBit(data, p, b), j) == ((b && j == p) || BitAt(data, j))
  {
    var d1 := if p / 8 >= |data| then data + [0] else data;
    AppendZeroByte(data);
    assert forall j: nat :: BitAt(d1, j) == BitAt(data, j);
    if b {
      SetBitAt(d1, p);
    }
  }

  /** A write step keeps every byte and only sets bits in it. */
  lemma PushBitSetsOnly(data: seq<bv8>, p: nat, b: bool)
    requires p / 8 <= |data|
    ensures |data| <= |PushBit(data, p, b)|
    ensures forall k :: 0 <= k < |data| ==> PushBit(data, p, b)[k] | data[k] == PushBit(data, p, b)[k]
  {
    var d := PushBit(data, p, b);
    forall k | 0 <= k < |data|
      ensures d[k] | data[k] == d[k]
    {
      if b && k == p / 8 {
        assert d[k] == data[k] | Mask(p % 8);
      }
    }
  }

  /** A write step keeps the packing invariant, appends exactly its bit and only sets bits. */
  lemma PushBitPacks(data: seq<bv8>, bits: seq<bool>, b: bool)
    requires Packs(data, bits)
    ensures Packs(PushBit(data, |bits|, b), bits + [b])
    ensures |data| <= |PushBit(data, |bits|, b)|
    ensures forall k :: 0 <= k < |data| ==> PushBit(data, |bits|, b)[k] | data[k] == PushBit(data, |bits|, b)[k]
  {
    var p := |bits|;
    var d := PushBit(data, p, b);
    PushBitAt(data, p, b);
    PushBitSetsOnly(data, p, b);
    assert |d| == (|bits + [b]| + 7) / 8;
    forall j | 0 <= j < 8 * |d|
      ensures BitAt(d, j) == (j < |bits + [b]| && (bits + [b])[j])
    {
      if j < 8 * |data| {
        assert BitAt(data, j) == (j < |bits| && bits[j]);
      } else {
        assert !BitAt(data, j);
      }
    }
  }

  /** `BitWriter`: a growing byte buffer and the number of bits written into it. */
  class BitWriter {
    var data: seq<bv8>
    var bitPos: nat

    /** The bits written so far, in writing order. */
    ghost function Bits(): (bits: seq<bool>)
      reads this
      ensures |bits| == bitPos
    {
      BitsFrom(data, 0, bitPos)
    }

    /** `data.size() == ceil(bit_pos / 8)`, and no bit at or past `bit_pos` is set. */
    ghost predicate Valid()
      reads this
    {
      Packs(data, Bits())
    }

    constructor ()
      ensures Valid() && data == [] && bitPos == 0
    {
      data := [];
      bitPos := 0;
    }

    /** `total_bits`: the number of bits written. */
    function TotalBits(): (n: nat)
      reads this
      ensures n == |Bits()|
    {
      bitPos
    }

    /**
     * The body shared by both write loops: push a zero byte when `bit_pos`
     * has reached the end of `data`, OR the bit into its byte, advance.
     */
    method PutBit(b: bool)
      requires Valid()
      modifies this
      ensures Valid()
      ensures bitPos == old(bitPos) + 1
      ensures Bits() == old(Bits()) + [b]
      ensures |old(data)| <= |data|
      ensures forall k :: 0 <= k < |old(data)| ==> data[k] | old(data)[k] == data[k]
    {
      ghost var bits := Bits();
      ghost var d0 := data;
      PushBitPacks(d0, bits, b);
      if bitPos / 8 >= |data| {
        data := data + [0];
      }
      if b {
        MaskIsShift(bitPos % 8);
        data := data[bitPos / 8 := data[bitPos / 8] | (1 << (bitPos % 8))];
      }
      bitPos := bitPos + 1;
      assert data == PushBit(d0, |bits|, b);
      PackedBitsFrom(data, bits + [b], 0, bitPos);
      assert (bits + [b])[0..bitPos] == bits + [b];
    }

    /** `write_bits(value, count)`: bit `i` of `value` goes to position `bit_pos + i`. */
    method WriteBits(value: nat, count: nat)
      requires Valid()
      requires value < Pow2(32) && count < 32
      modifies this
      ensures Valid()
      ensures bitPos == old(bitPos) + count
      ensures Bits() == old(Bits()) + LsbBits(value, count)
    {
      var i := 0;
      while i < count
        invariant 0 <= i <= count
        invariant Valid()
        invariant bitPos == old(bitPos) + i
        invariant Bits() == old(Bits()) + LsbBits(value, i)
      {
        PutBit(Bit(value, i));
        LsbBitsSnoc(value, i);
        i := i + 1;
      }
    }

    /**
     * `write_code_reversed(code, length)`: a Huffman code, most significant bit
     * first, packed LSB-first into the bytes.
     */
    method WriteCodeReversed(code: nat, length: nat)
      requires Valid()
      requires code < Pow2(32) && length < 32
      modifies this
      ensures Valid()
      ensures bitPos == old(bitPos) + length
      ensures Bits() == old(Bits()) + MsbBits(code, length)
    {
      ghost var written := Bits();
      ghost var msb := MsbBits(code, length);
      var i: int := length - 1;
      while i >= 0
        invariant -1 <= i < length
        invariant Valid()
        invariant bitPos == old(bitPos) + (length - 1 - i)
        invariant Bits() == written + msb[..length - 1 - i]
      {
        ghost var k := length - 1 - i;
        PutBit(Bit(code, i));
        MsbPrefixGrows(code, length, i);
        ConcatAssoc(written, msb[..k], [Bit(code, i)]);
        i := i - 1;
      }
      assert msb[..length] == msb;
    }
  }

  /** One step of `read_bit_msb`: past the end it yields 0 and does not advance. */
  function MsbStep(data: seq<bv8>, p: nat): (r: (nat, nat))
  {
    if p / 8 >= |data| then (0, p)
    else (if BitAt(data, p) then 1 else 0, p + 1)
  }

  /** `n` successive `read_bit_msb` calls accumulated as `code = (code << 1) | bit`. */
  function MsbRead(data: seq<bv8>, p: nat, n: nat): (r: (nat, nat))
  {
    if n == 0 then (0, p)
    else
      var prev := MsbRead(data, p, n - 1);
      var step := MsbStep(data, prev.1);
      (2 * prev.0 + step.0, step.1)
  }

  /** The decision procedure of `read_fixed_litlen_code`: try 7, then 8, then 9 bits. */
  function DecodeLitLen(data: seq<bv8>, p: nat): (r: (int, nat))
  {
    var (c7, p7) := MsbRead(data, p, 7);
    if c7 <= 23 then (256 + c7, p7)
    else
      var (b8, p8) := MsbStep(data, p7);
      var c8 := 2 * c7 + b8;
      if 0x30 <= c8 <= 0xBF then (c8 - 0x30, p8)
      else if 0xC0 <= c8 <= 0xC7 then (280 + (c8 - 0xC0), p8)
      else
        var (b9, p9) := MsbStep(data, p8);
        var c9 := 2 * c8 + b9;
        if 0x190 <= c9 <= 0x1FF then (144 + (c9 - 0x190), p9)
        else (-1, p9)
  }

  /** Each MSB step yields one bit and advances by at most one position. */
  lemma {:induction false} MsbReadBound(data: seq<bv8>, p: nat, n: nat)
    ensures MsbRead(data, p, n).0 < Pow2(n)
    ensures p <= MsbRead(data, p, n).1 <= p + n
  {
    if n > 0 {
      MsbReadBound(data, p, n - 1);
    }
  }

  /** Inside the buffer the first MSB step advances, so any positive number of steps does. */
  lemma {:induction false} MsbReadAdvances(data: seq<bv8>, p: nat, n: nat)
    requires p < 8 * |data| && n >= 1
    ensures p < MsbRead(data, p, n).1
  {
    if n > 1 {
      MsbReadAdvances(data, p, n - 1);
    }
  }

  /** Inside the buffer, one more MSB step doubles the value read and adds the next bit. */
  lemma MsbReadSnoc(data: seq<bv8>, p: nat, n: nat, v: nat)
    requires 0 < n && p + n <= 8 * |data|
    requires MsbRead(data, p, n - 1) == (v, p + (n - 1))
    ensures MsbRead(data, p, n) == (2 * v + (if BitAt(data, p + (n - 1)) then 1 else 0), p + n)
  {
  }

  /** Where the next `n` bits are the `n`-bit code `c`, `n` MSB steps read `c`. */
  lemma {:induction false} MsbReadCode(data: seq<bv8>, p: nat, c: nat, n: nat)
    requires c < Pow2(n) && p + n <= 8 * |data|
    requires BitsFrom(data, p, n) == MsbBits(c, n)
    ensures MsbRead(data, p, n) == (c, p + n)
  {
    if n > 0 {
      MsbCodeSplits(data, p, c, n);
      MsbReadCode(data, p, c / 2, n - 1);
      MsbReadSnoc(data, p, n, c / 2);
    }
  }

  /** The first `n - 1` of those bits are the code `c / 2`; the last one is the low bit of `c`. */
  lemma MsbCodeSplits(data: seq<bv8>, p: nat, c: nat, n: nat)
    requires 0 < n && c < Pow2(n)
    requires BitsFrom(data, p, n) == MsbBits(c, n)
    ensures c / 2 < Pow2(n - 1)
    ensures BitsFrom(data, p, n - 1) == MsbBits(c / 2, n - 1)
    ensures BitAt(data, p + (n - 1)) == (c % 2 == 1)
  {
    assert Pow2(n) == 2 * Pow2(n - 1);
    assert BitsFrom(data, p, n - 1) == BitsFrom(data, p, n)[..n - 1];
    assert BitsFrom(data, p, n)[n - 1] == BitAt(data, p + (n - 1));
  }

  /** Where every bit from `p` on is zero, MSB steps read 0. */
  lemma {:induction false} MsbReadZeros(data: seq<bv8>, p: nat, n: nat)
    requires forall q: nat :: q >= p ==> !BitAt(data, q)
    ensures MsbRead(data, p, n).0 == 0
  {
    if n > 0 {
      MsbReadZeros(data, p, n - 1);
      MsbReadBound(data, p, n - 1);
    }
  }

  /** The first `k` bits of a longer read are the shorter read. */
  lemma BitsFromPrefix(data: seq<bv8>, p: nat, n: nat, k: nat)
    requires k <= n
    ensures BitsFrom(data, p, n)[..k] == BitsFrom(data, p, k)
  {
  }

  /** The first 7 and 8 bits of a 7-, 8- or 9-bit code are the code shifted right. */
  lemma MsbBitsPrefixes(c: nat, n: nat)
    requires 7 <= n <= 9
    ensures n == 8 ==> MsbBits(c, 8)[..7] == MsbBits(c / 2, 7)
    ensures n == 9 ==> MsbBits(c, 9)[..8] == MsbBits(c / 2, 8)
    ensures n == 9 ==> MsbBits(c, 9)[..7] == MsbBits(c / 4, 7)
  {
    MsbBitsDropOne(c, 8);
    MsbBitsDropOne(c, 9);
    MsbBitsDropOne(c / 2, 8);
    assert MsbBits(c, 9)[..7] == MsbBits(c, 9)[..8][..7];
    assert c / 2 / 2 == c / 4;
  }

  /** Where the next 7 bits are the code `c` (at most 23), the reader stops after them. */
  lemma DecodeSeven(data: seq<bv8>, p: nat, c: nat)
    requires c <= 23 && p + 7 <= 8 * |data|
    requires BitsFrom(data, p, 7) == MsbBits(c, 7)
    ensures DecodeLitLen(data, p) == (256 + c, p + 7)
  {
    assert Pow2(7) == 128;
    MsbReadCode(data, p, c, 7);
  }

  /** Where the next 8 bits are a code in 0x30..0xC7, the reader takes the 8-bit branch. */
  lemma DecodeEight(data: seq<bv8>, p: nat, c: nat)
    requires 0x30 <= c <= 0xC7 && p + 8 <= 8 * |data|
    requires BitsFrom(data, p, 8) == MsbBits(c, 8)
    ensures MsbRead(data, p, 7).0 == c / 2
    ensures MsbRead(data, p, 8) == (c, p + 8)
  {
    assert Pow2(7) == 128 && Pow2(8) == 256;
    MsbBitsPrefixes(c, 8);
    BitsFromPrefix(data, p, 8, 7);
    MsbReadCode(data, p, c / 2, 7);
    MsbReadCode(data, p, c, 8);
  }

  /** Where the next 9 bits are a code in 0x190..0x1FF, the reader takes the 9-bit branch. */
  lemma DecodeNine(data: seq<bv8>, p: nat, c: nat)
    requires 0x190 <= c <= 0x1FF && p + 9 <= 8 * |data|
    requires BitsFrom(data, p, 9) == MsbBits(c, 9)
    ensures MsbRead(data, p, 7).0 == c / 4
    ensures MsbRead(data, p, 8).0 == c / 2
    ensures MsbRead(data, p, 9) == (c, p + 9)
  {
    assert Pow2(7) == 128 && Pow2(8) == 256 && Pow2(9) == 512;
    MsbBitsPrefixes(c, 9);
    BitsFromPrefix(data, p, 9, 7);
    BitsFromPrefix(data, p, 9, 8);
    MsbReadCode(data, p, c / 4, 7);
    MsbReadCode(data, p, c / 2, 8);
    MsbReadCode(data, p, c, 9);
  }

  /** An 8-bit code decodes to a literal 0..143 or a length symbol 280..287. */
  lemma DecodeEightSymbol(data: seq<bv8>, p: nat, c: nat)
    requires 0x30 <= c <= 0xC7 && p + 8 <= 8 * |data|
    requires BitsFrom(data, p, 8) == MsbBits(c, 8)
    ensures DecodeLitLen(data, p) == (if c <= 0xBF then c - 0x30 else 280 + (c - 0xC0), p + 8)
  {
    DecodeEight(data, p, c);
  }

  /** A 9-bit code decodes to a literal 144..255. */
  lemma DecodeNineSymbol(data: seq<bv8>, p: nat, c: nat)
    requires 0x190 <= c <= 0x1FF && p + 9 <= 8 * |data|
    requires BitsFrom(data, p, 9) == MsbBits(c, 9)
    ensures DecodeLitLen(data, p) == (144 + (c - 0x190), p + 9)
  {
    DecodeNine(data, p, c);
  }

  /**
   * `read_fixed_litlen_code` inverts `get_fixed_litlen_code`: where the bits
   * at `p` are the code of symbol `s`, it returns `s` and consumes exactly them.
   */
  lemma DecodeLitLenInverts(data: seq<bv8>, p: nat, s: nat)
    requires s <= 287
    requires p + |LitLenBits(s)| <= 8 * |data|
    requires BitsFrom(data, p, |LitLenBits(s)|) == LitLenBits(s)
    ensures DecodeLitLen(data, p) == (s, p + |LitLenBits(s)|)
  {
    LitLenCodeMatchesRfcTable(s);
    var c := LitLenCode(s).code;
    if s <= 143 || 280 <= s {
      DecodeEightSymbol(data, p, c);
    } else if s <= 255 {
      DecodeNineSymbol(data, p, c);
    } else {
      DecodeSeven(data, p, c);
    }
  }

  /**
   * The `-1` ("invalid code") return of `read_fixed_litlen_code` cannot happen:
   * every 9-bit code reached after the 7- and 8-bit tests lies in 0x190..0x1FF.
   * The reader always yields a symbol of 0..287 and consumes at most 9 bits.
   */
  lemma DecodeLitLenTotal(data: seq<bv8>, p: nat)
    ensures 0 <= DecodeLitLen(data, p).0 <= 287
    ensures p <= DecodeLitLen(data, p).1 <= p + 9
    ensures p < 8 * |data| ==> p < DecodeLitLen(data, p).1
  {
    MsbReadBound(data, p, 7);
    assert Pow2(7) == 128;
    if p < 8 * |data| {
      MsbReadAdvances(data, p, 7);
    }
  }

  /**
   * Reading past the last written bit yields symbol 256, end of block: the
   * zero padding of the final byte and the zeros read past the end of the
   * buffer both decode as end of block.
   */
  lemma DecodePaddingIsEndOfBlock(data: seq<bv8>, bits: seq<bool>, p: nat)
    requires Packs(data, bits) && p >= |bits|
    ensures DecodeLitLen(data, p).0 == 256
  {
    forall q: nat | q >= p
      ensures !BitAt(data, q)
    {
      if q < 8 * |data| {
        assert !(q < |bits|);
      }
    }
    MsbReadZeros(data, p, 7);
  }

  /** `read_fixed_distance_code` inverts `get_fixed_distance_code` on 0..31. */
  lemma DecodeDistanceInverts(data: seq<bv8>, p: nat, s: nat)
    requires s < 32 && p + 5 <= 8 * |data|
    requires BitsFrom(data, p, 5) == DistanceBits(s)
    ensures MsbRead(data, p, 5) == (s, p + 5)
  {
    assert Pow2(5) == 32;
    MsbReadCode(data, p, s, 5);
  }

  /** `BitReader` over a byte buffer it does not own. */
  class BitReader {
    const data: seq<bv8>
    var bitPos: nat

    constructor (d: seq<bv8>)
      ensures data == d && bitPos == 0
    {
      data := d;
      bitPos := 0;
    }

    /** `has_bits` is byte-granular: the zero pad bits of the last byte count as available. */
    function HasBits(): (r: bool)
      reads this
      ensures r <==> bitPos < 8 * |data|
    {
      bitPos / 8 < |data|
    }

    /**
     * `read_bits(count)`: the next `count` bits, least significant first; bits
     * past the end of `data` read as 0 but still advance `bit_pos`.
     */
    method ReadBits(count: nat) returns (result: nat)
      requires count < 32
      modifies this
      ensures bitPos == old(bitPos) + count
      ensures result == LsbValue(BitsFrom(data, old(bitPos), count))
    {
      result := 0;
      ghost var p0 := bitPos;
      var i := 0;
      while i < count
        invariant 0 <= i <= count
        invariant bitPos == p0 + i
        invariant result == LsbValue(BitsFrom(data, p0, i))
      {
        ghost var q := bitPos;
        LsbValueStep(data, p0, i, q);
        var bit := TakeBit();
        if bit {
          // `result |= (1 << i)` on a bit of `result` that is still 0
          result := result + Pow2(i);
        }
        i := i + 1;
      }
    }

    /** The body of the `read_bits` loop: test the bit at `bit_pos` if its byte exists, then advance. */
    method TakeBit() returns (bit: bool)
      modifies this
      ensures bit == BitAt(data, old(bitPos))
      ensures bitPos == old(bitPos) + 1
    {
      bit := false;
      if bitPos / 8 < |data| {
        bit := MaskTest(data[bitPos / 8], bitPos % 8);
      }
      bitPos := bitPos + 1;
    }

    /** `read_bit_msb`: one bit; at or past the end of `data` it returns 0 and stays put. */
    method ReadBitMsb() returns (bit: nat)
      modifies this
      ensures (bit, bitPos) == MsbStep(data, old(bitPos))
      ensures bit <= 1
    {
      if bitPos / 8 >= |data| {
        return 0;
      }
      ShiftTestIsByteBit(data[bitPos / 8], bitPos % 8);
      bit := if (data[bitPos / 8] >> (bitPos % 8)) & 1 == 1 then 1 else 0;
      bitPos := bitPos + 1;
    }

    /** `read_fixed_litlen_code`. */
    method ReadFixedLitLenCode() returns (sym: int)
      modifies this
      ensures (sym, bitPos) == DecodeLitLen(data, old(bitPos))
    {
      var code: nat := 0;
      var i := 0;
      while i < 7
        invariant 0 <= i <= 7
        invariant (code, bitPos) == MsbRead(data, old(bitPos), i)
      {
        var b := ReadBitMsb();
        code := 2 * code + b;
        i := i + 1;
      }
      if code <= 23 {
        return 256 + code;
      }
      var b := ReadBitMsb();
      code := 2 * code + b;
      if 0x30 <= code <= 0xBF {
        return code - 0x30;
      }
      if 0xC0 <= code <= 0xC7 {
        return 280 + (code - 0xC0);
      }
      b := ReadBitMsb();
      code := 2 * code + b;
      if 0x190 <= code <= 0x1FF {
        return 144 + (code - 0x190);
      }
      return -1;
    }

    /** `read_fixed_distance_code`: exactly five `read_bit_msb` calls. */
    method ReadFixedDistanceCode() returns (code: nat)
      modifies this
      ensures (code, bitPos) == MsbRead(data, old(bitPos), 5)
    {
      code := 0;
      var i := 0;
      while i < 5
        invariant 0 <= i <= 5
        invariant (code, bitPos) == MsbRead(data, old(bitPos), i)
      {
        var b := ReadBitMsb();
        code := 2 * code + b;
        i := i + 1;
      }
    }
  }
}
