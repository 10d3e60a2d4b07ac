/**
 * The gzip wrapper around the DEFLATE encoder: the table-driven CRC-32 of
 * section 8 of RFC 1952 (`class CRC32` in gzip.cpp), the little-endian
 * `write_le32`, and the member layout `main` writes (sections 2.3 and 2.3.1
 * of RFC 1952).
 */
module Gzip {
  import opened Wrappers
  import opened Lz77Symbols
  import opened BitIO
  import opened Deflate

  /** `CRC32_POLY`: the CRC-32 generator polynomial with its bits reversed. */
  const Poly: bv32 := 0xEDB8_8320

  /*
   * ---------------------------------------------------------------------
   * Polynomial division, one bit at a time
   * ---------------------------------------------------------------------
   */

  /**
   * `n` steps of reflected polynomial division: shift the register right,
   * and XOR in the polynomial when the bit shifted out was 1.
   */
  function Steps(crc: bv32, n: nat): bv32
    decreases n
  {
    if n == 0 then crc else Steps((crc >> 1) ^ (if crc & 1 == 1 then Poly else 0), n - 1)
  }

  /** The source writes the conditional XOR as `CRC32_POLY * (crc & 1)`. */
  lemma ProductIsConditionalXor(crc: bv32)
    ensures (crc >> 1) ^ (Poly * (crc & 1)) == (crc >> 1) ^ (if crc & 1 == 1 then Poly else 0)
  {
    if crc & 1 == 1 {
    } else {
      assert crc & 1 == 0;
    }
  }

  /** Eight division steps written out, so that the solver sees one term. */
  function EightSteps(crc: bv32): bv32
  {
    var c1 := (crc >> 1) ^ (if crc & 1 == 1 then Poly else 0);
    var c2 := (c1 >> 1) ^ (if c1 & 1 == 1 then Poly else 0);
    var c3 := (c2 >> 1) ^ (if c2 & 1 == 1 then Poly else 0);
    var c4 := (c3 >> 1) ^ (if c3 & 1 == 1 then Poly else 0);
    var c5 := (c4 >> 1) ^ (if c4 & 1 == 1 then Poly else 0);
    var c6 := (c5 >> 1) ^ (if c5 & 1 == 1 then Poly else 0);
    var c7 := (c6 >> 1) ^ (if c6 & 1 == 1 then Poly else 0);
    (c7 >> 1) ^ (if c7 & 1 == 1 then Poly else 0)
  }

  /**
   * The identity the table rests on: eight steps on `x` are eight steps on
   * its low byte, XORed with the other bits moved down by a byte.
   */
  lemma EightStepsSplit(x: bv32)
    ensures EightSteps(x) == (x >> 8) ^ EightSteps(x & 0xFF)
  {
  }

  /** Peeling the first of `k + 1` steps. */
  lemma {:induction false} PeelStep(x: bv32, k: nat)
    ensures Steps(x, k + 1) == Steps((x >> 1) ^ (if x & 1 == 1 then Poly else 0), k)
  {
  }

  /** `Steps(x, 8)` peeled one step at a time, which keeps every bit-vector goal small. */
  lemma StepsAreEightSteps(x: bv32)
    ensures Steps(x, 8) == EightSteps(x)
  {
    var c1 := (x >> 1) ^ (if x & 1 == 1 then Poly else 0);
    var c2 := (c1 >> 1) ^ (if c1 & 1 == 1 then Poly else 0);
    var c3 := (c2 >> 1) ^ (if c2 & 1 == 1 then Poly else 0);
    var c4 := (c3 >> 1) ^ (if c3 & 1 == 1 then Poly else 0);
    var c5 := (c4 >> 1) ^ (if c4 & 1 == 1 then Poly else 0);
    var c6 := (c5 >> 1) ^ (if c5 & 1 == 1 then Poly else 0);
    var c7 := (c6 >> 1) ^ (if c6 & 1 == 1 then Poly else 0);
    PeelStep(x, 7); PeelStep(c1, 6); PeelStep(c2, 5); PeelStep(c3, 4);
    PeelStep(c4, 3); PeelStep(c5, 2); PeelStep(c6, 1); PeelStep(c7, 0);
  }

  lemma NoSteps(crc: bv32, n: nat)
    requires n == 0
    ensures Steps(crc, n) == crc
  {
  }

  /** One step of `generate_table`'s inner loop, written as the source writes it. */
  lemma StepOnce(crc: bv32, n: nat)
    requires n > 0
    ensures Steps(crc, n) == Steps((crc >> 1) ^ (Poly * (crc & 1)), n - 1)
  {
    ProductIsConditionalXor(crc);
  }

  /*
   * ---------------------------------------------------------------------
   * The lookup table and the register update
   * ---------------------------------------------------------------------
   */

  /** `table[k]`: the byte value `k` after eight division steps. */
  function CrcTableEntry(k: bv8): bv32
  {
    EightSteps(k as bv32)
  }

  lemma EntryIsSteps(k: bv8)
    ensures CrcTableEntry(k) == Steps(k as bv32, 8)
  {
    StepsAreEightSteps(k as bv32);
  }

  /** The inner loop of `generate_table`: eight division steps on one byte value. */
  method DivideByte(k: bv8) returns (crc: bv32)
    ensures crc == CrcTableEntry(k)
  {
    crc := k as bv32;
    EntryIsSteps(k);
    var j := 0;
    while j < 8
      invariant 0 <= j <= 8
      invariant Steps(crc, 8 - j) == CrcTableEntry(k)
    {
      StepOnce(crc, 8 - j);
      crc := (crc >> 1) ^ (Poly * (crc & 1));
      j := j + 1;
    }
    NoSteps(crc, 8 - j);
  }

  /** The index `compute` looks up: the low byte of `crc ^ b`. */
  function LowIndex(crc: bv32, b: bv8): bv8
  {
    ((crc ^ (b as bv32)) & 0xFF) as bv8
  }

  /** One byte through the table: `crc = (crc >> 8) ^ table[idx]`. */
  function Update(crc: bv32, b: bv8): bv32
  {
    (crc >> 8) ^ CrcTableEntry(LowIndex(crc, b))
  }

  /** An array index taken from a byte names that byte. */
  lemma IndexRoundTrip(k: bv8)
    ensures 0 <= k as int < 256 && (k as int) as bv8 == k
  {
  }

  /** Bytes fed one at a time through `step`, from `crc`. */
  function Fold(step: (bv32, bv8) -> bv32, crc: bv32, data: seq<bv8>): bv32
    decreases |data|
  {
    if data == [] then crc else step(Fold(step, crc, data[..|data| - 1]), data[|data| - 1])
  }

  /** Folding over `a + b` is folding over `b` from the state after `a`. */
  lemma {:induction false} FoldAppend(step: (bv32, bv8) -> bv32, crc: bv32, a: seq<bv8>, b: seq<bv8>)
    ensures Fold(step, crc, a + b) == Fold(step, Fold(step, crc, a), b)
    decreases |b|
  {
    if b == [] {
      assert a + b == a;
    } else {
      var ab := a + b;
      assert ab[..|ab| - 1] == a + b[..|b| - 1];
      assert ab[|ab| - 1] == b[|b| - 1];
      FoldAppend(step, crc, a, b[..|b| - 1]);
    }
  }

  /** The register after `data`, before the final inversion. */
  function Register(crc: bv32, data: seq<bv8>): bv32
  {
    Fold(Update, crc, data)
  }

  /** `compute`: start from all ones, run every byte, invert. */
  function Checksum(data: seq<bv8>): bv32
  {
    !Register(0xFFFF_FFFF, data)
  }

  /** The bitwise definition of a byte step: XOR the byte in, then divide eight times. */
  function BitwiseUpdate(crc: bv32, b: bv8): bv32
  {
    EightSteps(crc ^ (b as bv32))
  }

  /** One table lookup does the work of eight single-bit steps. */
  lemma UpdateIsBitwise(crc: bv32, b: bv8)
    ensures Update(crc, b) == BitwiseUpdate(crc, b)
  {
    UpdateByLowByte(crc, b);
    BitwiseByLowByte(crc, b);
  }

  /** The table step, with the index written as the low byte of `crc ^ b`. */
  lemma UpdateByLowByte(crc: bv32, b: bv8)
    ensures Update(crc, b) == (crc >> 8) ^ EightSteps((crc ^ (b as bv32)) & 0xFF)
  {
    ByteOnlyTouchesLowBits(crc, b);
  }

  /** The bitwise step, split by the table identity. */
  lemma BitwiseByLowByte(crc: bv32, b: bv8)
    ensures BitwiseUpdate(crc, b) == (crc >> 8) ^ EightSteps((crc ^ (b as bv32)) & 0xFF)
  {
    BitwiseDef(crc, b);
    EightStepsSplit(crc ^ (b as bv32));
    ByteOnlyTouchesLowBits(crc, b);
  }

  lemma BitwiseDef(crc: bv32, b: bv8)
    ensures BitwiseUpdate(crc, b) == EightSteps(crc ^ (b as bv32))
  {
  }

  /** XORing a byte in changes only the low byte, which is where the index comes from. */
  lemma ByteOnlyTouchesLowBits(crc: bv32, b: bv8)
    ensures (crc ^ (b as bv32)) >> 8 == crc >> 8
    ensures LowIndex(crc, b) as bv32 == (crc ^ (b as bv32)) & 0xFF
  {
  }

  /** A byte step through a table entry that holds the right value. */
  lemma UpdateByTable(crc: bv32, b: bv8, entry: bv32)
    requires entry == CrcTableEntry(LowIndex(crc, b))
    ensures Update(crc, b) == (crc >> 8) ^ entry
  {
  }

  /** The register after one more byte. */
  lemma RegisterStep(crc: bv32, data: seq<bv8>, i: nat)
    requires i < |data|
    ensures Register(crc, data[..i + 1]) == Update(Register(crc, data[..i]), data[i])
  {
    assert data[..i + 1][..i] == data[..i];
  }

  /** The register after one more byte, at the end. */
  lemma RegisterSnoc(crc: bv32, data: seq<bv8>, b: bv8)
    ensures Register(crc, data + [b]) == Update(Register(crc, data), b)
  {
    assert (data + [b])[..|data|] == data;
  }

  lemma RegisterStart(crc: bv32, data: seq<bv8>)
    ensures Register(crc, data[..0]) == crc
  {
    assert data[..0] == [];
  }

  lemma ChecksumOfWhole(data: seq<bv8>)
    ensures Checksum(data) == !Register(0xFFFF_FFFF, data[..|data|])
  {
    assert data[..|data|] == data;
  }

  /** The table-driven and the bitwise CRC agree on every input. */
  lemma {:induction false} RegisterIsBitwise(crc: bv32, data: seq<bv8>)
    ensures Register(crc, data) == Fold(BitwiseUpdate, crc, data)
    decreases |data|
  {
    if data != [] {
      RegisterIsBitwise(crc, data[..|data| - 1]);
      UpdateIsBitwise(Register(crc, data[..|data| - 1]), data[|data| - 1]);
    }
  }

  /** The state after `a + b` is the state after `b`, started from the state after `a`. */
  lemma RegisterAppend(crc: bv32, a: seq<bv8>, b: seq<bv8>)
    ensures Register(crc, a + b) == Register(Register(crc, a), b)
  {
    FoldAppend(Update, crc, a, b);
  }

  /** No bytes: the register stays all ones and the checksum is 0. */
  lemma ChecksumOfNothing()
    ensures Checksum([]) == 0
  {
  }

  /** The register while the digits 1 to 3 of "123456789" go through. */
  lemma DigitSteps1()
    ensures Update(0xFFFF_FFFF, 0x31) == 0x7C23_1048
    ensures Update(0x7C23_1048, 0x32) == 0xB0AC_BB32
    ensures Update(0xB0AC_BB32, 0x33) == 0x77B7_9C2D
  {
  }

  /** The register while the digits 4 to 6 of "123456789" go through. */
  lemma DigitSteps2()
    ensures Update(0x77B7_9C2D, 0x34) == 0x641C_1F5C
    ensures Update(0x641C_1F5C, 0x35) == 0x340A_C5E3
    ensures Update(0x340A_C5E3, 0x36) == 0xF68D_2C9E
  {
  }

  /** The register while the digits 7 to 9 of "123456789" go through. */
  lemma DigitSteps3()
    ensures Update(0xF68D_2C9E, 0x37) == 0xAFFC_9660
    ensures Update(0xAFFC_9660, 0x38) == 0x651F_2550
    ensures Update(0x651F_2550, 0x39) == 0x340B_C6D9
  {
  }

  /** The standard check value: the CRC-32 of the ASCII digits "123456789" is 0xCBF43926. */
  lemma CheckValue()
    ensures Checksum([0x31, 0x32, 0x33, 0x34, 0x35, 0x36, 0x37, 0x38, 0x39]) == 0xCBF4_3926
  {
    DigitSteps1();
    DigitSteps2();
    DigitSteps3();
    var p: seq<bv8> := [];
    RegisterSnoc(0xFFFF_FFFF, p, 0x31);
    p := p + [0x31];
    RegisterSnoc(0xFFFF_FFFF, p, 0x32);
    p := p + [0x32];
    RegisterSnoc(0xFFFF_FFFF, p, 0x33);
    p := p + [0x33];
    RegisterSnoc(0xFFFF_FFFF, p, 0x34);
    p := p + [0x34];
    RegisterSnoc(0xFFFF_FFFF, p, 0x35);
    p := p + [0x35];
    RegisterSnoc(0xFFFF_FFFF, p, 0x36);
    p := p + [0x36];
    RegisterSnoc(0xFFFF_FFFF, p, 0x37);
    p := p + [0x37];
    RegisterSnoc(0xFFFF_FFFF, p, 0x38);
    p := p + [0x38];
    RegisterSnoc(0xFFFF_FFFF, p, 0x39);
    p := p + [0x39];
    assert p == [0x31, 0x32, 0x33, 0x34, 0x35, 0x36, 0x37, 0x38, 0x39];
  }

  /** `class CRC32`: the lookup table, filled once by the constructor. */
  class Crc32 {
    var table: array<bv32>

    /** Every entry holds the division result for its index. */
    ghost predicate Valid()
      reads this, table
    {
      table.Length == 256 && forall k :: 0 <= k < 256 ==> table[k] == CrcTableEntry(k as bv8)
    }

    /** `CRC32()`. */
    constructor()
      ensures Valid() && fresh(table)
    {
      table := new bv32[256];
      new;
      GenerateTable();
    }

    /** `generate_table`: eight division steps for each byte value. */
    method GenerateTable()
      requires table.Length == 256
      modifies table
      ensures Valid()
    {
      var i := 0;
      while i < 256
        invariant 0 <= i <= 256
        invariant forall k :: 0 <= k < i ==> table[k] == CrcTableEntry(k as bv8)
      {
        var crc := DivideByte(i as bv8);
        ghost var before := table[..];
        table[i] := crc;
        forall k | 0 <= k < i + 1
          ensures table[k] == CrcTableEntry(k as bv8)
        {
          if k < i {
            assert table[k] == before[k];
          }
        }
        i := i + 1;
      }
    }

    /** Reading the table at a byte gives that byte's entry. */
    lemma ReadEntry(k: bv8)
      requires Valid()
      ensures 0 <= k as int < 256 && table[k as int] == CrcTableEntry(k)
    {
      IndexRoundTrip(k);
    }

    /** `compute`: the checksum of `data`. */
    method Compute(data: seq<bv8>) returns (r: bv32)
      requires Valid()
      ensures r == Checksum(data)
    {
      var crc: bv32 := 0xFFFF_FFFF;
      RegisterStart(0xFFFF_FFFF, data);
      var i := 0;
      while i < |data|
        invariant 0 <= i <= |data|
        invariant crc == Register(0xFFFF_FFFF, data[..i])
      {
        var idx := LowIndex(crc, data[i]);
        ReadEntry(idx);
        UpdateByTable(crc, data[i], table[idx as int]);
        RegisterStep(0xFFFF_FFFF, data, i);
        crc := (crc >> 8) ^ table[idx as int];
        i := i + 1;
      }
      ChecksumOfWhole(data);
      r := !crc;
    }
  }

  /*
   * ---------------------------------------------------------------------
   * Little-endian fields and the member layout
   * ---------------------------------------------------------------------
   */

  /** `write_le32`: the four bytes of `v`, least significant first. */
  function Le32(v: bv32): (bs: seq<bv8>)
    ensures |bs| == 4
  {
    [(v & 0xFF) as bv8, ((v >> 8) & 0xFF) as bv8, ((v >> 16) & 0xFF) as bv8, ((v >> 24) & 0xFF) as bv8]
  }

  /** Reading four bytes back as a little-endian 32-bit value. */
  function FromLe32(bs: seq<bv8>): bv32
    requires |bs| == 4
  {
    (bs[0] as bv32) | ((bs[1] as bv32) << 8) | ((bs[2] as bv32) << 16) | ((bs[3] as bv32) << 24)
  }

  /** Every 32-bit value survives `write_le32` and reading back. */
  lemma Le32RoundTrip(v: bv32)
    ensures FromLe32(Le32(v)) == v
  {
  }

  /** Every four bytes are what `write_le32` writes for the value they encode. */
  lemma FromLe32RoundTrip(bs: seq<bv8>)
    requires |bs| == 4
    ensures Le32(FromLe32(bs)) == bs
  {
  }

  /** The first byte written is the low byte, the last the high byte. */
  lemma Le32Order(v: bv32)
    ensures Le32(v)[0] as bv32 == v & 0xFF
    ensures Le32(v)[3] as bv32 == v >> 24
  {
  }

  /** `write_le32(input.size())`: the size, converted to `uint32_t`. */
  function Size32(n: nat): bv32
  {
    (n % 0x1_0000_0000) as bv32
  }

  /** Sizes that fit in 32 bits are written exactly. */
  lemma Size32Exact(n: nat)
    requires n < 0x1_0000_0000
    ensures Size32(n) == n as bv32
  {
  }

  /** Larger sizes wrap around: ISIZE is the size modulo 2^32. */
  lemma Size32Wraps(n: nat)
    ensures Size32(n + 0x1_0000_0000) == Size32(n)
  {
    assert (n + 0x1_0000_0000) % 0x1_0000_0000 == n % 0x1_0000_0000;
  }

  /** The characters of the input string, as `deflate_compress` reads them. */
  function ToBytes(bs: seq<bv8>): (input: seq<byte>)
    ensures |input| == |bs|
  {
    seq(|bs|, i requires 0 <= i < |bs| => bs[i] as int)
  }

  /** Each character is the byte `reinterpret_cast<const uint8_t*>` sees at its place. */
  lemma ToBytesKeeps(bs: seq<bv8>, i: nat)
    requires i < |bs|
    ensures ToBytes(bs)[i] as bv8 == bs[i]
  {
  }

  /** ID1, ID2, CM = 8 (deflate), FLG = 0, MTIME = 0, XFL = 0, OS = 3 (Unix). */
  function MemberHeader(): (h: seq<bv8>)
    ensures |h| == 10
  {
    [0x1f, 0x8b, 0x08, 0x00, 0x00, 0x00, 0x00, 0x00, 0x00, 0x03]
  }

  /** A gzip member: header, compressed data, CRC-32 and size, both little-endian. */
  function Member(deflated: seq<bv8>, crc: bv32, isize: bv32): (m: seq<bv8>)
    ensures |m| == |deflated| + 18
  {
    MemberHeader() + deflated + Le32(crc) + Le32(isize)
  }

  /** The fields of a member, or nothing when the bytes are too short or the header differs. */
  datatype MemberFields = MemberFields(deflated: seq<bv8>, crc: bv32, isize: bv32)

  /** Splitting a byte string into the fields `main` writes. */
  function ParseMember(m: seq<bv8>): (r: Option<MemberFields>)
    ensures r.Some? <==> |m| >= 18 && m[..10] == MemberHeader()
  {
    if |m| < 18 || m[..10] != MemberHeader() then None
    else Some(MemberFields(m[10..|m| - 8], FromLe32(m[|m| - 8..|m| - 4]), FromLe32(m[|m| - 4..])))
  }

  /** Parsing a member gives back the fields it was built from. */
  lemma ParseMemberRoundTrip(deflated: seq<bv8>, crc: bv32, isize: bv32)
    ensures ParseMember(Member(deflated, crc, isize)) == Some(MemberFields(deflated, crc, isize))
  {
    var m := Member(deflated, crc, isize);
    var n := |m|;
    assert m[..10] == MemberHeader();
    assert m[10..n - 8] == deflated;
    assert m[n - 8..n - 4] == Le32(crc);
    assert m[n - 4..] == Le32(isize);
    Le32RoundTrip(crc);
    Le32RoundTrip(isize);
  }

  /** Building a member from the fields of a parsed one gives back the same bytes. */
  lemma MemberOfParse(m: seq<bv8>)
    requires ParseMember(m).Some?
    ensures var f := ParseMember(m).value; Member(f.deflated, f.crc, f.isize) == m
  {
    var n := |m|;
    FromLe32RoundTrip(m[n - 8..n - 4]);
    FromLe32RoundTrip(m[n - 4..]);
    assert m == m[..10] + m[10..n - 8] + m[n - 8..n - 4] + m[n - 4..];
  }

  /**
   * `main`: deflate the input, then write the header, the deflate data, the
   * CRC-32 of the input and its size. The input string is given as its bytes.
   * `fileCreated` says whether the output file could be created; when it
   * could not, `main` returns 1 and writes nothing.
   */
  method GzipMain(input: seq<bv8>, syms: seq<DeflateSymbol>, fileCreated: bool) returns (status: int, out: seq<bv8>)
    requires Lz77CompressContract(ToBytes(input), syms)
    ensures !fileCreated ==> status == 1 && out == []
    ensures fileCreated ==> status == 0
    ensures fileCreated ==>
      var f := ParseMember(out);
      f.Some? && Inflate(f.value.deflated) == Ok(ToBytes(input))
      && f.value.crc == Checksum(input) && f.value.isize == Size32(|input|)
  {
    var compressed := DeflateCompress(ToBytes(input), syms);
    if !fileCreated {
      return 1, [];
    }
    out := MemberHeader();
    out := out + compressed.data;
    var crc := new Crc32();
    var checksum := crc.Compute(input);
    out := out + Le32(checksum);
    out := out + Le32(Size32(|input|));
    status := 0;
    assert out == Member(compressed.data, checksum, Size32(|input|));
    ParseMemberRoundTrip(compressed.data, checksum, Size32(|input|));
    DeflateRoundTrip(ToBytes(input), syms, compressed.data);
  }
}
