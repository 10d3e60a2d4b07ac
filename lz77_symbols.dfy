/**
 * The DEFLATE LZ77 symbol layer of the custom implementation: the length and
 * distance tables of section 3.2.5 of RFC 1951, the conversions between raw
 * lengths/distances and base codes plus extra bits, the `DeflateSymbol` and
 * `EncodedDeflateSymbol` tagged unions, and the LZ77 decoders. The C++
 * header only declares these; their meaning here comes from the header's
 * documentation and from RFC 1951.
 */
module Lz77Symbols {
  import opened Arith
  import opened Wrappers

  /** A byte of the uncompressed text. */
  type byte = x: int | 0 <= x < 256

  /** `LengthTableEntry` / `DistanceTableEntry`: `{base, code, extra_bits}`. */
  datatype TableEntry = TableEntry(base: nat, code: nat, extraBits: nat)

  /** `LENGTH_TABLE`: codes 257..285 for lengths 3..258. */
  const LengthTable: seq<TableEntry> := [
    TableEntry(3, 257, 0), TableEntry(4, 258, 0), TableEntry(5, 259, 0), TableEntry(6, 260, 0),
    TableEntry(7, 261, 0), TableEntry(8, 262, 0), TableEntry(9, 263, 0), TableEntry(10, 264, 0),
    TableEntry(11, 265, 1), TableEntry(13, 266, 1), TableEntry(15, 267, 1), TableEntry(17, 268, 1),
    TableEntry(19, 269, 2), TableEntry(23, 270, 2), TableEntry(27, 271, 2), TableEntry(31, 272, 2),
    TableEntry(35, 273, 3), TableEntry(43, 274, 3), TableEntry(51, 275, 3), TableEntry(59, 276, 3),
    TableEntry(67, 277, 4), TableEntry(83, 278, 4), TableEntry(99, 279, 4), TableEntry(115, 280, 4),
    TableEntry(131, 281, 5), TableEntry(163, 282, 5), TableEntry(195, 283, 5), TableEntry(227, 284, 5),
    TableEntry(258, 285, 0)
  ]

  /** `DISTANCE_TABLE`: codes 0..29 for distances 1..32768. */
  const DistanceTable: seq<TableEntry> := [
    TableEntry(1, 0, 0), TableEntry(2, 1, 0), TableEntry(3, 2, 0), TableEntry(4, 3, 0),
    TableEntry(5, 4, 1), TableEntry(7, 5, 1), TableEntry(9, 6, 2), TableEntry(13, 7, 2),
    TableEntry(17, 8, 3), TableEntry(25, 9, 3), TableEntry(33, 10, 4), TableEntry(49, 11, 4),
    TableEntry(65, 12, 5), TableEntry(97, 13, 5), TableEntry(129, 14, 6), TableEntry(193, 15, 6),
    TableEntry(257, 16, 7), TableEntry(385, 17, 7), TableEntry(513, 18, 8), TableEntry(769, 19, 8),
    TableEntry(1025, 20, 9), TableEntry(1537, 21, 9), TableEntry(2049, 22, 10), TableEntry(3073, 23, 10),
    TableEntry(4097, 24, 11), TableEntry(6145, 25, 11), TableEntry(8193, 26, 12), TableEntry(12289, 27, 12),
    TableEntry(16385, 28, 13), TableEntry(24577, 29, 13)
  ]

  /**
   * The shape of both tables from entry `i` on: entry `i` carries code
   * `first + i` and at most `maxExtra` extra bits, bases strictly increase,
   * and each entry's range `base .. base + 2^extra_bits - 1` reaches up to the
   * next base.
   */
  predicate ChainedFrom(t: seq<TableEntry>, first: nat, maxExtra: nat, i: nat)
    requires i < |t|
    decreases |t| - i
  {
    && t[i].code == first + i
    && t[i].extraBits <= maxExtra
    && (i + 1 == |t| || (t[i].base < t[i + 1].base <= t[i].base + Pow2(t[i].extraBits) && ChainedFrom(t, first, maxExtra, i + 1)))
  }

  /** The chained shape, stated entry by entry. */
  lemma {:induction false} ChainedEntries(t: seq<TableEntry>, first: nat, maxExtra: nat, j: nat)
    requires j < |t| && ChainedFrom(t, first, maxExtra, j)
    ensures forall i :: j <= i < |t| ==> t[i].code == first + i && t[i].extraBits <= maxExtra
    ensures forall i :: j <= i < |t| - 1 ==> t[i].base < t[i + 1].base <= t[i].base + Pow2(t[i].extraBits)
    ensures forall i :: j <= i < |t| ==> t[j].base <= t[i].base
    decreases |t| - j
  {
    if j + 1 < |t| {
      ChainedEntries(t, first, maxExtra, j + 1);
    }
  }

  /** The length table has the chained shape of section 3.2.5 of RFC 1951, checked entry by entry from the last. */
  lemma LengthTableChained()
    ensures ChainedFrom(LengthTable, 257, 5, 0)
  {
    assert Pow2(0) == 1 && Pow2(1) == 2 && Pow2(2) == 4 && Pow2(3) == 8 && Pow2(4) == 16 && Pow2(5) == 32;
    assert ChainedFrom(LengthTable, 257, 5, 28);
    assert ChainedFrom(LengthTable, 257, 5, 27);
    assert ChainedFrom(LengthTable, 257, 5, 26);
    assert ChainedFrom(LengthTable, 257, 5, 25);
    assert ChainedFrom(LengthTable, 257, 5, 24);
    assert ChainedFrom(LengthTable, 257, 5, 23);
    assert ChainedFrom(LengthTable, 257, 5, 22);
    assert ChainedFrom(LengthTable, 257, 5, 21);
    assert ChainedFrom(LengthTable, 257, 5, 20);
    assert ChainedFrom(LengthTable, 257, 5, 19);
    assert ChainedFrom(LengthTable, 257, 5, 18);
    assert ChainedFrom(LengthTable, 257, 5, 17);
    assert ChainedFrom(LengthTable, 257, 5, 16);
    assert ChainedFrom(LengthTable, 257, 5, 15);
    assert ChainedFrom(LengthTable, 257, 5, 14);
    assert ChainedFrom(LengthTable, 257, 5, 13);
    assert ChainedFrom(LengthTable, 257, 5, 12);
    assert ChainedFrom(LengthTable, 257, 5, 11);
    assert ChainedFrom(LengthTable, 257, 5, 10);
    assert ChainedFrom(LengthTable, 257, 5, 9);
    assert ChainedFrom(LengthTable, 257, 5, 8);
    assert ChainedFrom(LengthTable, 257, 5, 7);
    assert ChainedFrom(LengthTable, 257, 5, 6);
    assert ChainedFrom(LengthTable, 257, 5, 5);
    assert ChainedFrom(LengthTable, 257, 5, 4);
    assert ChainedFrom(LengthTable, 257, 5, 3);
    assert ChainedFrom(LengthTable, 257, 5, 2);
    assert ChainedFrom(LengthTable, 257, 5, 1);
    assert ChainedFrom(LengthTable, 257, 5, 0);
  }

  /** The distance table has the chained shape of section 3.2.5 of RFC 1951, checked entry by entry from the last. */
  lemma DistanceTableChained()
    ensures ChainedFrom(DistanceTable, 0, 13, 0)
  {
    assert Pow2(0) == 1 && Pow2(1) == 2 && Pow2(2) == 4 && Pow2(3) == 8 && Pow2(4) == 16;
    assert Pow2(5) == 32 && Pow2(6) == 64 && Pow2(7) == 128 && Pow2(8) == 256 && Pow2(9) == 512;
    assert Pow2(10) == 1024 && Pow2(11) == 2048 && Pow2(12) == 4096 && Pow2(13) == 8192;
    assert ChainedFrom(DistanceTable, 0, 13, 29);
    assert ChainedFrom(DistanceTable, 0, 13, 28);
    assert ChainedFrom(DistanceTable, 0, 13, 27);
    assert ChainedFrom(DistanceTable, 0, 13, 26);
    assert ChainedFrom(DistanceTable, 0, 13, 25);
    assert ChainedFrom(DistanceTable, 0, 13, 24);
    assert ChainedFrom(DistanceTable, 0, 13, 23);
    assert ChainedFrom(DistanceTable, 0, 13, 22);
    assert ChainedFrom(DistanceTable, 0, 13, 21);
    assert ChainedFrom(DistanceTable, 0, 13, 20);
    assert ChainedFrom(DistanceTable, 0, 13, 19);
    assert ChainedFrom(DistanceTable, 0, 13, 18);
    assert ChainedFrom(DistanceTable, 0, 13, 17);
    assert ChainedFrom(DistanceTable, 0, 13, 16);
    assert ChainedFrom(DistanceTable, 0, 13, 15);
    assert ChainedFrom(DistanceTable, 0, 13, 14);
    assert ChainedFrom(DistanceTable, 0, 13, 13);
    assert ChainedFrom(DistanceTable, 0, 13, 12);
    assert ChainedFrom(DistanceTable, 0, 13, 11);
    assert ChainedFrom(DistanceTable, 0, 13, 10);
    assert ChainedFrom(DistanceTable, 0, 13, 9);
    assert ChainedFrom(DistanceTable, 0, 13, 8);
    assert ChainedFrom(DistanceTable, 0, 13, 7);
    assert ChainedFrom(DistanceTable, 0, 13, 6);
    assert ChainedFrom(DistanceTable, 0, 13, 5);
    assert ChainedFrom(DistanceTable, 0, 13, 4);
    assert ChainedFrom(DistanceTable, 0, 13, 3);
    assert ChainedFrom(DistanceTable, 0, 13, 2);
    assert ChainedFrom(DistanceTable, 0, 13, 1);
    assert ChainedFrom(DistanceTable, 0, 13, 0);
  }

  /** The index of the last entry whose base is at most `v`. */
  function LastAtMost(t: seq<TableEntry>, v: nat): (i: nat)
    requires |t| > 0 && t[0].base <= v
    ensures i < |t| && t[i].base <= v
    ensures i + 1 == |t| || v < t[i + 1].base
    decreases |t|
  {
    if t[|t| - 1].base <= v then |t| - 1 else LastAtMost(t[..|t| - 1], v)
  }

  /** `DeflateCode`: base code, number of extra bits and their value. */
  datatype DeflateCode = DeflateCode(code: nat, extraBits: nat, extraVal: nat)

  /** The entry covering `v` and the offset of `v` from its base. */
  function ToDeflateCode(t: seq<TableEntry>, v: nat): (dc: DeflateCode)
    requires |t| > 0 && t[0].base <= v
  {
    var i := LastAtMost(t, v);
    DeflateCode(t[i].code, t[i].extraBits, v - t[i].base)
  }

  /** `length_to_deflate_code`: defined for lengths 3..258. */
  function LengthToDeflateCode(length: nat): (dc: DeflateCode)
    requires 3 <= length <= 258
  {
    ToDeflateCode(LengthTable, length)
  }

  /** `distance_to_deflate_code`: defined for distances 1..32768. */
  function DistanceToDeflateCode(distance: nat): (dc: DeflateCode)
    requires 1 <= distance <= 32768
  {
    ToDeflateCode(DistanceTable, distance)
  }

  /** `deflate_code_to_length`: base of the code's entry plus the extra value; no entry outside 257..285. */
  function DeflateCodeToLength(code: nat, extraVal: nat): (r: Option<nat>)
    ensures r.Some? <==> 257 <= code <= 285
  {
    if 257 <= code <= 285 then Some(LengthTable[code - 257].base + extraVal) else None
  }

  /** `deflate_code_to_distance`: base of the code's entry plus the extra value; no entry outside 0..29. */
  function DeflateCodeToDistance(code: nat, extraVal: nat): (r: Option<nat>)
    ensures r.Some? <==> code <= 29
  {
    if code <= 29 then Some(DistanceTable[code].base + extraVal) else None
  }

  /**
   * Every length 3..258 gets a code in 257..285 with at most 5 extra bits whose
   * value fits in them, 258 gets code 285 with no extra bits, and converting
   * back gives the length.
   */
  lemma LengthCodeRoundTrip(length: nat)
    requires 3 <= length <= 258
    ensures 257 <= LengthToDeflateCode(length).code <= 285
    ensures LengthToDeflateCode(length).extraBits <= 5
    ensures LengthToDeflateCode(length).extraVal < Pow2(LengthToDeflateCode(length).extraBits)
    ensures LengthTable[LengthToDeflateCode(length).code - 257].extraBits == LengthToDeflateCode(length).extraBits
    ensures length == 258 ==> LengthToDeflateCode(length) == DeflateCode(285, 0, 0)
    ensures DeflateCodeToLength(LengthToDeflateCode(length).code, LengthToDeflateCode(length).extraVal) == Some(length)
  {
    LengthTableChained();
    ChainedEntries(LengthTable, 257, 5, 0);
    var i := LastAtMost(LengthTable, length);
    assert LengthTable[i].code == 257 + i;
  }

  /**
   * Every distance 1..32768 gets a code in 0..29 with at most 13 extra bits
   * whose value fits in them, and converting back gives the distance.
   */
  lemma DistanceCodeRoundTrip(distance: nat)
    requires 1 <= distance <= 32768
    ensures DistanceToDeflateCode(distance).code <= 29
    ensures DistanceToDeflateCode(distance).extraBits <= 13
    ensures DistanceToDeflateCode(distance).extraVal < Pow2(DistanceToDeflateCode(distance).extraBits)
    ensures DistanceTable[DistanceToDeflateCode(distance).code].extraBits == DistanceToDeflateCode(distance).extraBits
    ensures DeflateCodeToDistance(DistanceToDeflateCode(distance).code, DistanceToDeflateCode(distance).extraVal) == Some(distance)
  {
    DistanceTableChained();
    ChainedEntries(DistanceTable, 0, 13, 0);
    var i := LastAtMost(DistanceTable, distance);
    assert DistanceTable[i].code == i;
    assert Pow2(13) == 8192;
  }

  /** Entry `i` of the length table carries code `257 + i`, at most 5 extra bits and a base of at least 3. */
  lemma LengthEntry(i: nat)
    requires i < |LengthTable|
    ensures LengthTable[i].code == 257 + i && LengthTable[i].extraBits <= 5 && LengthTable[i].base >= 3
  {
    LengthTableChained();
    ChainedEntries(LengthTable, 257, 5, 0);
  }

  /** Entry `i` of the distance table carries code `i`, at most 13 extra bits and a base of at least 1. */
  lemma DistanceEntry(i: nat)
    requires i < |DistanceTable|
    ensures DistanceTable[i].code == i && DistanceTable[i].extraBits <= 13 && DistanceTable[i].base >= 1
  {
    DistanceTableChained();
    ChainedEntries(DistanceTable, 0, 13, 0);
  }

  /** Bounds on every entry of both tables. */
  lemma TablesBounded()
    ensures forall k :: 0 <= k < |LengthTable| ==> LengthTable[k].extraBits <= 5
    ensures forall k :: 0 <= k < |DistanceTable| ==> DistanceTable[k].extraBits <= 13 && DistanceTable[k].base >= 1
  {
    LengthTableChained();
    DistanceTableChained();
    ChainedEntries(LengthTable, 257, 5, 0);
    ChainedEntries(DistanceTable, 0, 13, 0);
  }

  /** `DeflateSymbol`: a literal byte, a `(length, distance)` back-reference, or end of block. */
  datatype DeflateSymbol =
    | Literal(literal: byte)
    | BackReference(length: nat, distance: nat)
    | EndOfBlock

  /** `EncodedDeflateSymbol`: as `DeflateSymbol`, with length and distance as codes plus extra bits. */
  datatype EncodedDeflateSymbol =
    | EncodedLiteral(literal: byte)
    | EncodedEndOfBlock
    | LengthDistance(length: DeflateCode, distance: DeflateCode)

  /** The ranges a back-reference must lie in: lengths 3..258, distances 1..32768. */
  predicate InRange(s: DeflateSymbol)
  {
    s.BackReference? ==> 3 <= s.length <= 258 && 1 <= s.distance <= 32768
  }

  predicate AllInRange(syms: seq<DeflateSymbol>)
  {
    forall i :: 0 <= i < |syms| ==> InRange(syms[i])
  }

  /** The conversion of one symbol done by `convert_to_deflate_codes`. */
  function ConvertSymbol(s: DeflateSymbol): (e: EncodedDeflateSymbol)
    requires InRange(s)
  {
    match s
    case Literal(b) => EncodedLiteral(b)
    case BackReference(l, d) => LengthDistance(LengthToDeflateCode(l), DistanceToDeflateCode(d))
    case EndOfBlock => EncodedEndOfBlock
  }

  /**
   * `convert_to_deflate_codes`: one encoded symbol per symbol, of the same
   * kind, with literals unchanged.
   */
  function ConvertToDeflateCodes(syms: seq<DeflateSymbol>): (enc: seq<EncodedDeflateSymbol>)
    requires AllInRange(syms)
    ensures |enc| == |syms|
    ensures forall i :: 0 <= i < |syms| ==>
      && (syms[i].Literal? <==> enc[i].EncodedLiteral?)
      && (syms[i].BackReference? <==> enc[i].LengthDistance?)
      && (syms[i].EndOfBlock? <==> enc[i].EncodedEndOfBlock?)
      && (syms[i].Literal? ==> enc[i].literal == syms[i].literal)
  {
    seq(|syms|, i requires 0 <= i < |syms| && AllInRange(syms) => ConvertSymbol(syms[i]))
  }

  /**
   * A back-reference copy done one byte at a time: each new byte is the byte
   * `distance` positions before it, so a distance shorter than the length
   * repeats bytes the copy itself produced.
   */
  function CopyBack(out: seq<byte>, distance: nat, length: nat): (r: seq<byte>)
    requires 1 <= distance <= |out|
    ensures |r| == |out| + length
    ensures r[..|out|] == out
    ensures forall i :: |out| <= i < |r| ==> r[i] == r[i - distance]
    decreases length
  {
    if length == 0 then out
    else
      var r := CopyBack(out + [out[|out| - distance]], distance, length - 1);
      assert r[..|out| + 1][..|out|] == out;
      r
  }

  /** A copy is the window before the end repeated: byte `|out| + k` is `out[|out| - distance + k % distance]`. */
  lemma {:induction false} CopyBackRepeats(out: seq<byte>, distance: nat, length: nat, k: nat)
    requires 1 <= distance <= |out| && k < length
    ensures CopyBack(out, distance, length)[|out| + k] == out[|out| - distance + k % distance]
    decreases k
  {
    var r := CopyBack(out, distance, length);
    if k < distance {
      assert k % distance == k;
      assert r[|out| + k] == r[|out| + k - distance];
      assert r[..|out|][|out| + k - distance] == out[|out| + k - distance];
    } else {
      CopyBackRepeats(out, distance, length, k - distance);
      DivUnique(k, distance, (k - distance) / distance + 1, (k - distance) % distance);
    }
  }

  /** Without overlap the copy appends the `length` bytes starting `distance` back. */
  lemma CopyBackDisjoint(out: seq<byte>, distance: nat, length: nat)
    requires 1 <= distance <= |out| && length <= distance
    ensures CopyBack(out, distance, length) == out + out[|out| - distance..|out| - distance + length]
  {
    var r := CopyBack(out, distance, length);
    var window := out[|out| - distance..|out| - distance + length];
    forall i | |out| <= i < |r|
      ensures r[i] == window[i - |out|]
    {
      CopyBackRepeats(out, distance, length, i - |out|);
    }
    assert r == r[..|out|] + r[|out|..];
  }

  /**
   * `lz77_decompress`: a literal appends its byte, a back-reference copies,
   * end of block ends the text. A distance beyond the text produced so far
   * has nothing to copy from, and the decoder has no result.
   */
  function Lz77DecompressFrom(syms: seq<DeflateSymbol>, out: seq<byte>): (r: Option<seq<byte>>)
    ensures r.Some? ==> out <= r.value
    decreases |syms|
  {
    if syms == [] then Some(out)
    else match syms[0]
      case Literal(b) => Lz77DecompressFrom(syms[1..], out + [b])
      case BackReference(l, d) =>
        if 1 <= d <= |out| then Lz77DecompressFrom(syms[1..], CopyBack(out, d, l)) else None
      case EndOfBlock => Some(out)
  }

  function Lz77Decompress(syms: seq<DeflateSymbol>): (r: Option<seq<byte>>)
  {
    Lz77DecompressFrom(syms, [])
  }

  /**
   * What `lz77_compress(input)` promises about the stream it returns: every
   * back-reference within range, every distance within the text produced so
   * far, and the stream decoding to `input`.
   */
  predicate Lz77CompressContract(input: seq<byte>, syms: seq<DeflateSymbol>)
  {
    AllInRange(syms) && Lz77Decompress(syms) == Some(input)
  }

  /** `lz77_decompress_encoded`: as `lz77_decompress`, turning codes back into lengths and distances. */
  function Lz77DecompressEncodedFrom(enc: seq<EncodedDeflateSymbol>, out: seq<byte>): (r: Option<seq<byte>>)
    decreases |enc|
  {
    if enc == [] then Some(out)
    else match enc[0]
      case EncodedLiteral(b) => Lz77DecompressEncodedFrom(enc[1..], out + [b])
      case LengthDistance(lc, dc) =>
        var l := DeflateCodeToLength(lc.code, lc.extraVal);
        var d := DeflateCodeToDistance(dc.code, dc.extraVal);
        if l.Some? && d.Some? && 1 <= d.value <= |out|
        then Lz77DecompressEncodedFrom(enc[1..], CopyBack(out, d.value, l.value))
        else None
      case EncodedEndOfBlock => Some(out)
  }

  function Lz77DecompressEncoded(enc: seq<EncodedDeflateSymbol>): (r: Option<seq<byte>>)
  {
    Lz77DecompressEncodedFrom(enc, [])
  }

  /** Converting to codes loses nothing: the encoded decoder agrees with the raw one on every stream in range. */
  lemma {:induction false} DecompressEncodedOfConvert(syms: seq<DeflateSymbol>, out: seq<byte>)
    requires AllInRange(syms)
    ensures Lz77DecompressEncodedFrom(ConvertToDeflateCodes(syms), out) == Lz77DecompressFrom(syms, out)
    decreases |syms|
  {
    if syms != [] {
      var enc := ConvertToDeflateCodes(syms);
      assert ConvertToDeflateCodes(syms[1..]) == enc[1..];
      match syms[0]
      case Literal(b) =>
        DecompressEncodedOfConvert(syms[1..], out + [b]);
      case BackReference(l, d) =>
        LengthCodeRoundTrip(l);
        DistanceCodeRoundTrip(d);
        if 1 <= d <= |out| {
          DecompressEncodedOfConvert(syms[1..], CopyBack(out, d, l));
        }
      case EndOfBlock =>
    }
  }

  /** The whole-stream form: `lz77_decompress_encoded(convert_to_deflate_codes(s)) == lz77_decompress(s)`. */
  lemma ConvertPreservesDecompression(syms: seq<DeflateSymbol>)
    requires AllInRange(syms)
    ensures Lz77DecompressEncoded(ConvertToDeflateCodes(syms)) == Lz77Decompress(syms)
  {
    DecompressEncodedOfConvert(syms, []);
  }

  /** The header's example: "abcabc" is `[a, b, c, ref(3, 3)]`. */
  lemma Lz77DecompressExample()
    ensures Lz77Decompress([Literal(97), Literal(98), Literal(99), BackReference(3, 3)])
         == Some([97, 98, 99, 97, 98, 99])
  {
    var s1 := [Literal(97), Literal(98), Literal(99), BackReference(3, 3)];
    var o1: seq<byte>, o2: seq<byte>, o3: seq<byte> := [97], [97, 98], [97, 98, 99];
    assert [] + [97] == o1 && o1 + [98] == o2 && o2 + [99] == o3;
    assert s1[1..][1..] == s1[2..] && s1[2..][1..] == s1[3..];
    assert Lz77DecompressFrom(s1, []) == Lz77DecompressFrom(s1[3..], o3);
    ExampleCopy(s1[3..]);
  }

  /** The back-reference of the example, `ref(3, 3)` after "abc", repeats "abc". */
  lemma ExampleCopy(tail: seq<DeflateSymbol>)
    requires tail == [BackReference(3, 3)]
    ensures Lz77DecompressFrom(tail, [97, 98, 99]) == Some([97, 98, 99, 97, 98, 99])
  {
    var o3: seq<byte> := [97, 98, 99];
    assert tail[1..] == [];
    CopyBackDisjoint(o3, 3, 3);
    assert o3[0..3] == o3;
    assert o3 + o3 == [97, 98, 99, 97, 98, 99];
  }

  /** An overlapping copy repeats its window, and nothing after end of block is decoded. */
  lemma Lz77DecompressOverlapExample()
    ensures Lz77Decompress([Literal(97), BackReference(4, 1), EndOfBlock, Literal(98)])
         == Some([97, 97, 97, 97, 97])
  {
    var s2 := [Literal(97), BackReference(4, 1), EndOfBlock, Literal(98)];
    var a: seq<byte> := [97];
    var r := CopyBack(a, 1, 4);
    forall i | 1 <= i < 5
      ensures r[i] == 97
    {
      CopyBackRepeats(a, 1, 4, i - 1);
    }
    assert r == [97, 97, 97, 97, 97];
    assert [] + a == a;
    assert s2[1..][1..] == s2[2..];
    calc {
      Lz77DecompressFrom(s2, []);
      Lz77DecompressFrom(s2[1..], a);
      Lz77DecompressFrom(s2[2..], r);
    }
  }
}
