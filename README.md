# Lossless compression: DEFLATE, gzip, LZ77, Huffman and the parameter optimizers

This project models, in Dafny, the hand-written compressors of the
Lossless_Compression_Algorithms_Testing repository and its Python grid-search
optimizers, and proves properties of the model.

- **DEFLATE with fixed Huffman codes** (`src/custom_impl/`): an LZ77 symbol
  stream (literals, `(length, distance)` back-references, end of block) is turned
  into the fixed literal/length and distance codes of section 3.2.6 of RFC 1951.
  Length and distance extra bits follow the tables of section 3.2.5. The bits
  are packed least significant bit first by a `BitWriter`. A `BitReader` decodes
  them again. Modules `FixedHuffman` (fixed_huffman.dfy), `BitIO` (bit_io.dfy),
  `Lz77Symbols` (lz77_symbols.dfy) and `Deflate` (deflate.dfy).
- **gzip** (`gzip.cpp`): a table-driven CRC-32 class and the member layout of
  RFC 1952: a 10-byte header, the deflate data, the CRC-32 and ISIZE, both
  little-endian. Module `Gzip` (gzip.dfy).
- **Classic LZ77** (`lz77_compression.cpp`): `(offset, length, next char)`
  tokens over a 43-character search buffer and an 8-character look-ahead
  buffer. The tokens go into an array indexed by a global `counter`, which is
  modelled as the field of class `Codec`. Module `Lz77Classic`
  (lz77_classic.dfy).
- **Character Huffman coding** (`huffman_encoding.cpp/.h`): frequency counting,
  tree building with a min-heap (class `MinHeap`), codes read off root-to-leaf
  paths, encoding, symbol-by-symbol decoding, and the MSB-first `BitReader` of
  the header. Module `Huffman` (huffman.dfy).
- **Optimizers** (`src/profiling/optimizer_utils.py` and the earlier top-level
  `optimizer_utils.py`): `profile` runs one compression and records what it
  measured. Each `run_*_grid_search` walks its parameter ranges in nested
  loops. For each objective it keeps the first result that is strictly best.
  Modules `Sweep` (sweep.dfy, shared), `ProfilingOptimizer`
  (profiling_optimizer.dfy) and `Optimizer` (optimizer.dfy).

`Wrappers` (wrappers.dfy) holds `Option`/`Result`. `Arith` (arith.dfy) holds
powers of two, division facts and the regrouping of concatenations.

Main results:

- `Deflate.DeflateRoundTrip`: whatever valid LZ77 stream is compressed,
  `deflate_decompress` returns the input.
- `Gzip.GzipMain`: the member parses back into its fields. Its CRC is the
  CRC-32 of the input (`Gzip.CheckValue`: "123456789" gives 0xCBF43926), and
  its ISIZE is the size modulo 2^32. Its compressed data is produced by
  `Deflate.DeflateCompress`, and so it inflates to the input. This is a
  substitution: `gzip.cpp` calls a `deflate_compress` that the sources only
  declare (see "Left out").
- `Lz77Classic.DecodeTokens`: `decompress(compress(s)) == s` for every text
  without a NUL character.
- `Huffman.DecodeEncoded`: decoding an encoded text returns it, and the code
  table is prefix-free.
- `ProfilingOptimizer.*GridSearch` and `Optimizer.*GridSearch`: each
  objective's winner is the first visited result with the best value. The
  point grid is exactly the nested loops' order. It covers every combination
  of the ranges. `Sweep.*DefaultGrid` state the grids of the default range
  arguments, which both optimizer files share.

Where the source has undefined behaviour, the model returns an explicit error
value or a `None`:
- `deflate_decompress`: a distance beyond the text, distance codes 30/31, or
  length codes 286/287, which `deflate_code_to_length` is not documented for;
- `get_decode_text`: a read past the string's terminator;
- `decompress`: a copy from outside the text.

`BitReader::read_bit` of `huffman_encoding.h` has no bounds check. A read in
the byte at the string's size gives the terminator's 0 bit; a read beyond it is
undefined, and `Huffman.BitReader.ReadBit` requires that it does not happen.

The implementation file behind the declarations of
`src/custom_impl/lz77_compression.h` (the tables, the conversions,
`lz77_compress` and `lz77_decompress`) is not part of this model. Those
functions follow the header's documentation and section 3.2.5 of RFC 1951.
`lz77_compress` becomes a parameter: the symbol stream, together with the
contract the header documents for it (`Lz77Symbols.Lz77CompressContract`).

The compression libraries, the clocks and `tracemalloc` that the optimizers
call become one function parameter, `measure(algorithm, point)`.

## Model

| member | source | states |
|---|---|---|
| FixedHuffman.U16 | src/custom_impl/fixed_huffman_encoding.h:26-29 | the `uint16_t` cast keeps values below 2^16 and truncates larger ones |
| FixedHuffman.LitLenCode | src/custom_impl/fixed_huffman_encoding.h:25-30 | every literal/length code is 7 to 9 bits long |
| FixedHuffman.DistanceCode | src/custom_impl/fixed_huffman_encoding.h:33-35 | every distance code is 5 bits long |
| FixedHuffman.MsbValueOfBits | src/custom_impl/fixed_huffman_encoding.h:19-22 | reading back the MSB-first bits of a code that fits its length gives the code |
| FixedHuffman.LitLenCodeMatchesRfcTable | src/custom_impl/fixed_huffman_encoding.h:6-30 | the four ranges match the table of section 3.2.6 of RFC 1951: lengths 8/9/7/8 and code ranges 0x30-0xBF, 0x190-0x1FF, 0-0x17, 0xC0-0xC7; end of block is 7 zero bits |
| FixedHuffman.LitLenCodeFits | src/custom_impl/fixed_huffman_encoding.h:25-30 | each code of symbols 0..287 fits in its bit length |
| FixedHuffman.LitLenPrefixFree | src/custom_impl/fixed_huffman_encoding.h:25-30 | no literal/length code is a prefix of another one, so the table is a prefix code |
| FixedHuffman.LitLenCodesUnshifted | src/custom_impl/fixed_huffman_encoding.h:25-30 | no code equals another code, or another code shifted right by one or two bits |
| FixedHuffman.DistancePrefixFree | src/custom_impl/fixed_huffman_encoding.h:33-35 | distance codes 0..29 fit in 5 bits and form a prefix code |
| FixedHuffman.OutOfTableSymbol | src/custom_impl/fixed_huffman_encoding.h:29 | symbol 288 is not rejected; it gets 0xC8/8, a prefix of the code of 144 |
| BitIO.MaskIsShift | src/custom_impl/bit_utils.h:86 | the mask that sets a bit is `1 << k` |
| BitIO.ShiftTestIsByteBit | src/custom_impl/bit_utils.h:40 | `(x >> k) & 1` tests bit `k` of the byte |
| BitIO.MaskTest | src/custom_impl/bit_utils.h:28 | `x & (1 << m)` tests bit `m` of the byte |
| BitIO.LsbValueOfBits | src/custom_impl/bit_utils.h:24-35 | reading back `n` bits written LSB-first gives the value modulo 2^n |
| BitIO.MsbBitsAreReversedLsbBits | src/custom_impl/bit_utils.h:92-98 | `write_code_reversed` emits the code's `write_bits` bits in reverse order |
| BitIO.PackedBitsFrom | src/custom_impl/bit_utils.h:24-35 | a packed buffer reads back the bits packed into it, and zeros past them |
| BitIO.SetBitAt | src/custom_impl/bit_utils.h:86 | ORing the mask into a byte sets that one bit of the buffer and no other |
| BitIO.AppendZeroByte | src/custom_impl/bit_utils.h:85 | pushing a zero byte changes no bit |
| BitIO.PushBitAt | src/custom_impl/bit_utils.h:84-88 | one write step sets bit `p` exactly when the bit is 1, and leaves every other bit alone |
| BitIO.PushBitSetsOnly | src/custom_impl/bit_utils.h:85-86 | a write step keeps every byte and only sets bits in it |
| BitIO.PushBitPacks | src/custom_impl/bit_utils.h:83-89 | a write step keeps the packing invariant and appends exactly its bit |
| BitIO.BitWriter.constructor | src/custom_impl/bit_utils.h:77-80 | an empty buffer at bit position 0 |
| BitIO.BitWriter.TotalBits | src/custom_impl/bit_utils.h:100 | `total_bits` is the number of bits written |
| BitIO.BitWriter.PutBit | src/custom_impl/bit_utils.h:84-88 | one bit is appended, the byte count stays ceil(bits/8), and no earlier bit is cleared |
| BitIO.BitWriter.WriteBits | src/custom_impl/bit_utils.h:83-89 | the written bits gain the `count` low bits of `value`, least significant first |
| BitIO.BitWriter.WriteCodeReversed | src/custom_impl/bit_utils.h:92-98 | the written bits gain the code's bits, most significant first |
| BitIO.MsbReadBound | src/custom_impl/bit_utils.h:38-43 | `n` MSB reads give a value below 2^n and advance at most `n` bits |
| BitIO.MsbReadAdvances | src/custom_impl/bit_utils.h:38-43 | inside the buffer, MSB reads advance the position |
| BitIO.MsbReadCode | src/custom_impl/bit_utils.h:50 | where the next `n` bits are an `n`-bit code, `n` MSB reads return that code |
| BitIO.DecodeSeven | src/custom_impl/bit_utils.h:49-51 | a 7-bit code up to 23 decodes to symbol 256 + code |
| BitIO.DecodeEight | src/custom_impl/bit_utils.h:53-56 | an 8-bit code in 0x30..0xC7 fails the 7-bit test and is read whole |
| BitIO.DecodeNine | src/custom_impl/bit_utils.h:58-60 | a 9-bit code in 0x190..0x1FF fails both shorter tests and is read whole |
| BitIO.DecodeEightSymbol | src/custom_impl/bit_utils.h:53-56 | an 8-bit code decodes to literal 0..143 or length symbol 280..287 |
| BitIO.DecodeNineSymbol | src/custom_impl/bit_utils.h:58-60 | a 9-bit code decodes to literal 144..255 |
| BitIO.DecodeLitLenInverts | src/custom_impl/bit_utils.h:46-63 | `read_fixed_litlen_code` inverts `get_fixed_litlen_code`: it returns the symbol and consumes exactly its code |
| BitIO.DecodeLitLenTotal | src/custom_impl/bit_utils.h:62 | the `-1` return cannot happen: the result is always 0..287, and at most 9 bits are consumed |
| BitIO.DecodePaddingIsEndOfBlock | src/custom_impl/bit_utils.h:49-51 | reading the zero padding after the last written bit gives end of block (256) |
| BitIO.DecodeDistanceInverts | src/custom_impl/bit_utils.h:66-70 | `read_fixed_distance_code` inverts `get_fixed_distance_code` |
| BitIO.BitReader.constructor | src/custom_impl/bit_utils.h:21 | the reader starts at bit 0 of the buffer |
| BitIO.BitReader.HasBits | src/custom_impl/bit_utils.h:72 | `has_bits` is byte-granular: the position is before 8 times the byte count |
| BitIO.BitReader.ReadBits | src/custom_impl/bit_utils.h:24-35 | the result is the LSB-first value of the next `count` bits (zeros past the end), and the position moves by `count` |
| BitIO.BitReader.TakeBit | src/custom_impl/bit_utils.h:27-32 | one loop step reads the bit at the position and advances |
| BitIO.BitReader.ReadBitMsb | src/custom_impl/bit_utils.h:38-43 | one bit; at or past the end it returns 0 and stays put |
| BitIO.BitReader.ReadFixedLitLenCode | src/custom_impl/bit_utils.h:46-63 | the method computes the 7/8/9-bit decision procedure, whose inverse and totality are proved above |
| BitIO.BitReader.ReadFixedDistanceCode | src/custom_impl/bit_utils.h:66-70 | five MSB reads |
| Lz77Symbols.LengthTableChained | src/custom_impl/lz77_compression.h:12-27 | the length table runs over codes 257..285 with at most 5 extra bits; bases strictly increase and each range reaches the next base |
| Lz77Symbols.DistanceTableChained | src/custom_impl/lz77_compression.h:29-40 | the distance table runs over codes 0..29 with at most 13 extra bits, chained the same way |
| Lz77Symbols.LengthEntry | src/custom_impl/lz77_compression.h:20-27 | entry `i` of the length table has code 257+i, at most 5 extra bits and a base of at least 3 |
| Lz77Symbols.DistanceEntry | src/custom_impl/lz77_compression.h:29-40 | entry `i` of the distance table has code i, at most 13 extra bits and a base of at least 1 |
| Lz77Symbols.TablesBounded | src/custom_impl/lz77_compression.h:103-120 | extra-bit bounds for every entry of both tables |
| Lz77Symbols.DeflateCodeToLength | src/custom_impl/lz77_compression.h:177-183 | a length exists exactly for codes 257..285 |
| Lz77Symbols.DeflateCodeToDistance | src/custom_impl/lz77_compression.h:185-191 | a distance exists exactly for codes 0..29 |
| Lz77Symbols.LengthCodeRoundTrip | src/custom_impl/lz77_compression.h:149-154 | every length 3..258 gets a code 257..285 whose extra value fits its extra bits; 258 gets 285 with no extra bits; converting back gives the length |
| Lz77Symbols.DistanceCodeRoundTrip | src/custom_impl/lz77_compression.h:156-161 | every distance 1..32768 gets a code 0..29 whose extra value fits; converting back gives the distance |
| Lz77Symbols.ConvertToDeflateCodes | src/custom_impl/lz77_compression.h:163-173 | one encoded symbol per symbol, of the same kind, literals unchanged, references carrying their codes |
| Lz77Symbols.CopyBack | src/custom_impl/lz77_compression.h:52-56 | a copy keeps the text, adds `length` bytes, and each new byte equals the byte `distance` before it |
| Lz77Symbols.CopyBackRepeats | src/custom_impl/lz77_compression.h:52-56 | an overlapping copy repeats the last `distance` bytes periodically |
| Lz77Symbols.CopyBackDisjoint | src/custom_impl/lz77_compression.h:52-56 | without overlap, a copy appends the window unchanged |
| Lz77Symbols.Lz77DecompressFrom | src/custom_impl/lz77_compression.h:212-218 | decoding only appends to the text decoded so far |
| Lz77Symbols.DecompressEncodedOfConvert | src/custom_impl/lz77_compression.h:193-203 | decoding the converted codes agrees with decoding the raw symbols, from any decoded prefix |
| Lz77Symbols.ConvertPreservesDecompression | src/custom_impl/lz77_compression.h:193-203 | `lz77_decompress_encoded(convert_to_deflate_codes(s)) == lz77_decompress(s)` |
| Lz77Symbols.Lz77DecompressExample | src/custom_impl/lz77_compression.h:55 | the header's example: `[a, b, c, ref(3,3)]` decodes to "abcabc" |
| Lz77Symbols.ExampleCopy | src/custom_impl/lz77_compression.h:55 | `ref(3,3)` after "abc" repeats "abc" |
| Lz77Symbols.Lz77DecompressOverlapExample | src/custom_impl/lz77_compression.h:52-66 | an overlapping copy repeats its window, and nothing after end of block is decoded |
| Deflate.Header | src/custom_impl/deflate.cpp:61 | the block header bits: BFINAL 1, then BTYPE 01 least significant bit first |
| Deflate.SymbolBitsLength | src/custom_impl/deflate.cpp:64-85 | a literal takes 8 or 9 bits and end of block 7; a back-reference takes the sum of its four fields |
| Deflate.StreamBitsSnoc | src/custom_impl/deflate.cpp:64-86 | the stream's bits grow by each symbol's bits, in order |
| Deflate.WriteField | src/custom_impl/deflate.cpp:71-74 | a code, then its extra bits only when there are any |
| Deflate.WriteBackReference | src/custom_impl/deflate.cpp:69-81 | length code, length extra bits, distance code, distance extra bits |
| Deflate.WriteSymbol | src/custom_impl/deflate.cpp:65-85 | the writer gains exactly the symbol's bits, for all three kinds |
| Deflate.WriteNextSymbol | src/custom_impl/deflate.cpp:64-86 | one loop turn extends the written stream by one symbol |
| Deflate.WriteStream | src/custom_impl/deflate.cpp:64-86 | the loop writes the bits of the whole stream |
| Deflate.DeflateCompress | src/custom_impl/deflate.cpp:54-89 | the bytes pack header plus stream bits; `total_bits` is their count; `original_size` is the input length |
| Deflate.FindExtra | src/custom_impl/deflate.cpp:115-120 | the scan stops at the first entry with the code and extra bits; if there is none, no earlier entry qualifies |
| Deflate.FindExtraInLengthTable | src/custom_impl/deflate.cpp:114-120 | for a length code the scan finds the code's own entry exactly when it has extra bits |
| Deflate.FindExtraInDistanceTable | src/custom_impl/deflate.cpp:123-129 | the same for distance codes |
| Deflate.ScanSettlesOnEntry | src/custom_impl/deflate.cpp:114-129 | when the scan settles on a code's own entry, the field read is that entry's base plus its extra bits |
| Deflate.ScanTable | src/custom_impl/deflate.cpp:115-120 | the scan loop computes `FindExtra` |
| Deflate.ReadField | src/custom_impl/deflate.cpp:114-129 | the value and the new position are the table field read at the old position |
| Deflate.CopyBackSnoc | src/custom_impl/deflate.cpp:132 | one more loop step appends the byte `distance` back |
| Deflate.CopyBackAgrees | src/custom_impl/deflate.cpp:132 | copying one more byte does not change the bytes already copied |
| Deflate.CopyBytes | src/custom_impl/deflate.cpp:131-132 | the byte-by-byte copy loop computes `CopyBack` |
| Deflate.InflateBackReference | src/custom_impl/deflate.cpp:112-133 | reading and copying one back-reference agrees with the decoder's step, including its errors |
| Deflate.DeflateDecompress | src/custom_impl/deflate.cpp:95-136 | the method computes `Inflate`, which the round-trip lemmas below are about |
| Deflate.ExtraBitsRead | src/custom_impl/deflate.cpp:74 | extra bits written by `write_bits` are read back as the extra value |
| Deflate.EntryFieldValue | src/custom_impl/deflate.cpp:117 | a field is the entry's base plus its extra value |
| Deflate.LengthFieldDecodes | src/custom_impl/deflate.cpp:114-120 | the decoder reads back the length that the written length code stands for |
| Deflate.DistanceFieldDecodes | src/custom_impl/deflate.cpp:123-129 | the decoder reads back the distance that the written distance code stands for |
| Deflate.BackReferenceFieldsRead | src/custom_impl/deflate.cpp:71-80 | the length extra bits, distance code and distance extra bits are read back as written |
| Deflate.BackReferenceDecodes | src/custom_impl/deflate.cpp:112-133 | a written back-reference decodes to its length and distance, then copies or stops on a distance too far |
| Deflate.BackReferenceStepBadCode | src/custom_impl/deflate.cpp:122-126 | a distance code of 30 or 31 stops the decoder with an error |
| Deflate.LitLenCodeRead | src/custom_impl/deflate.cpp:105 | a written literal/length code is decoded from where it was written |
| Deflate.LiteralInflates | src/custom_impl/deflate.cpp:108-109 | decoding a literal appends it and continues after its code |
| Deflate.EndOfBlockInflates | src/custom_impl/deflate.cpp:110-111 | decoding end of block stops with the text so far |
| Deflate.BackReferenceRead | src/custom_impl/deflate.cpp:112-133 | a written back-reference is read as its length code followed by its copy step |
| Deflate.BackReferenceInflates | src/custom_impl/deflate.cpp:112-133 | decoding a back-reference copies and continues, or stops when the distance reaches before the text |
| Deflate.InflateStream | src/custom_impl/deflate.cpp:104-134 | decoding the packed stream succeeds exactly when the LZ77 decoder does, and with the same text |
| Deflate.DeflateRoundTrip | src/custom_impl/deflate.cpp:149-154 | decompressing the output of `deflate_compress` gives the input |
| Deflate.CompressAndVerify | src/custom_impl/deflate.cpp:142-154 | `main`'s check always reports success |
| Gzip.ProductIsConditionalXor | gzip.cpp:71 | `CRC32_POLY * (crc & 1)` is the polynomial when the low bit is set, otherwise 0 |
| Gzip.StepOnce | gzip.cpp:70-72 | one inner step of `generate_table` is one division step |
| Gzip.EntryIsSteps | gzip.cpp:68-74 | table entry `k` is `k` after eight division steps |
| Gzip.DivideByte | gzip.cpp:69-73 | the inner loop computes the table entry of its byte |
| Gzip.UpdateIsBitwise | gzip.cpp:94-99 | one table lookup does the work of eight bitwise division steps |
| Gzip.ByteOnlyTouchesLowBits | gzip.cpp:94 | XORing in a byte changes only the low byte, which becomes the index |
| Gzip.RegisterIsBitwise | gzip.cpp:82-105 | the table-driven register equals the bitwise CRC on every input |
| Gzip.RegisterAppend | gzip.cpp:85-102 | the CRC of a concatenation continues from the register after the first part |
| Gzip.ChecksumOfNothing | gzip.cpp:83-104 | the CRC-32 of no bytes is 0 |
| Gzip.CheckValue | gzip.cpp:82-105 | the CRC-32 of "123456789" is 0xCBF43926, the standard check value |
| Gzip.Crc32.constructor | gzip.cpp:80 | a fresh table holding the division result of every index |
| Gzip.Crc32.GenerateTable | gzip.cpp:67-77 | afterwards every entry holds the division result of its index |
| Gzip.Crc32.Compute | gzip.cpp:82-105 | `compute` returns the CRC-32 of the data |
| Gzip.Le32 | gzip.cpp:143-148 | `write_le32` writes four bytes |
| Gzip.Le32RoundTrip | gzip.cpp:143-148 | reading the four bytes back gives the value |
| Gzip.FromLe32RoundTrip | gzip.cpp:143-148 | every four bytes are `write_le32` of the value they encode |
| Gzip.Le32Order | gzip.cpp:144-147 | the low byte comes first and the high byte last |
| Gzip.Size32Exact | gzip.cpp:153 | sizes below 2^32 are written exactly |
| Gzip.Size32Wraps | gzip.cpp:153 | larger sizes wrap: ISIZE is the size modulo 2^32 |
| Gzip.ToBytes | gzip.cpp:141 | the input characters are as many as its bytes |
| Gzip.ToBytesKeeps | gzip.cpp:141 | each character is the byte at its place |
| Gzip.MemberHeader | gzip.cpp:127-134 | the header is 10 bytes |
| Gzip.Member | gzip.cpp:127-153 | a member is 18 bytes longer than its deflate data |
| Gzip.ParseMember | gzip.cpp:127-153 | parsing succeeds exactly on at least 18 bytes that start with the header |
| Gzip.ParseMemberRoundTrip | gzip.cpp:127-153 | parsing a member gives back its fields |
| Gzip.MemberOfParse | gzip.cpp:127-153 | rebuilding a parsed member gives the same bytes |
| Gzip.GzipMain | gzip.cpp:109-156 | if the file cannot be created, status 1 and nothing written; otherwise a member whose data inflates to the input, with the input's CRC-32 and ISIZE |
| Lz77Classic.SearchLength | lz77_compression.cpp:63-64 | the search buffer ends at `index` and holds at most 43 characters |
| Lz77Classic.AgreeMatches | lz77_compression.cpp:91-99 | the characters counted agree, and the count stops at a bound or at a difference |
| Lz77Classic.MatchAtMatches | lz77_compression.cpp:84-100 | a match covers text equal to the text at the matched buffer position |
| Lz77Classic.LongestIsFirstLongest | lz77_compression.cpp:84-107 | the kept match is a real match, no match is longer, and no earlier one is as long |
| Lz77Classic.TokenAtWellFormed | lz77_compression.cpp:101-108 | offset at most 43 and length at most 8, so the `uint8_t` fields never truncate; the match stays inside the input |
| Lz77Classic.TokenCopiesParsedText | lz77_compression.cpp:101-108 | the match lies in the text already parsed and repeats the text at `index` |
| Lz77Classic.TokensFromStep | lz77_compression.cpp:58-116 | one outer pass emits the token and moves past its match and next character |
| Lz77Classic.TokensFromEnd | lz77_compression.cpp:58 | nothing is emitted past the end |
| Lz77Classic.TokensFromLength | lz77_compression.cpp:58-116 | at most one token per character left |
| Lz77Classic.TokensFit | lz77_compression.cpp:47-52 | `compress` writes at most one token per input character, the size of its array |
| Lz77Classic.TokensWellFormed | lz77_compression.cpp:58-116 | every emitted token respects the buffer sizes |
| Lz77Classic.CopyFrom | lz77_compression.cpp:136-144 | a copy keeps the text and adds `len` characters |
| Lz77Classic.DecodeSnoc | lz77_compression.cpp:131-149 | the token loop over one more token |
| Lz77Classic.FailureStays | lz77_compression.cpp:131-149 | once a copy fails, decoding has no result |
| Lz77Classic.CopyMatch | lz77_compression.cpp:136-144 | copying a match that lies in the decoded text rebuilds the matched characters |
| Lz77Classic.CopyOfToken | lz77_compression.cpp:136-144 | the copy of a token rebuilds the input up to the end of its match |
| Lz77Classic.ApplyToken | lz77_compression.cpp:134-148 | applying a token to the first `index` characters gives the text up to its next character |
| Lz77Classic.DecodeTokensFrom | lz77_compression.cpp:126-152 | the tokens emitted from `index` on complete the decoded prefix to the whole input |
| Lz77Classic.DecodeTokens | lz77_compression.cpp:154-172 | `decompress(compress(s)) == s` for every text without NUL |
| Lz77Classic.NulIsDropped | lz77_compression.cpp:147 | a NUL character is taken for "no next character" and lost |
| Lz77Classic.SecondCompressOverruns | lz77_compression.cpp:10-113 | "ab" gives two tokens, so a second `compress` of it starts at counter 2 in an array of 2 |
| Lz77Classic.ExtendMatch | lz77_compression.cpp:91-99 | the inner `while` loop computes the match length at buffer position `i` |
| Lz77Classic.LongestMatch | lz77_compression.cpp:84-107 | the buffer loop finds the first longest match and its offset |
| Lz77Classic.NextToken | lz77_compression.cpp:60-108 | one outer pass builds the token at `index` |
| Lz77Classic.CopyLoop | lz77_compression.cpp:136-144 | the copy loop computes `CopyFrom` |
| Lz77Classic.Codec.constructor | lz77_compression.cpp:10 | the global counter starts at 0 |
| Lz77Classic.Codec.Compress | lz77_compression.cpp:44-119 | the tokens go into the array at `output[counter]` onwards, and the counter grows by their number |
| Lz77Classic.Codec.Decompress | lz77_compression.cpp:126-152 | the first `counter` tokens are decoded |
| Lz77Classic.Codec.CompressFromStart | lz77_compression.cpp:44-119 | with the counter reset first, the tokens fill the array from index 0 |
| Lz77Classic.Codec.CompressThenDecompress | lz77_compression.cpp:154-172 | `main` calls `compress` with the counter at 0 and gets its NUL-free text back |
| Lz77Classic.CompressTwice | lz77_compression.cpp:10-113 | after one `compress("ab")` the counter is 2, so a second call's tokens do not fit its array: the requires of `Codec.Compress` fails |
| Huffman.TreeShape | huffman_encoding.cpp:136-180 | one leaf per distinct character, and one inner node fewer than leaves |
| Huffman.CountFrequency | huffman_encoding.cpp:188-193 | every character's count grows by its occurrences; keys are the old ones plus the text's |
| Huffman.CountFrequencyFromEmpty | huffman_encoding.cpp:291 | counting into an empty map gives exactly the occurrence counts |
| Huffman.CountsSum | huffman_encoding.cpp:188-193 | the counts sum to the text length |
| Huffman.MinIndex | huffman_encoding.cpp:49-53 | no node in the queue has a lower frequency than the one chosen |
| Huffman.MinHeap.constructor | huffman_encoding.cpp:139 | an empty queue |
| Huffman.MinHeap.Push | huffman_encoding.cpp:147 | the node is added |
| Huffman.MinHeap.Top | huffman_encoding.cpp:161 | the top is in the queue, and no node precedes it |
| Huffman.MinHeap.Pop | huffman_encoding.cpp:162 | the top node is removed |
| Huffman.JoinTwo | huffman_encoding.cpp:159-168 | joining the two least frequent trees keeps the forest well-formed, and keeps its characters and total |
| Huffman.PushLeaves | huffman_encoding.cpp:142-151 | one leaf per map entry: the forest covers the keys, and its total is the sum of the frequencies |
| Huffman.JoinAll | huffman_encoding.cpp:159-168 | one tree is left, with the same characters and total |
| Huffman.BuildTree | huffman_encoding.cpp:136-180 | the root covers exactly the map's characters, once each, and sums at every node to the total frequency |
| Huffman.CodesInto | huffman_encoding.cpp:202-214 | the table gains every leaf's character, and other entries stay |
| Huffman.CodeIsPath | huffman_encoding.cpp:202-214 | a character's code is the prefix followed by its root-to-leaf path |
| Huffman.CodesArePaths | huffman_encoding.cpp:299 | `main`'s table maps each character to its path |
| Huffman.PathNonEmpty | huffman_encoding.cpp:210-211 | under an inner node every code has at least one bit |
| Huffman.PathsPrefixFree | huffman_encoding.cpp:202-214 | no path is a prefix of another |
| Huffman.CodesPrefixFree | huffman_encoding.cpp:202-214 | the code table is prefix-free |
| Huffman.EncodeText | huffman_encoding.cpp:222-229 | the result is the codes of the characters in order; the table gains empty codes for missing characters |
| Huffman.EncodedAppend | huffman_encoding.cpp:222-229 | encoding distributes over concatenation |
| Huffman.EncodedLength | huffman_encoding.cpp:222-229 | the encoded length is the sum over characters of count times code length |
| Huffman.DecodeSymbol | huffman_encoding.cpp:239-258 | one call reads at least one bit below an inner node and lands on a leaf character |
| Huffman.DecodePath | huffman_encoding.cpp:239-258 | one call reads exactly the path of the next character |
| Huffman.DecodeEncoded | huffman_encoding.cpp:306-312 | decoding every bit of an encoded text gives the text back |
| Huffman.SingleCharacterLost | huffman_encoding.cpp:205-206 | with one distinct character the code is empty, and so is the decoded text |
| Huffman.MainDecodePrefix | huffman_encoding.cpp:308-312 | `main`'s loop decodes a prefix of the text that full decoding gives |
| Huffman.MainDecodeDropsLastBit | huffman_encoding.cpp:310 | "ab" over a two-leaf tree decodes to "a" in `main`'s loop but to "ab" when every bit is read |
| Huffman.BitAt | huffman_encoding.h:27-32 | each bit is 0 or 1 |
| Huffman.BitOfByte | huffman_encoding.h:28-31 | bit `j` of byte `k` is the byte shifted right by `7 - j` |
| Huffman.ByteFromBits | huffman_encoding.h:27-32 | a byte is its eight MSB-first bits weighed by powers of two |
| Huffman.BitReader.constructor | huffman_encoding.h:20-21 | the reader starts at bit 0 with the given data and bit count |
| Huffman.BitReader.HasBits | huffman_encoding.h:23-25 | bits remain while the position is below `total_bits` |
| Huffman.BitReader.ReadBit | huffman_encoding.h:27-32 | the bit at the position, most significant first, and 0 in the byte just past the data, where `std::string` holds its terminating NUL; the position moves by one |
| Huffman.Unpack | huffman_encoding.h:136-142 | the unpacked bits are `total_bits` characters, '0' exactly where the packed bit is 0 |
| Huffman.BitPackedRoundTrip | huffman_encoding.h:136-162 | packing the encoded text and decoding the packed bits gives the text |
| Huffman.BinaryDecodeAgrees | huffman_encoding.h:152-162 | only whether a bit is '0' matters to the decoder |
| Sweep.Range | src/profiling/optimizer_utils.py:155 | `range(lo, hi)` holds exactly the integers `lo <= x < hi`, in ascending order, `hi - lo` of them (none when `hi <= lo`) |
| Sweep.MinFoldSnoc | src/profiling/optimizer_utils.py:191-196 | one more result updates the running minimum only when strictly smaller |
| Sweep.MaxFoldSnoc | src/profiling/optimizer_utils.py:197-202 | one more result updates the running maximum only when strictly larger |
| Sweep.MinFoldFirstMin | src/profiling/optimizer_utils.py:182-196 | after at least one result, the winner is the first result with the least key |
| Sweep.MaxFoldFirstMax | src/profiling/optimizer_utils.py:184-202 | after at least one result, the winner is the first result with the greatest key |
| Sweep.ZstdGridMember | src/profiling/optimizer_utils.py:188-189 | every Zstandard point carries a level from the range |
| Sweep.GzipGridMember | src/profiling/optimizer_utils.py:308-309 | every gzip point carries a level from the range |
| Sweep.Lz4GridLength | src/profiling/optimizer_utils.py:250-251 | the LZ4 search visits levels times block sizes points |
| Sweep.Lz4GridAt | src/profiling/optimizer_utils.py:250-251 | level `i` with block size `k` is visited at step `i * |blockSizes| + k` |
| Sweep.Lz4GridEmpty | src/profiling/optimizer_utils.py:250-251 | no point is visited exactly when a range is empty |
| Sweep.Lz4GridMember | src/profiling/optimizer_utils.py:250-251 | every LZ4 point carries a level and a block size from their ranges |
| Sweep.BrotliPlaneLength | src/profiling/optimizer_utils.py:372-373 | one quality visits modes times lgwins points |
| Sweep.BrotliPlaneAt | src/profiling/optimizer_utils.py:372-373 | mode `j` with lgwin `k` is visited at `j * |lgwins| + k` within a quality |
| Sweep.BrotliGridLength | src/profiling/optimizer_utils.py:371-373 | the Brotli search visits qualities times modes times lgwins points |
| Sweep.BrotliGridAt | src/profiling/optimizer_utils.py:371-373 | quality `i`, mode `j` and lgwin `k` are visited at `(i * |modes| + j) * |lgwins| + k` |
| Sweep.BrotliGridEmpty | src/profiling/optimizer_utils.py:371-373 | no point is visited exactly when a range is empty |
| Sweep.BrotliGridMember | src/profiling/optimizer_utils.py:371-373 | every Brotli point carries a quality, a mode and an lgwin from their ranges |
| Sweep.ZstdGridCovers | src/profiling/optimizer_utils.py:188-189 | every level of the range is visited |
| Sweep.GzipGridCovers | src/profiling/optimizer_utils.py:308-309 | every level of the range is visited |
| Sweep.Lz4GridCovers | src/profiling/optimizer_utils.py:250-251 | every pair of a level and a block size from the ranges is visited |
| Sweep.BrotliGridCovers | src/profiling/optimizer_utils.py:371-373 | every triple of a quality, a mode and an lgwin from the ranges is visited |
| Sweep.ZstdDefaultGrid | src/profiling/optimizer_utils.py:155 | the default `range(1, 23)` gives 22 points, exactly levels 1 to 22 |
| Sweep.GzipDefaultGrid | src/profiling/optimizer_utils.py:277 | the default `range(1, 10)` gives 9 points, exactly levels 1 to 9 (also optimizer_utils.py:142) |
| Sweep.Lz4DefaultGrid | src/profiling/optimizer_utils.py:217-218 | the defaults `range(-5, 17)` and `range(0, 8)` give 176 points, exactly levels -5 to 16 with block sizes 0 to 7 (also optimizer_utils.py:89-90) |
| Sweep.BrotliDefaultGrid | src/profiling/optimizer_utils.py:334-336 | the defaults `range(0, 12)`, `range(0, 3)` and `range(10, 25)` give 540 points, exactly qualities 0 to 11, modes 0 to 2 and lgwins 10 to 24 (also optimizer_utils.py:187-189) |
| ProfilingOptimizer.Profile | src/profiling/optimizer_utils.py:85-151 | an unknown algorithm raises `ValueError`; otherwise the result records the call's parameters, the measured time, and the peak memory in megabytes |
| ProfilingOptimizer.Winners4Best | src/profiling/optimizer_utils.py:174-202 | each of the four objectives' winners is the first visited result that is best for it, and carries its iteration's parameters |
| ProfilingOptimizer.Winners3Best | src/profiling/optimizer_utils.py:238-262 | the same for the three objectives of the LZ4 and gzip searches |
| ProfilingOptimizer.Outcome4Shape | src/profiling/optimizer_utils.py:174-179 | over no point every entry stays `None`; a returned dictionary has exactly the four keys |
| ProfilingOptimizer.Outcome3Shape | src/profiling/optimizer_utils.py:238-242 | over no point every entry stays `None`; never an `optimizedCompressionRatio` key |
| ProfilingOptimizer.Consider4 | src/profiling/optimizer_utils.py:191-202 | one iteration's comparisons keep the loop state equal to the folds over the results so far |
| ProfilingOptimizer.Consider3 | src/profiling/optimizer_utils.py:254-262 | the same for three objectives |
| ProfilingOptimizer.ZstdGridSearch | src/profiling/optimizer_utils.py:153-211 | returns the four-objective winners over the level grid, or the `ValueError` of the first `profile` |
| ProfilingOptimizer.Lz4GridSearch | src/profiling/optimizer_utils.py:215-272 | returns the three-objective winners over the level-by-block-size grid, or the error |
| ProfilingOptimizer.GzipGridSearch | src/profiling/optimizer_utils.py:275-329 | returns the three-objective winners over the level grid, or the error |
| ProfilingOptimizer.BrotliGridSearch | src/profiling/optimizer_utils.py:332-396 | returns the four-objective winners over the quality-mode-lgwin grid, or the error |
| Optimizer.Profile | optimizer_utils.py:40-85 | Brotli, gzip and LZ4 only, otherwise the unbound `result` error; records the parameters but no level; reports the current, not peak, memory |
| Optimizer.WinnersBest | optimizer_utils.py:119-127 | each objective's winner is the first visited result that is best for it |
| Optimizer.OutcomeShape | optimizer_utils.py:96-100 | over no point every entry stays `None`; a returned dictionary has exactly the three keys |
| Optimizer.Consider | optimizer_utils.py:119-127 | one iteration's comparisons keep the loop state equal to the folds over the results so far |
| Optimizer.Lz4GridSearch | optimizer_utils.py:87-137 | the three-objective winners, or, with `logFlag` set, the `NameError` of the log line after the first result |
| Optimizer.GzipGridSearch | optimizer_utils.py:140-182 | the same over the level grid |
| Optimizer.BrotliGridSearch | optimizer_utils.py:185-231 | the three-objective winners over the quality-mode-lgwin grid; its log line only prints |

## Left out

- Console and file output (`cout`, `print`, `print_heap`, `print_huffman_tree`, `print_frequency_map`, `print_table`, `print_optimal_results` and its table helpers, `__str__`): printing, not computation. In `GzipMain` the output file is the returned byte sequence. Whether it could be created is a parameter.
- `readFile` (src/custom_impl/deflate.cpp:41-48) and the `debug`/`printFlag` switches: file input and logging only.
- `BitReader::position()` (src/custom_impl/bit_utils.h:73): the `bitPos` field itself.
- `free_huffman_tree`, `delete`, and allocation failure: memory management has no counterpart in Dafny.
- The compression libraries (`brotliProcessing`, `gzipProcessing`, `lz4Processing`, `zstdProcessing` of compression_utils.py), the clock, `tracemalloc` and `cProfile`: they become the `measure` parameter. Times and percentages are exact reals, so NaN and rounding are not modelled. `float('inf')` is the `PosInf`/`NegInf` bound.
- ProfilingOptimizer.Profile, ProfilingOptimizer.ZstdGridSearch, ProfilingOptimizer.Lz4GridSearch, ProfilingOptimizer.GzipGridSearch and ProfilingOptimizer.BrotliGridSearch: `measure` is a total function, so a run is assumed never to raise. The compression wrappers of compression_utils.py raise `AssertionError` when the round trip fails (lines 84, 136, 190, 263, 315) and `ZeroDivisionError` on an empty text (lines 80, 131, 186, 258, 311). Either error would end the search. The only errors the model propagates are the unsupported-algorithm `ValueError` and, in `Optimizer`, the unbound `result` and the log lines' `NameError`.
- Optimizer.Profile, Optimizer.Lz4GridSearch, Optimizer.GzipGridSearch and Optimizer.BrotliGridSearch: the same; the wrappers' `AssertionError` and `ZeroDivisionError` are not modelled.
- The optimizer constructors (`__init__`): they only store the text, the algorithm name and the print flag. The algorithm name is the `algorithm` parameter, and the text is folded into `measure`.
- Deflate.DeflateCompress: requires `Lz77CompressContract(input, syms)` because `lz77_compress` is only declared. The contract is the one its documentation gives: references in range, and a stream that decodes to the input.
- Lz77Symbols tables, conversions and `lz77_decompress`: their implementation file is not among the sources. The model follows the header's documentation and RFC 1951 section 3.2.5.
- `lz77_decompress_encoded`, `Lz77Decompress` and `Lz77DecompressEncoded`: these carry no contract of their own. Their meaning is fixed by `ConvertPreservesDecompression` and the examples.
- Huffman.BuildTree: requires a non-empty frequency map, because `pq.top()` on an empty queue is undefined.
- Huffman.BuildTree: the design promise of shorter codes for more frequent characters (huffman_encoding.cpp:4) is not proved. Neither is the optimality of the code lengths. The model proves the tree's shape, its frequency sums and that its codes are prefix-free, but no relation between a character's frequency and the length of its code.
- Huffman.MinHeap.Top: among nodes of equal frequency it takes the first pushed. `std::priority_queue` leaves that order unspecified, so the tree shape for ties is one possibility of several.
- Huffman frequencies and sums are unbounded integers: the `int` overflow of very large counts is not modelled.
- Huffman.BitPackedRoundTrip: `get_encoded_bitpacked_text` and `get_bit_packed_decoded_text` are only declared (huffman_encoding.h:142, 162). Their documented contract is `PacksBits`, and decoding is modelled from it.
- `huffman_encoding_compress`/`huffman_encoding_decompress` (huffman_encoding.h:170, 178): declared only, with no documented behaviour beyond their names.
- The header declares `get_encoded_text` returning `HuffmanResult`; the .cpp version returns a string, which `EncodeText` models.
- Lz77Classic.DecodeTokens: requires a text without NUL. A NUL is lost (`NulIsDropped`).
- Lz77Classic.Codec.Compress: requires that the tokens fit after the current counter. Otherwise the source writes past its array (see Findings).
- Gzip.GzipMain: `gzip.cpp` (lines 5 and 114) calls the `deflate_compress` of the top-level `deflate.h`. That header only declares it, returning a `HuffmanResult`, and no source file defines it. The model replaces it with `Deflate.DeflateCompress` of `src/custom_impl/deflate.cpp`. The bytes `gzip.cpp` itself would write are not determined by the sources, so "the data inflates to the input" holds for the substituted compressor only.
- Undefined behaviour becomes explicit errors: a distance before the start of the text, distance codes 30/31, or length codes 286/287 (outside the 257..285 that `deflate_code_to_length` is documented for in src/custom_impl/lz77_compression.h:177-183) in `deflate_decompress`; a read past the string terminator in `get_decode_text`; a copy from outside the text in `decompress`.
- Huffman.BitReader.ReadBit: requires `bit_pos / 8 <= size()`. A read in the byte past the data gives the terminator's 0 bit, as `std::string` defines; a read beyond it is undefined behaviour and is excluded rather than modelled.
- The top-level optimizer's bugs are modelled as written, not fixed: the current instead of the peak memory, the `NameError` of the LZ4 and gzip log lines, and the unbound `result` for an unknown algorithm. The later `src/profiling/optimizer_utils.py` behaves as intended for each of them, and `ProfilingOptimizer` models that.

## Findings

| source | as written | input that shows it | evidently intended | confidence | as-written member | corrected member |
|---|---|---|---|---|---|---|
| lz77_compression.cpp:10-113 | the global `counter` is never reset, and `compress` writes `output[counter]` into a fresh array of `input.length()` tokens | two calls of `compress("ab")`: the second starts at counter 2 in an array of 2 | each call writes its tokens from index 0 | not executed | Lz77Classic.CompressTwice | Lz77Classic.Codec.CompressFromStart |
| huffman_encoding.cpp:310 | `main` decodes while `index < encoded_text.size() - 2`, so it stops with one bit unread | "ab" over the tree with leaves 'a' and 'b' is encoded as "01" and decodes to "a" | decode while `index < encoded_text.size() - 1` | not executed | Huffman.MainDecodeDropsLastBit | Huffman.DecodeEncoded |
