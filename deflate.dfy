/**
 * `deflate_compress` and `deflate_decompress` of the custom implementation:
 * a single final block with fixed Huffman codes (BFINAL = 1, BTYPE = 01,
 * sections 3.2.3 and 3.2.6 of RFC 1951).
 */
module Deflate {
  import opened Arith
  import opened Wrappers
  import opened FixedHuffman
  import opened BitIO
  import opened Lz77Symbols

  /** `DeflateResult`: the bytes, the number of bits written, and the input length. */
  datatype DeflateResult = DeflateResult(data: seq<bv8>, totalBits: nat, originalSize: nat)

  /** The bits of `write_bits(0b011, 3)`: BFINAL = 1, then BTYPE = 01 least significant bit first. */
  function Header(): (h: seq<bool>)
    ensures h == [true, true, false]
  {
    assert Pow2(1) == 2 && Pow2(2) == 4;
    LsbBits(3, 3)
  }

  /** The extra bits of a code, written only when there are any. */
  function ExtraBits(dc: DeflateCode): seq<bool>
  {
    if dc.extraBits > 0 then LsbBits(dc.extraVal, dc.extraBits) else []
  }

  /**
   * The bits `deflate_compress` writes for one symbol: a literal's fixed code;
   * for a back-reference the length code, its extra bits, the 5-bit distance
   * code and its extra bits, in that order; the code of 256 for end of block.
   */
  function SymbolBits(s: DeflateSymbol): seq<bool>
    requires InRange(s)
  {
    match s
    case Literal(b) => LitLenBits(b)
    case BackReference(l, d) =>
      var lc := LengthToDeflateCode(l);
      var dc := DistanceToDeflateCode(d);
      LitLenBits(lc.code) + (ExtraBits(lc) + (DistanceBits(dc.code) + ExtraBits(dc)))
    case EndOfBlock => LitLenBits(256)
  }

  /** The bits of a whole symbol stream. */
  function StreamBits(syms: seq<DeflateSymbol>): seq<bool>
    requires AllInRange(syms)
    decreases |syms|
  {
    if syms == [] then [] else SymbolBits(syms[0]) + StreamBits(syms[1..])
  }

  /** A literal takes 8 or 9 bits, end of block 7, and a back-reference the sum of its four fields. */
  lemma SymbolBitsLength(s: DeflateSymbol)
    requires InRange(s)
    ensures s.Literal? ==> 8 <= |SymbolBits(s)| <= 9
    ensures s.EndOfBlock? ==> |SymbolBits(s)| == 7
    ensures s.BackReference? ==>
      var lc := LengthToDeflateCode(s.length);
      var dc := DistanceToDeflateCode(s.distance);
      |SymbolBits(s)| == LitLenCode(lc.code).length + lc.extraBits + 5 + dc.extraBits
  {
  }

  /** Appending one symbol appends its bits. */
  lemma {:induction false} StreamBitsSnoc(syms: seq<DeflateSymbol>, i: nat)
    requires i < |syms| && AllInRange(syms)
    ensures StreamBits(syms[..i + 1]) == StreamBits(syms[..i]) + SymbolBits(syms[i])
    decreases i
  {
    if i > 0 {
      var tail := syms[1..];
      assert syms[..i + 1][1..] == tail[..i];
      assert syms[..i][1..] == tail[..i - 1];
      assert tail[i - 1] == syms[i];
      StreamBitsSnoc(tail, i - 1);
      ConcatAssoc(SymbolBits(syms[0]), StreamBits(tail[..i - 1]), SymbolBits(syms[i]));
    }
  }

  /** Lines 71-74 and 77-80 of `deflate_compress`: a code of a table, then its extra bits if any. */
  method WriteField(writer: BitWriter, fc: FixedCode, dc: DeflateCode)
    requires writer.Valid()
    requires fc.code < 0x1_0000 && fc.length < 32 && dc.extraBits < 32 && dc.extraVal < Pow2(dc.extraBits)
    modifies writer
    ensures writer.Valid()
    ensures writer.Bits() == old(writer.Bits()) + MsbBits(fc.code, fc.length) + ExtraBits(dc)
  {
    Pow2Widths();
    writer.WriteCodeReversed(fc.code, fc.length);
    if dc.extraBits > 0 {
      Pow2Monotone(dc.extraBits, 32);
      writer.WriteBits(dc.extraVal, dc.extraBits);
    }
  }

  /** The back-reference branch of the symbol loop of `deflate_compress`. */
  method WriteBackReference(writer: BitWriter, length: nat, distance: nat)
    requires writer.Valid()
    requires 3 <= length <= 258 && 1 <= distance <= 32768
    modifies writer
    ensures writer.Valid()
    ensures writer.Bits() == old(writer.Bits()) + SymbolBits(BackReference(length, distance))
  {
    ghost var before := writer.Bits();
    var len := LengthToDeflateCode(length);
    LengthCodeRoundTrip(length);
    var fc := LitLenCode(len.code);
    WriteField(writer, fc, len);
    var dist := DistanceToDeflateCode(distance);
    DistanceCodeRoundTrip(distance);
    var fcd := DistanceCode(dist.code);
    WriteField(writer, fcd, dist);
    ghost var a, b, c, d := MsbBits(fc.code, fc.length), ExtraBits(len), MsbBits(fcd.code, fcd.length), ExtraBits(dist);
    ConcatAssoc(before + a + b, c, d);
    ConcatAssoc(before + a, b, c + d);
    ConcatAssoc(before, a, b + (c + d));
  }

  /** The body of the symbol loop of `deflate_compress`: one symbol's codes and extra bits. */
  method WriteSymbol(writer: BitWriter, sym: DeflateSymbol)
    requires writer.Valid() && InRange(sym)
    modifies writer
    ensures writer.Valid()
    ensures writer.Bits() == old(writer.Bits()) + SymbolBits(sym)
  {
    Pow2Widths();
    match sym {
    case Literal(b) =>
      var fc := LitLenCode(b);
      writer.WriteCodeReversed(fc.code, fc.length);
    case BackReference(l, d) =>
      WriteBackReference(writer, l, d);
    case EndOfBlock =>
      var fc := LitLenCode(256);
      writer.WriteCodeReversed(fc.code, fc.length);
    }
  }

  /** Appending the next symbol's bits to the bits of a prefix gives the bits of the longer prefix. */
  lemma StreamStep(syms: seq<DeflateSymbol>, i: nat, start: seq<bool>, after: seq<bool>)
    requires AllInRange(syms) && i < |syms|
    requires after == start + StreamBits(syms[..i]) + SymbolBits(syms[i])
    ensures after == start + StreamBits(syms[..i + 1])
  {
    StreamBitsSnoc(syms, i);
  }

  /** One turn of the symbol loop of `deflate_compress`: the stream written so far grows by one symbol. */
  method WriteNextSymbol(writer: BitWriter, syms: seq<DeflateSymbol>, i: nat, ghost start: seq<bool>)
    requires writer.Valid() && AllInRange(syms) && i < |syms|
    requires writer.Bits() == start + StreamBits(syms[..i])
    modifies writer
    ensures writer.Valid()
    ensures writer.Bits() == start + StreamBits(syms[..i + 1])
  {
    ghost var written := StreamBits(syms[..i]);
    ghost var sb := SymbolBits(syms[i]);
    WriteSymbol(writer, syms[i]);
    assert writer.Bits() == start + written + sb;
    StreamStep(syms, i, start, writer.Bits());
  }

  /** The symbol loop of `deflate_compress`. */
  method WriteStream(writer: BitWriter, syms: seq<DeflateSymbol>)
    requires writer.Valid() && AllInRange(syms)
    modifies writer
    ensures writer.Valid()
    ensures writer.Bits() == old(writer.Bits()) + StreamBits(syms)
  {
    ghost var start := writer.Bits();
    var i := 0;
    while i < |syms|
      invariant 0 <= i <= |syms|
      invariant writer.Valid()
      invariant writer.Bits() == start + StreamBits(syms[..i])
    {
      WriteNextSymbol(writer, syms, i, start);
      i := i + 1;
    }
    assert syms[..|syms|] == syms;
  }

  /**
   * `deflate_compress`. The stream `syms` stands for what the declared-only
   * `lz77_compress(input)` returns, so the requirement is its contract.
   */
  method DeflateCompress(input: seq<byte>, syms: seq<DeflateSymbol>) returns (r: DeflateResult)
    requires Lz77CompressContract(input, syms)
    ensures Packs(r.data, Header() + StreamBits(syms))
    ensures r.totalBits == |Header() + StreamBits(syms)|
    ensures r.originalSize == |input|
  {
    var writer := new BitWriter();
    assert 3 < Pow2(32) by { Pow2Widths(); }
    writer.WriteBits(3, 3);
    assert writer.Bits() == Header();
    WriteStream(writer, syms);
    return DeflateResult(writer.data, writer.bitPos, |input|);
  }

  /** Where the source has no defined behaviour, the decoder model stops with one of these. */
  datatype InflateError =
    | InvalidLengthCode(lengthCode: int)
    | InvalidDistanceCode(distanceCode: nat)
    | DistanceTooFar(distance: nat, available: nat)

  /** The index the table scan of `deflate_decompress` stops at: the first entry with this code and extra bits. */
  function FindExtra(t: seq<TableEntry>, code: int, from: nat): (r: Option<nat>)
    requires from <= |t|
    ensures r.Some? ==> from <= r.value < |t| && t[r.value].code == code && t[r.value].extraBits > 0
    ensures r.Some? ==> forall k :: from <= k < r.value ==> !(t[k].code == code && t[k].extraBits > 0)
    ensures r.None? ==> forall k :: from <= k < |t| ==> !(t[k].code == code && t[k].extraBits > 0)
    decreases |t| - from
  {
    if from == |t| then None
    else if t[from].code == code && t[from].extraBits > 0 then Some(from)
    else FindExtra(t, code, from + 1)
  }

  /** The scan of the length table for a valid code finds that code's own entry exactly when it has extra bits. */
  lemma FindExtraInLengthTable(lcode: nat)
    requires 257 <= lcode <= 285
    ensures FindExtra(LengthTable, lcode, 0) == (if LengthTable[lcode - 257].extraBits > 0 then Some(lcode - 257) else None)
  {
    var r := FindExtra(LengthTable, lcode, 0);
    LengthEntry(lcode - 257);
    if r.Some? {
      LengthEntry(r.value);
    }
  }

  /** The scan of the distance table for a valid code finds that code's own entry exactly when it has extra bits. */
  lemma FindExtraInDistanceTable(dcode: nat)
    requires dcode <= 29
    ensures FindExtra(DistanceTable, dcode, 0) == (if DistanceTable[dcode].extraBits > 0 then Some(dcode) else None)
  {
    var r := FindExtra(DistanceTable, dcode, 0);
    DistanceEntry(dcode);
    if r.Some? {
      DistanceEntry(r.value);
    }
  }

  /**
   * The value of a length or distance field as the table scan of
   * `deflate_decompress` computes it: `initial` (the code's base, from
   * `deflate_code_to_length(sym, 0)` or `deflate_code_to_distance(code, 0)`)
   * unless the scan finds the code's entry with extra bits, in which case
   * that entry's base plus the extra bits read at `p`; and the position after
   * the field.
   */
  function TableField(data: seq<bv8>, p: nat, t: seq<TableEntry>, code: int, initial: nat): (r: (nat, nat))
    ensures p <= r.1
  {
    match FindExtra(t, code, 0)
    case None => (initial, p)
    case Some(i) => (t[i].base + LsbValue(BitsFrom(data, p, t[i].extraBits)), p + t[i].extraBits)
  }

  /**
   * The same field once it is known which entry `e` the code has: its base
   * plus the value of its extra bits (none when it has none, so then the base).
   */
  function EntryField(data: seq<bv8>, p: nat, e: TableEntry): (r: (nat, nat))
    ensures p <= r.1
  {
    (e.base + LsbValue(BitsFrom(data, p, e.extraBits)), p + e.extraBits)
  }

  /**
   * When the scan settles on entry `i` exactly if it has extra bits, and
   * `initial` is that entry's base, the scanned field is that entry's field.
   */
  lemma ScanSettlesOnEntry(data: seq<bv8>, p: nat, t: seq<TableEntry>, code: int, i: nat, initial: nat)
    requires i < |t| && FindExtra(t, code, 0) == (if t[i].extraBits > 0 then Some(i) else None)
    requires initial == t[i].base
    ensures TableField(data, p, t, code, initial) == EntryField(data, p, t[i])
  {
    if t[i].extraBits == 0 {
      assert BitsFrom(data, p, 0) == [];
    }
  }

  /**
   * One back-reference after its length code `sym` was read at `p`: the
   * length's extra bits, the 5-bit distance code and its extra bits, then
   * the copy; the new text and the position after the fields. For a code in
   * the table the scan settles on the code's own entry (`FindExtraInLengthTable`, `FindExtraInDistanceTable`),
   * so the fields are read through that entry.
   */
  function BackReferenceStep(data: seq<bv8>, p: nat, sym: nat, out: seq<byte>): (r: Result<(seq<byte>, nat), InflateError>)
    requires 257 <= sym
    ensures r.Ok? ==> p <= r.value.1
  {
    if sym > 285 then Err(InvalidLengthCode(sym))
    else
      var (length, p2) := EntryField(data, p, LengthTable[sym - 257]);
      MsbReadBound(data, p2, 5);
      var (dcode, p3) := MsbRead(data, p2, 5);
      if dcode > 29 then Err(InvalidDistanceCode(dcode))
      else
        DistanceEntry(dcode);
        var (distance, p4) := EntryField(data, p3, DistanceTable[dcode]);
        assert distance >= 1;
        if distance > |out| then Err(DistanceTooFar(distance, |out|))
        else Ok((CopyBack(out, distance, length), p4))
  }

  /**
   * The decoding loop of `deflate_decompress` from bit `p` with `out` decoded
   * so far: it runs while `has_bits` holds, stops at end of block, appends
   * literals, and copies back-references byte by byte.
   */
  function InflateFrom(data: seq<bv8>, p: nat, out: seq<byte>): (r: Result<seq<byte>, InflateError>)
    decreases if p < 8 * |data| then 8 * |data| - p else 0
  {
    if p / 8 >= |data| then Ok(out)
    else
      DecodeLitLenTotal(data, p);
      var (sym, p1) := DecodeLitLen(data, p);
      if sym < 0 then Ok(out)
      else if sym < 256 then InflateFrom(data, p1, out + [sym])
      else if sym == 256 then Ok(out)
      else match BackReferenceStep(data, p1, sym, out)
        case Err(e) => Err(e)
        case Ok((next, p4)) => InflateFrom(data, p4, next)
  }

  /** `deflate_decompress`: the 2-bit BTYPE must be 1, otherwise the result is empty. */
  function Inflate(data: seq<bv8>): (r: Result<seq<byte>, InflateError>)
  {
    if LsbValue(BitsFrom(data, 1, 2)) != 1 then Ok([]) else InflateFrom(data, 3, [])
  }

  /** The table scan of `deflate_decompress`, a loop that stops at the first entry found. */
  method ScanTable(t: seq<TableEntry>, code: int) returns (found: Option<nat>)
    ensures found == FindExtra(t, code, 0)
  {
    var i := 0;
    while i < |t|
      invariant 0 <= i <= |t|
      invariant FindExtra(t, code, i) == FindExtra(t, code, 0)
    {
      if t[i].code == code && t[i].extraBits > 0 {
        return Some(i);
      }
      i := i + 1;
    }
    return None;
  }

  /**
   * The table scan of lines 114-120 (lengths) and 123-129 (distances) of
   * `deflate_decompress`, with the extra bits read when the entry has any.
   */
  method ReadField(reader: BitReader, t: seq<TableEntry>, code: int, initial: nat) returns (v: nat)
    requires forall k :: 0 <= k < |t| ==> t[k].extraBits < 32
    modifies reader
    ensures (v, reader.bitPos) == TableField(reader.data, old(reader.bitPos), t, code, initial)
  {
    v := initial;
    var i := ScanTable(t, code);
    if i.Some? {
      var extra := reader.ReadBits(t[i.value].extraBits);
      v := t[i.value].base + extra;
    }
  }

  /** One more step of the byte-by-byte copy appends the byte `distance` back from the current end. */
  lemma CopyBackSnoc(out: seq<byte>, distance: nat, k: nat)
    requires 1 <= distance <= |out|
    ensures CopyBack(out, distance, k + 1)
         == CopyBack(out, distance, k) + [CopyBack(out, distance, k)[|out| + k - distance]]
  {
    var a := CopyBack(out, distance, k + 1);
    var b := CopyBack(out, distance, k);
    forall i | 0 <= i < |out| + k
      ensures a[i] == b[i]
    {
      CopyBackAgrees(out, distance, k, i);
    }
    CopyBackAgrees(out, distance, k, |out| + k - distance);
    assert a == b + [b[|out| + k - distance]];
  }

  /** Copying one byte more does not change the bytes copied before. */
  lemma {:induction false} CopyBackAgrees(out: seq<byte>, distance: nat, k: nat, i: nat)
    requires 1 <= distance <= |out| && i < |out| + k
    ensures CopyBack(out, distance, k + 1)[i] == CopyBack(out, distance, k)[i]
    decreases i
  {
    var a := CopyBack(out, distance, k + 1);
    var b := CopyBack(out, distance, k);
    if i < |out| {
      assert a[..|out|][i] == b[..|out|][i];
    } else {
      CopyBackAgrees(out, distance, k, i - distance);
    }
  }

  /** The copy loop `for (i = 0; i < length; i++) output += output[start + i]`. */
  method CopyBytes(output: seq<byte>, distance: nat, length: nat) returns (r: seq<byte>)
    requires 1 <= distance <= |output|
    ensures r == CopyBack(output, distance, length)
  {
    var start := |output| - distance;
    r := output;
    var i := 0;
    while i < length
      invariant 0 <= i <= length
      invariant r == CopyBack(output, distance, i)
    {
      CopyBackSnoc(output, distance, i);
      r := r + [r[start + i]];
      i := i + 1;
    }
  }

  /** Lines 113-132 of `deflate_decompress`: one back-reference, read and copied. */
  method InflateBackReference(reader: BitReader, sym: nat, output: seq<byte>) returns (r: Result<seq<byte>, InflateError>)
    requires 257 <= sym
    modifies reader
    ensures BackReferenceStep(reader.data, old(reader.bitPos), sym, output).Ok? <==> r.Ok?
    ensures r.Ok? ==> (r.value, reader.bitPos) == BackReferenceStep(reader.data, old(reader.bitPos), sym, output).value
    ensures r.Err? ==> r.error == BackReferenceStep(reader.data, old(reader.bitPos), sym, output).error
  {
    if sym > 285 {
      return Err(InvalidLengthCode(sym));
    }
    ghost var data, p := reader.data, reader.bitPos;
    TablesBounded();
    FindExtraInLengthTable(sym);
    ScanSettlesOnEntry(data, p, LengthTable, sym, sym - 257, DeflateCodeToLength(sym, 0).value);
    var length := ReadField(reader, LengthTable, sym, DeflateCodeToLength(sym, 0).value);
    ghost var p2 := reader.bitPos;
    MsbReadBound(data, p2, 5);
    var distCode := reader.ReadFixedDistanceCode();
    ghost var p3 := reader.bitPos;
    if distCode > 29 {
      BackReferenceStepBadCode(data, p, sym, output, length, p2, distCode, p3);
      return Err(InvalidDistanceCode(distCode));
    }
    DistanceEntry(distCode);
    FindExtraInDistanceTable(distCode);
    var initial := DeflateCodeToDistance(distCode, 0).value;
    ScanSettlesOnEntry(data, p3, DistanceTable, distCode, distCode, initial);
    var distance := ReadField(reader, DistanceTable, distCode, initial);
    BackReferenceStepUnfolds(data, p, sym, output, length, p2, distCode, p3, distance, reader.bitPos);
    if distance > |output| {
      return Err(DistanceTooFar(distance, |output|));
    }
    var copied := CopyBytes(output, distance, length);
    return Ok(copied);
  }

  /** `deflate_decompress`. */
  method DeflateDecompress(data: seq<bv8>) returns (r: Result<seq<byte>, InflateError>)
    ensures r == Inflate(data)
  {
    var reader := new BitReader(data);
    var output: seq<byte> := [];
    var bfinal := reader.ReadBits(1);
    var btype := reader.ReadBits(2);
    if btype != 1 {
      return Ok([]);
    }
    while reader.HasBits()
      invariant reader.data == data
      invariant InflateFrom(data, reader.bitPos, output) == Inflate(data)
      decreases 8 * |data| - reader.bitPos
    {
      DecodeLitLenTotal(data, reader.bitPos);
      var sym := reader.ReadFixedLitLenCode();
      if sym < 0 {
        break;
      }
      if sym < 256 {
        output := output + [sym];
      } else if sym == 256 {
        break;
      } else {
        var step := InflateBackReference(reader, sym, output);
        if step.Err? {
          return Err(step.error);
        }
        output := step.value;
      }
    }
    return Ok(output);
  }

  /** A slice from `p` to `e` that equals `a + b` splits at `m` into a slice equal to `a` and one equal to `b`. */
  lemma SplitSlice<T>(s: seq<T>, p: nat, m: nat, e: nat, a: seq<T>, b: seq<T>)
    requires m == p + |a| && e == m + |b| && e <= |s| && s[p..e] == a + b
    ensures s[p..m] == a && s[m..e] == b
  {
    assert s[p..m] == s[p..e][..|a|];
    assert s[m..e] == s[p..e][|a|..];
  }

  /** A suffix from `p` that equals `a + b` splits at `m` into a slice equal to `a` and a suffix equal to `b`. */
  lemma SplitSuffix<T>(s: seq<T>, p: nat, m: nat, a: seq<T>, b: seq<T>)
    requires p <= |s| && s[p..] == a + b && m == p + |a|
    ensures m <= |s| && s[p..m] == a && s[m..] == b
  {
    assert s[p..m] == s[p..][..|a|];
    assert s[m..] == s[p..][|a|..];
  }

  /** Extra bits written for `dc` into a packed buffer are read back as `dc`'s extra value. */
  lemma ExtraBitsRead(data: seq<bv8>, bits: seq<bool>, p: nat, dc: DeflateCode, e: nat)
    requires Packs(data, bits) && dc.extraVal < Pow2(dc.extraBits)
    requires e == p + dc.extraBits && e <= |bits| && bits[p..e] == ExtraBits(dc)
    ensures LsbValue(BitsFrom(data, p, dc.extraBits)) == dc.extraVal
  {
    if dc.extraBits > 0 {
      PackedBitsFrom(data, bits, p, dc.extraBits);
      assert BitsFrom(data, p, dc.extraBits) == LsbBits(dc.extraVal, dc.extraBits);
      LsbValueOfBits(dc.extraVal, dc.extraBits);
      ModPow2Small(dc.extraVal, dc.extraBits);
    } else {
      assert BitsFrom(data, p, 0) == [];
    }
  }

  /** The field of entry `e` whose extra bits hold `v` is the entry's base plus `v`. */
  lemma EntryFieldValue(data: seq<bv8>, p: nat, e: TableEntry, v: nat)
    requires LsbValue(BitsFrom(data, p, e.extraBits)) == v
    ensures EntryField(data, p, e) == (e.base + v, p + e.extraBits)
  {
  }

  /** A length field whose extra bits hold `lc`'s extra value is read back as the length `lc` stands for. */
  lemma LengthFieldDecodes(data: seq<bv8>, p: nat, lc: DeflateCode, q: nat)
    requires 257 <= lc.code <= 285 && lc.extraBits == LengthTable[lc.code - 257].extraBits
    requires LsbValue(BitsFrom(data, p, lc.extraBits)) == lc.extraVal && q == p + lc.extraBits
    ensures EntryField(data, p, LengthTable[lc.code - 257]) == (DeflateCodeToLength(lc.code, lc.extraVal).value, q)
  {
    EntryFieldValue(data, p, LengthTable[lc.code - 257], lc.extraVal);
  }

  /** A distance field whose extra bits hold `dc`'s extra value is read back as the distance `dc` stands for. */
  lemma DistanceFieldDecodes(data: seq<bv8>, p: nat, dc: DeflateCode, q: nat)
    requires dc.code <= 29 && dc.extraBits == DistanceTable[dc.code].extraBits
    requires LsbValue(BitsFrom(data, p, dc.extraBits)) == dc.extraVal && q == p + dc.extraBits
    ensures EntryField(data, p, DistanceTable[dc.code]) == (DeflateCodeToDistance(dc.code, dc.extraVal).value, q)
  {
    EntryFieldValue(data, p, DistanceTable[dc.code], dc.extraVal);
  }

  /**
   * The fields after the length code of a back-reference as `deflate_compress`
   * writes them, read back from the packed buffer: the length's extra value,
   * the distance code, and the distance's extra value.
   */
  lemma BackReferenceFieldsRead(data: seq<bv8>, bits: seq<bool>, p: nat, lc: DeflateCode, dc: DeflateCode, p2: nat, p3: nat, p4: nat)
    requires Packs(data, bits) && dc.code < 32
    requires lc.extraVal < Pow2(lc.extraBits) && dc.extraVal < Pow2(dc.extraBits)
    requires p2 == p + lc.extraBits && p3 == p2 + 5 && p4 == p3 + dc.extraBits && p4 <= |bits|
    requires bits[p..p4] == ExtraBits(lc) + (DistanceBits(dc.code) + ExtraBits(dc))
    ensures LsbValue(BitsFrom(data, p, lc.extraBits)) == lc.extraVal
    ensures MsbRead(data, p2, 5) == (dc.code, p3)
    ensures LsbValue(BitsFrom(data, p3, dc.extraBits)) == dc.extraVal
  {
    var a, b, c := ExtraBits(lc), DistanceBits(dc.code), ExtraBits(dc);
    assert |a| == lc.extraBits && |b| == 5 && |c| == dc.extraBits;
    SplitSlice(bits, p, p2, p4, a, b + c);
    SplitSlice(bits, p2, p3, p4, b, c);
    ExtraBitsRead(data, bits, p, lc, p2);
    PackedBitsFrom(data, bits, p2, 5);
    DecodeDistanceInverts(data, p2, dc.code);
    ExtraBitsRead(data, bits, p3, dc, p4);
  }

  /**
   * The decoder's reading of a back-reference whose fields hold the codes
   * `lc` and `dc`: it reads back the length and distance they stand for, then
   * copies, or stops when the distance reaches before the start of the text.
   */
  lemma BackReferenceDecodes(data: seq<bv8>, p: nat, lc: DeflateCode, dc: DeflateCode, out: seq<byte>,
                             p2: nat, p3: nat, p4: nat, length: nat, distance: nat)
    requires 257 <= lc.code <= 285 && lc.extraBits == LengthTable[lc.code - 257].extraBits
    requires dc.code <= 29 && dc.extraBits == DistanceTable[dc.code].extraBits
    requires DeflateCodeToLength(lc.code, lc.extraVal) == Some(length)
    requires DeflateCodeToDistance(dc.code, dc.extraVal) == Some(distance)
    requires p2 == p + lc.extraBits && p3 == p2 + 5 && p4 == p3 + dc.extraBits
    requires LsbValue(BitsFrom(data, p, lc.extraBits)) == lc.extraVal
    requires MsbRead(data, p2, 5) == (dc.code, p3)
    requires LsbValue(BitsFrom(data, p3, dc.extraBits)) == dc.extraVal
    ensures distance >= 1
    ensures BackReferenceStep(data, p, lc.code, out)
      == if distance <= |out| then Ok((CopyBack(out, distance, length), p4)) else Err(DistanceTooFar(distance, |out|))
  {
    DistanceEntry(dc.code);
    LengthFieldDecodes(data, p, lc, p2);
    DistanceFieldDecodes(data, p3, dc, p4);
    BackReferenceStepUnfolds(data, p, lc.code, out, length, p2, dc.code, p3, distance, p4);
  }

  /** `BackReferenceStep` once the length and a distance code past the table are known. */
  lemma BackReferenceStepBadCode(data: seq<bv8>, p: nat, sym: nat, out: seq<byte>, length: nat, p2: nat, dcode: nat, p3: nat)
    requires 257 <= sym <= 285
    requires EntryField(data, p, LengthTable[sym - 257]) == (length, p2)
    requires MsbRead(data, p2, 5) == (dcode, p3) && dcode > 29
    ensures BackReferenceStep(data, p, sym, out) == Err(InvalidDistanceCode(dcode))
  {
  }

  /** `BackReferenceStep` once its three fields are known. */
  lemma BackReferenceStepUnfolds(data: seq<bv8>, p: nat, sym: nat, out: seq<byte>,
                                 length: nat, p2: nat, dcode: nat, p3: nat, distance: nat, p4: nat)
    requires 257 <= sym <= 285
    requires EntryField(data, p, LengthTable[sym - 257]) == (length, p2)
    requires MsbRead(data, p2, 5) == (dcode, p3) && dcode <= 29
    requires EntryField(data, p3, DistanceTable[dcode]) == (distance, p4)
    requires 1 <= distance
    ensures BackReferenceStep(data, p, sym, out)
      == if distance <= |out| then Ok((CopyBack(out, distance, length), p4)) else Err(DistanceTooFar(distance, |out|))
  {
  }

  /** A literal/length code written from bit `p` of a packed buffer is decoded from there. */
  lemma LitLenCodeRead(data: seq<bv8>, bits: seq<bool>, p: nat, sym: nat, q: nat)
    requires Packs(data, bits) && sym <= 287
    requires q == p + |LitLenBits(sym)| && q <= |bits| && bits[p..q] == LitLenBits(sym)
    ensures p < 8 * |data| && DecodeLitLen(data, p) == (sym, q)
  {
    PackedBitsFrom(data, bits, p, |LitLenBits(sym)|);
    DecodeLitLenInverts(data, p, sym);
  }

  /** Decoding a literal's code from bit `p` appends the literal and moves on to the next code. */
  lemma LiteralInflates(data: seq<bv8>, bits: seq<bool>, p: nat, b: byte, out: seq<byte>, q: nat)
    requires Packs(data, bits)
    requires q == p + |LitLenBits(b)| && q <= |bits| && bits[p..q] == LitLenBits(b)
    ensures InflateFrom(data, p, out) == InflateFrom(data, q, out + [b])
  {
    PackedBitsFrom(data, bits, p, |LitLenBits(b)|);
    DecodeLitLenInverts(data, p, b);
  }

  /** Decoding the end-of-block code from bit `p` ends decoding. */
  lemma EndOfBlockInflates(data: seq<bv8>, bits: seq<bool>, p: nat, out: seq<byte>)
    requires Packs(data, bits)
    requires p + |LitLenBits(256)| <= |bits| && bits[p..p + |LitLenBits(256)|] == LitLenBits(256)
    ensures InflateFrom(data, p, out) == Ok(out)
  {
    PackedBitsFrom(data, bits, p, |LitLenBits(256)|);
    DecodeLitLenInverts(data, p, 256);
  }

  /**
   * Reading a back-reference's bits from bit `p`: its length code, then the
   * step that copies `length` bytes from `distance` back, or stops when the
   * distance reaches before the start of the text.
   */
  lemma BackReferenceRead(data: seq<bv8>, bits: seq<bool>, p: nat, length: nat, distance: nat, out: seq<byte>, q: nat)
    returns (p1: nat)
    requires Packs(data, bits) && InRange(BackReference(length, distance))
    requires var sb := SymbolBits(BackReference(length, distance));
      q == p + |sb| && q <= |bits| && bits[p..q] == sb
    ensures 257 <= LengthToDeflateCode(length).code
    ensures p < 8 * |data| && DecodeLitLen(data, p) == (LengthToDeflateCode(length).code, p1)
    ensures BackReferenceStep(data, p1, LengthToDeflateCode(length).code, out)
      == if distance <= |out| then Ok((CopyBack(out, distance, length), q)) else Err(DistanceTooFar(distance, |out|))
  {
    var lc := LengthToDeflateCode(length);
    var dc := DistanceToDeflateCode(distance);
    var head := LitLenBits(lc.code);
    var fields := ExtraBits(lc) + (DistanceBits(dc.code) + ExtraBits(dc));
    LengthCodeRoundTrip(length);
    DistanceCodeRoundTrip(distance);
    p1 := p + |head|;
    var p2 := p1 + lc.extraBits;
    var p3 := p2 + 5;
    assert |fields| == lc.extraBits + 5 + dc.extraBits;
    SplitSlice(bits, p, p1, q, head, fields);
    LitLenCodeRead(data, bits, p, lc.code, p1);
    BackReferenceFieldsRead(data, bits, p1, lc, dc, p2, p3, q);
    BackReferenceDecodes(data, p1, lc, dc, out, p2, p3, q, length, distance);
  }

  /**
   * Decoding a back-reference's bits from bit `p` copies `length` bytes from
   * `distance` back and moves on to the next code, or stops when the distance
   * reaches before the start of the text.
   */
  lemma BackReferenceInflates(data: seq<bv8>, bits: seq<bool>, p: nat, length: nat, distance: nat, out: seq<byte>, q: nat)
    requires Packs(data, bits) && InRange(BackReference(length, distance))
    requires var sb := SymbolBits(BackReference(length, distance));
      q == p + |sb| && q <= |bits| && bits[p..q] == sb
    ensures InflateFrom(data, p, out)
      == if distance <= |out| then InflateFrom(data, q, CopyBack(out, distance, length))
         else Err(DistanceTooFar(distance, |out|))
  {
    var p1 := BackReferenceRead(data, bits, p, length, distance, out, q);
    InflateFromBackReference(data, p, out, LengthToDeflateCode(length).code, p1);
  }

  /** `InflateFrom` at a back-reference code read from bit `p` and ending before bit `p1`. */
  lemma InflateFromBackReference(data: seq<bv8>, p: nat, out: seq<byte>, sym: nat, p1: nat)
    requires p < 8 * |data| && DecodeLitLen(data, p) == (sym, p1) && 257 <= sym
    ensures InflateFrom(data, p, out)
      == match BackReferenceStep(data, p1, sym, out)
         case Err(e) => Err(e)
         case Ok((next, p4)) => InflateFrom(data, p4, next)
  {
    assert p / 8 < |data|;
  }

  /**
   * Decoding the packed bits of a symbol stream yields what the LZ77 decoder
   * yields for the stream: the same text, or an error exactly when it has none.
   */
  lemma {:induction false} InflateStream(data: seq<bv8>, bits: seq<bool>, p: nat, syms: seq<DeflateSymbol>, out: seq<byte>)
    requires Packs(data, bits) && AllInRange(syms)
    requires p <= |bits| && bits[p..] == StreamBits(syms)
    ensures InflateFrom(data, p, out).Ok? <==> Lz77DecompressFrom(syms, out).Some?
    ensures InflateFrom(data, p, out).Ok? ==> InflateFrom(data, p, out).value == Lz77DecompressFrom(syms, out).value
    decreases |syms|
  {
    if syms == [] {
      if p / 8 < |data| {
        DecodePaddingIsEndOfBlock(data, bits, p);
        DecodeLitLenTotal(data, p);
      }
    } else {
      var sb := SymbolBits(syms[0]);
      var q := p + |sb|;
      SplitSuffix(bits, p, q, sb, StreamBits(syms[1..]));
      assert AllInRange(syms[1..]);
      match syms[0] {
        case Literal(b) =>
          LiteralInflates(data, bits, p, b, out, q);
          InflateStream(data, bits, q, syms[1..], out + [b]);
        case EndOfBlock =>
          EndOfBlockInflates(data, bits, p, out);
        case BackReference(l, d) =>
          BackReferenceInflates(data, bits, p, l, d, out, q);
          if d <= |out| {
            InflateStream(data, bits, q, syms[1..], CopyBack(out, d, l));
          }
      }
    }
  }

  /**
   * The check in `main`: whatever stream `lz77_compress` returns for `input`,
   * decompressing the output of `deflate_compress` gives `input` back.
   */
  lemma DeflateRoundTrip(input: seq<byte>, syms: seq<DeflateSymbol>, data: seq<bv8>)
    requires Lz77CompressContract(input, syms)
    requires Packs(data, Header() + StreamBits(syms))
    ensures Inflate(data) == Ok(input)
  {
    var bits := Header() + StreamBits(syms);
    PackedBitsFrom(data, bits, 1, 2);
    assert BitsFrom(data, 1, 2) == [true, false];
    assert LsbValue([true, false]) == 1 by {
      assert [true, false][..1] == [true];
      assert [true][..0] == [];
    }
    assert bits[3..] == StreamBits(syms);
    InflateStream(data, bits, 3, syms, []);
  }

  /** `main`: compress, decompress with the internal decoder, and compare. */
  method CompressAndVerify(input: seq<byte>, syms: seq<DeflateSymbol>) returns (same: bool)
    requires Lz77CompressContract(input, syms)
    ensures same
  {
    var compressed := DeflateCompress(input, syms);
    DeflateRoundTrip(input, syms, compressed.data);
    var decompressed := DeflateDecompress(compressed.data);
    same := decompressed == Ok(input);
  }
}
