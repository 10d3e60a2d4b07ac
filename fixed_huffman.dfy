/**
 * The fixed literal/length and distance Huffman codes of DEFLATE
 * (section 3.2.6 of RFC 1951), as `get_fixed_litlen_code` and
 * `get_fixed_distance_code` compute them, and the MSB-first bit strings
 * those codes stand for.
 */
module FixedHuffman {

  import opened Arith

  /** `FixedCode`: the code value (read MSB-first) and its bit length. */
  datatype FixedCode = FixedCode(code: nat, length: nat)

  /** A `uint16_t` cast: truncation to 16 bits. */
  function U16(x: int): (r: nat)
    ensures r < 0x1_0000
    ensures 0 <= x < 0x1_0000 ==> r == x
  {
    x % 0x1_0000
  }

  /** `get_fixed_litlen_code`: four ranges; anything above 287 falls into the last one. */
  function LitLenCode(sym: nat): (fc: FixedCode)
    ensures 7 <= fc.length <= 9
  {
    if sym <= 143 then FixedCode(U16(0x30 + sym), 8)
    else if sym <= 255 then FixedCode(U16(0x190 + (sym - 144)), 9)
    else if sym <= 279 then FixedCode(U16(sym - 256), 7)
    else FixedCode(U16(0xC0 + (sym - 280)), 8)
  }

  /** `get_fixed_distance_code`: the code is the symbol itself, always 5 bits. */
  function DistanceCode(sym: nat): (fc: FixedCode)
    ensures fc.length == 5
  {
    FixedCode(U16(sym), 5)
  }

  /** The `n` low bits of `c`, most significant first: how a Huffman code is read. */
  function MsbBits(c: nat, n: nat): (bits: seq<bool>)
    ensures |bits| == n
  {
    if n == 0 then [] else MsbBits(c / 2, n - 1) + [c % 2 == 1]
  }

  /** The number a sequence of bits stands for, most significant first. */
  function MsbValue(bits: seq<bool>): (v: nat)
    ensures v < Pow2(|bits|)
  {
    if bits == [] then 0 else 2 * MsbValue(bits[..|bits| - 1]) + (if bits[|bits| - 1] then 1 else 0)
  }

  predicate IsPrefix(a: seq<bool>, b: seq<bool>)
  {
    |a| <= |b| && a == b[..|a|]
  }

  /** Reading back the bits of a code that fits in `n` bits gives the code. */
  lemma {:induction false} MsbValueOfBits(c: nat, n: nat)
    requires c < Pow2(n)
    ensures MsbValue(MsbBits(c, n)) == c
  {
    if n > 0 {
      var bits := MsbBits(c, n);
      assert bits[..n - 1] == MsbBits(c / 2, n - 1);
      MsbValueOfBits(c / 2, n - 1);
    }
  }

  /** Dropping the last bit of the `n` bits of `c` leaves the `n - 1` bits of `c / 2`. */
  lemma MsbBitsDropOne(c: nat, n: nat)
    requires n >= 1
    ensures MsbBits(c, n)[..n - 1] == MsbBits(c / 2, n - 1)
  {
  }

  /**
   * If the `n1` bits of `c1` are a prefix of the `n2` bits of `c2`, where the
   * lengths differ by at most two, then `c1` is `c2` shifted right by the
   * difference.
   */
  lemma PrefixMeansShift(c1: nat, n1: nat, c2: nat, n2: nat)
    requires c1 < Pow2(n1) && c2 < Pow2(n2) && n1 <= n2 <= n1 + 2
    requires IsPrefix(MsbBits(c1, n1), MsbBits(c2, n2))
    ensures n2 == n1 ==> c1 == c2
    ensures n2 == n1 + 1 ==> c1 == c2 / 2
    ensures n2 == n1 + 2 ==> c1 == c2 / 4
  {
    var a := MsbBits(c1, n1);
    var b := MsbBits(c2, n2);
    assert a == b[..n1];
    if n2 == n1 {
      assert a == b;
      MsbValueOfBits(c1, n1);
      MsbValueOfBits(c2, n2);
    } else if n2 == n1 + 1 {
      PrefixShiftOne(c1, n1, c2);
    } else {
      MsbBitsDropOne(c2, n2);
      assert b[..n1] == b[..n2 - 1][..n1];
      assert c2 / 2 < Pow2(n1 + 1) by { assert Pow2(n2) == 2 * Pow2(n1 + 1); }
      PrefixShiftOne(c1, n1, c2 / 2);
      assert c2 / 2 / 2 == c2 / 4;
    }
  }

  /** If the `n` bits of `c1` begin the `n + 1` bits of `c2`, then `c1` is `c2` without its last bit. */
  lemma PrefixShiftOne(c1: nat, n: nat, c2: nat)
    requires c1 < Pow2(n) && c2 < Pow2(n + 1)
    requires MsbBits(c1, n) == MsbBits(c2, n + 1)[..n]
    ensures c1 == c2 / 2
  {
    MsbBitsDropOne(c2, n + 1);
    assert c2 / 2 < Pow2(n) by { assert Pow2(n + 1) == 2 * Pow2(n); }
    MsbValueOfBits(c1, n);
    MsbValueOfBits(c2 / 2, n);
  }

  /** The bits `write_code_reversed` emits for literal/length symbol `sym`. */
  function LitLenBits(sym: nat): seq<bool>
  {
    MsbBits(LitLenCode(sym).code, LitLenCode(sym).length)
  }

  /** The bits emitted for distance symbol `sym`. */
  function DistanceBits(sym: nat): seq<bool>
  {
    MsbBits(DistanceCode(sym).code, DistanceCode(sym).length)
  }

  /**
   * The four ranges of the table in section 3.2.6 of RFC 1951: code lengths
   * and first and last codes of each range, with codes consecutive within a range.
   */
  lemma LitLenCodeMatchesRfcTable(sym: nat)
    requires sym <= 287
    ensures sym <= 143 ==> LitLenCode(sym).length == 8 && 0x30 <= LitLenCode(sym).code <= 0xBF
                           && LitLenCode(sym).code - 0x30 == sym
    ensures 144 <= sym <= 255 ==> LitLenCode(sym).length == 9 && 0x190 <= LitLenCode(sym).code <= 0x1FF
                                  && LitLenCode(sym).code - 0x190 == sym - 144
    ensures 256 <= sym <= 279 ==> LitLenCode(sym).length == 7 && LitLenCode(sym).code <= 0x17
                                  && LitLenCode(sym).code == sym - 256
    ensures 280 <= sym ==> LitLenCode(sym).length == 8 && 0xC0 <= LitLenCode(sym).code <= 0xC7
                           && LitLenCode(sym).code - 0xC0 == sym - 280
    ensures LitLenCode(256) == FixedCode(0, 7)
  {
  }

  /** Every code of the table fits in its length: `code < 2^length`. */
  lemma LitLenCodeFits(sym: nat)
    requires sym <= 287
    ensures LitLenCode(sym).code < Pow2(LitLenCode(sym).length)
  {
    assert Pow2(7) == 128 && Pow2(8) == 256 && Pow2(9) == 512;
  }

  /** No code of the literal/length table is a prefix of another: the table is a prefix code. */
  lemma LitLenPrefixFree(s: nat, t: nat)
    requires s <= 287 && t <= 287 && s != t
    ensures !IsPrefix(LitLenBits(s), LitLenBits(t))
  {
    var a, b := LitLenCode(s), LitLenCode(t);
    if IsPrefix(LitLenBits(s), LitLenBits(t)) {
      LitLenCodeFits(s);
      LitLenCodeFits(t);
      assert a.length <= b.length;
      PrefixMeansShift(a.code, a.length, b.code, b.length);
      LitLenCodesUnshifted(s, t);
      assert false;
    }
  }

  /** No code of the table equals another one, or another one shifted right by one or two bits. */
  lemma LitLenCodesUnshifted(s: nat, t: nat)
    requires s <= 287 && t <= 287 && s != t
    ensures var a, b := LitLenCode(s), LitLenCode(t);
      && (a.length == b.length ==> a.code != b.code)
      && (a.length + 1 == b.length ==> a.code != b.code / 2)
      && (a.length + 2 == b.length ==> a.code != b.code / 4)
  {
    LitLenCodeMatchesRfcTable(s);
    LitLenCodeMatchesRfcTable(t);
  }

  /** Distance codes 0..29 fit in their 5 bits and are pairwise distinct, hence a prefix code. */
  lemma DistancePrefixFree(s: nat, t: nat)
    requires s <= 29 && t <= 29 && s != t
    ensures DistanceCode(s).code < Pow2(5)
    ensures !IsPrefix(DistanceBits(s), DistanceBits(t))
  {
    assert Pow2(5) == 32;
    if IsPrefix(DistanceBits(s), DistanceBits(t)) {
      PrefixMeansShift(s, 5, t, 5);
    }
  }

  /**
   * A symbol above 287 is not rejected: it takes the last branch and gets an
   * 8-bit code outside the table, e.g. 288 gets 11001000, which is the first
   * eight bits of the code of 144.
   */
  lemma OutOfTableSymbol()
    ensures LitLenCode(288) == FixedCode(0xC8, 8)
    ensures IsPrefix(LitLenBits(288), LitLenBits(144))
  {
    assert LitLenBits(288) == [true, true, false, false, true, false, false, false];
    assert LitLenBits(144) == [true, true, false, false, true, false, false, false, false];
  }
}
