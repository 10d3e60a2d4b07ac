/**
 * What the two `optimizer_utils.py` grid searches share: the parameter
 * points they hand to `profile`, the order in which their nested loops visit
 * them, and the running winner each objective keeps with a strict `<` or `>`
 * against a bound that starts at `float('inf')` or `float('-inf')`.
 */
module Sweep {
  import opened Wrappers
  import opened Arith

  /*
   * ---------------------------------------------------------------------
   * Running winners
   * ---------------------------------------------------------------------
   */

  /** A running extremum: `float('inf')`, `float('-inf')` or the best value seen so far. */
  datatype Bound = PosInf | NegInf | Val(x: real)

  /** `x < bound`. */
  predicate Below(x: real, b: Bound)
  {
    b.PosInf? || (b.Val? && x < b.x)
  }

  /** `x > bound`. */
  predicate Above(x: real, b: Bound)
  {
    b.NegInf? || (b.Val? && x > b.x)
  }

  /**
   * The running minimum and its result after the results `rs`, in order:
   * a result replaces the winner only when its key is strictly below the
   * minimum so far.
   */
  function MinFold<T>(rs: seq<T>, key: T -> real): (Bound, Option<T>)
  {
    if rs == [] then (PosInf, None)
    else
      var prev := MinFold(rs[..|rs| - 1], key);
      var r := rs[|rs| - 1];
      if Below(key(r), prev.0) then (Val(key(r)), Some(r)) else prev
  }

  /** The running maximum and its result, with a strict `>`. */
  function MaxFold<T>(rs: seq<T>, key: T -> real): (Bound, Option<T>)
  {
    if rs == [] then (NegInf, None)
    else
      var prev := MaxFold(rs[..|rs| - 1], key);
      var r := rs[|rs| - 1];
      if Above(key(r), prev.0) then (Val(key(r)), Some(r)) else prev
  }

  /** `rs[i]` has the least key, and no earlier result has a key that small. */
  predicate IsFirstMin<T>(rs: seq<T>, key: T -> real, i: int)
  {
    && 0 <= i < |rs|
    && (forall j :: 0 <= j < |rs| ==> key(rs[i]) <= key(rs[j]))
    && (forall j :: 0 <= j < i ==> key(rs[i]) < key(rs[j]))
  }

  /** `rs[i]` has the greatest key, and no earlier result has a key that large. */
  predicate IsFirstMax<T>(rs: seq<T>, key: T -> real, i: int)
  {
    && 0 <= i < |rs|
    && (forall j :: 0 <= j < |rs| ==> key(rs[i]) >= key(rs[j]))
    && (forall j :: 0 <= j < i ==> key(rs[i]) > key(rs[j]))
  }

  /** One more result: the fold after it, from the fold before it. */
  lemma MinFoldSnoc<T>(rs: seq<T>, r: T, key: T -> real)
    ensures MinFold(rs + [r], key) ==
      if Below(key(r), MinFold(rs, key).0) then (Val(key(r)), Some(r)) else MinFold(rs, key)
  {
    assert (rs + [r])[..|rs|] == rs;
  }

  lemma MaxFoldSnoc<T>(rs: seq<T>, r: T, key: T -> real)
    ensures MaxFold(rs + [r], key) ==
      if Above(key(r), MaxFold(rs, key).0) then (Val(key(r)), Some(r)) else MaxFold(rs, key)
  {
    assert (rs + [r])[..|rs|] == rs;
  }

  /**
   * After at least one result, the minimum's winner is the first result of
   * least key, and the bound is that key.
   */
  lemma {:induction false} MinFoldFirstMin<T>(rs: seq<T>, key: T -> real) returns (i: nat)
    requires rs != []
    ensures IsFirstMin(rs, key, i)
    ensures MinFold(rs, key) == (Val(key(rs[i])), Some(rs[i]))
  {
    var init := rs[..|rs| - 1];
    var r := rs[|rs| - 1];
    if init == [] {
      i := 0;
    } else {
      var k := MinFoldFirstMin(init, key);
      if key(r) < key(init[k]) {
        i := |rs| - 1;
        forall j | 0 <= j < |rs| - 1
          ensures key(r) < key(rs[j])
        {
          assert rs[j] == init[j];
        }
      } else {
        i := k;
        forall j | 0 <= j < |rs| - 1
          ensures key(rs[k]) <= key(rs[j]) && (j < k ==> key(rs[k]) < key(rs[j]))
        {
          assert rs[j] == init[j];
        }
      }
    }
  }

  /** The maximum's winner is the first result of greatest key. */
  lemma {:induction false} MaxFoldFirstMax<T>(rs: seq<T>, key: T -> real) returns (i: nat)
    requires rs != []
    ensures IsFirstMax(rs, key, i)
    ensures MaxFold(rs, key) == (Val(key(rs[i])), Some(rs[i]))
  {
    var init := rs[..|rs| - 1];
    var r := rs[|rs| - 1];
    if init == [] {
      i := 0;
    } else {
      var k := MaxFoldFirstMax(init, key);
      if key(r) > key(init[k]) {
        i := |rs| - 1;
        forall j | 0 <= j < |rs| - 1
          ensures key(r) > key(rs[j])
        {
          assert rs[j] == init[j];
        }
      } else {
        i := k;
        forall j | 0 <= j < |rs| - 1
          ensures key(rs[k]) >= key(rs[j]) && (j < k ==> key(rs[k]) > key(rs[j]))
        {
          assert rs[j] == init[j];
        }
      }
    }
  }

  /**
   * The keys of the `optimalResults` dictionary: 'optimizedTime',
   * 'optimizedPeakMemory', 'optimizedCompressionPercentage' and
   * 'optimizedCompressionRatio'.
   */
  datatype Objective = OptimizedTime | OptimizedPeakMemory | OptimizedCompressionPercentage | OptimizedCompressionRatio

  /*
   * ---------------------------------------------------------------------
   * Parameter points and measurements
   * ---------------------------------------------------------------------
   */

  /** The keyword arguments of `profile`; `None` for an argument left at its default. */
  datatype Params = Params(
    level: Option<int>,
    compressionLevel: Option<int>,
    blockSize: Option<int>,
    compressLevel: Option<int>,
    quality: Option<int>,
    mode: Option<int>,
    lgwin: Option<int>)

  function ZstdPoint(level: int): Params
  {
    Params(Some(level), None, None, None, None, None, None)
  }

  function GzipPoint(compressLevel: int): Params
  {
    Params(None, None, None, Some(compressLevel), None, None, None)
  }

  function Lz4Point(compressionLevel: int, blockSize: int): Params
  {
    Params(None, Some(compressionLevel), Some(blockSize), None, None, None, None)
  }

  function BrotliPoint(quality: int, mode: int, lgwin: int): Params
  {
    Params(None, None, None, None, Some(quality), Some(mode), Some(lgwin))
  }

  /**
   * What one profiled compression measures: elapsed seconds, tracemalloc's
   * current and peak traced bytes, and the compression percentage and ratio
   * the compression wrapper reports. The values come from outside the model.
   */
  datatype Measurement = Measurement(
    seconds: real,
    currentBytes: real,
    peakBytes: real,
    percentage: real,
    ratio: real)

  /**
   * Python's `range(lo, hi)`: the integers `lo <= x < hi`, each once, in
   * ascending order.
   */
  function Range(lo: int, hi: int): (r: seq<int>)
    ensures |r| == if lo < hi then hi - lo else 0
    ensures forall x :: x in r <==> lo <= x < hi
    ensures forall i, j :: 0 <= i < j < |r| ==> r[i] < r[j]
  {
    var r := seq(if lo < hi then hi - lo else 0, i => lo + i);
    RangeHits(lo, hi, r);
    r
  }

  /** Each `lo <= x < hi` sits at position `x - lo` of the counting sequence. */
  lemma RangeHits(lo: int, hi: int, r: seq<int>)
    requires |r| == if lo < hi then hi - lo else 0
    requires forall i :: 0 <= i < |r| ==> r[i] == lo + i
    ensures forall x :: lo <= x < hi ==> x in r
  {
    forall x | lo <= x < hi
      ensures x in r
    {
      assert r[x - lo] == x;
    }
  }

  /*
   * ---------------------------------------------------------------------
   * Visit order
   * ---------------------------------------------------------------------
   */

  lemma SliceSnoc<T>(s: seq<T>, i: nat)
    requires i < |s|
    ensures s[..i + 1] == s[..i] + [s[i]]
  {
  }

  /** One more element of the block being walked. */
  lemma PrefixSnoc<T>(done: seq<T>, s: seq<T>, k: nat)
    requires k < |s|
    ensures done + s[..k] + [s[k]] == done + s[..k + 1]
  {
    assert s[..k + 1] == s[..k] + [s[k]];
  }

  /** The blocks one after the other. */
  function Concat<T>(blocks: seq<seq<T>>): seq<T>
  {
    if blocks == [] then [] else Concat(blocks[..|blocks| - 1]) + blocks[|blocks| - 1]
  }

  lemma ConcatSnoc<T>(blocks: seq<seq<T>>, i: nat)
    requires i < |blocks|
    ensures Concat(blocks[..i + 1]) == Concat(blocks[..i]) + blocks[i]
  {
    assert blocks[..i + 1][..i] == blocks[..i];
  }

  /** One more whole block. */
  lemma ConcatExtend<T>(done: seq<T>, blocks: seq<seq<T>>, j: nat)
    requires j < |blocks|
    ensures done + Concat(blocks[..j]) + blocks[j] == done + Concat(blocks[..j + 1])
  {
    ConcatSnoc(blocks, j);
  }

  lemma ConcatAll<T>(blocks: seq<seq<T>>)
    ensures Concat(blocks[..|blocks|]) == Concat(blocks)
  {
    assert blocks[..|blocks|] == blocks;
  }

  /** Element `k` of block `i` sits at `i * w + k`, inside the first `n` blocks of width `w`. */
  lemma BlockBound(i: nat, k: nat, n: nat, w: nat)
    requires i < n && k < w
    ensures i * w + k < n * w
  {
    var d := n - i - 1;
    assert n * w == (i + 1) * w + d * w;
    assert 0 <= d * w;
    MulSucc(i, w);
  }

  /** `n` blocks of width `w` hold `n * w` elements. */
  lemma {:induction false} ConcatLength<T>(blocks: seq<seq<T>>, w: nat)
    requires forall i :: 0 <= i < |blocks| ==> |blocks[i]| == w
    ensures |Concat(blocks)| == |blocks| * w
  {
    if blocks != [] {
      var n := |blocks| - 1;
      ConcatLength(blocks[..n], w);
      MulSucc(n, w);
    }
  }

  /** Element `k` of block `i` is element `i * w + k` of the concatenation. */
  lemma {:induction false} ConcatAt<T>(blocks: seq<seq<T>>, w: nat, i: nat, k: nat)
    requires forall i :: 0 <= i < |blocks| ==> |blocks[i]| == w
    requires i < |blocks| && k < w
    ensures i * w + k < |blocks| * w == |Concat(blocks)|
    ensures Concat(blocks)[i * w + k] == blocks[i][k]
  {
    var n := |blocks| - 1;
    var init := blocks[..n];
    BlockBound(i, k, |blocks|, w);
    ConcatLength(blocks, w);
    ConcatLength(init, w);
    assert Concat(blocks) == Concat(init) + blocks[n];
    if i < n {
      BlockBound(i, k, n, w);
      ConcatAt(init, w, i, k);
      assert init[i] == blocks[i];
    } else {
      assert i * w + k == |Concat(init)| + k;
    }
  }

  /** `for level in levelRange` of the Zstandard search. */
  function ZstdGrid(levels: seq<int>): seq<Params>
  {
    seq(|levels|, i requires 0 <= i < |levels| => ZstdPoint(levels[i]))
  }

  /** `for compressLevel in compressLevelRange` of the gzip search. */
  function GzipGrid(levels: seq<int>): seq<Params>
  {
    seq(|levels|, i requires 0 <= i < |levels| => GzipPoint(levels[i]))
  }

  /** The inner `for blockSize in blockSizeRange` of the LZ4 search, for one level. */
  function Lz4Row(level: int, blockSizes: seq<int>): seq<Params>
  {
    seq(|blockSizes|, k requires 0 <= k < |blockSizes| => Lz4Point(level, blockSizes[k]))
  }

  function Lz4Rows(levels: seq<int>, blockSizes: seq<int>): seq<seq<Params>>
  {
    seq(|levels|, i requires 0 <= i < |levels| => Lz4Row(levels[i], blockSizes))
  }

  /** The LZ4 search: level outer, block size inner. */
  function Lz4Grid(levels: seq<int>, blockSizes: seq<int>): seq<Params>
  {
    Concat(Lz4Rows(levels, blockSizes))
  }

  /** The innermost `for lgwin in lgwinRange` of the Brotli search. */
  function BrotliRow(quality: int, mode: int, lgwins: seq<int>): seq<Params>
  {
    seq(|lgwins|, k requires 0 <= k < |lgwins| => BrotliPoint(quality, mode, lgwins[k]))
  }

  function BrotliRows(quality: int, modes: seq<int>, lgwins: seq<int>): seq<seq<Params>>
  {
    seq(|modes|, j requires 0 <= j < |modes| => BrotliRow(quality, modes[j], lgwins))
  }

  /** `for mode in modeRange: for lgwin in lgwinRange`, for one quality. */
  function BrotliPlane(quality: int, modes: seq<int>, lgwins: seq<int>): seq<Params>
  {
    Concat(BrotliRows(quality, modes, lgwins))
  }

  function BrotliPlanes(qualities: seq<int>, modes: seq<int>, lgwins: seq<int>): seq<seq<Params>>
  {
    seq(|qualities|, i requires 0 <= i < |qualities| => BrotliPlane(qualities[i], modes, lgwins))
  }

  /** The Brotli search: quality outer, then mode, then lgwin. */
  function BrotliGrid(qualities: seq<int>, modes: seq<int>, lgwins: seq<int>): seq<Params>
  {
    Concat(BrotliPlanes(qualities, modes, lgwins))
  }

  /** The LZ4 search visits `|levels| * |blockSizes|` points. */
  lemma Lz4GridLength(levels: seq<int>, blockSizes: seq<int>)
    ensures |Lz4Grid(levels, blockSizes)| == |levels| * |blockSizes|
  {
    ConcatLength(Lz4Rows(levels, blockSizes), |blockSizes|);
  }

  /** Level by level: the point with level `i` and block size `k` is visited at `i * |blockSizes| + k`. */
  lemma Lz4GridAt(levels: seq<int>, blockSizes: seq<int>, i: nat, k: nat)
    requires i < |levels| && k < |blockSizes|
    ensures i * |blockSizes| + k < |Lz4Grid(levels, blockSizes)|
    ensures Lz4Grid(levels, blockSizes)[i * |blockSizes| + k] == Lz4Point(levels[i], blockSizes[k])
  {
    Lz4GridLength(levels, blockSizes);
    ConcatAt(Lz4Rows(levels, blockSizes), |blockSizes|, i, k);
  }

  lemma BrotliPlaneLength(quality: int, modes: seq<int>, lgwins: seq<int>)
    ensures |BrotliPlane(quality, modes, lgwins)| == |modes| * |lgwins|
  {
    ConcatLength(BrotliRows(quality, modes, lgwins), |lgwins|);
  }

  lemma BrotliPlaneAt(quality: int, modes: seq<int>, lgwins: seq<int>, j: nat, k: nat)
    requires j < |modes| && k < |lgwins|
    ensures j * |lgwins| + k < |BrotliPlane(quality, modes, lgwins)|
    ensures BrotliPlane(quality, modes, lgwins)[j * |lgwins| + k] == BrotliPoint(quality, modes[j], lgwins[k])
  {
    ConcatAt(BrotliRows(quality, modes, lgwins), |lgwins|, j, k);
  }

  lemma Regroup(i: int, j: int, k: int, m: int, l: int)
    ensures (i * m + j) * l + k == i * (m * l) + (j * l + k)
  {
  }

  /** The Brotli search visits `|qualities| * |modes| * |lgwins|` points. */
  lemma BrotliGridLength(qualities: seq<int>, modes: seq<int>, lgwins: seq<int>)
    ensures |BrotliGrid(qualities, modes, lgwins)| == |qualities| * (|modes| * |lgwins|)
  {
    var planes := BrotliPlanes(qualities, modes, lgwins);
    forall i | 0 <= i < |planes|
      ensures |planes[i]| == |modes| * |lgwins|
    {
      BrotliPlaneLength(qualities[i], modes, lgwins);
    }
    ConcatLength(planes, |modes| * |lgwins|);
  }

  /**
   * In lexicographic order of (quality, mode, lgwin): the point of quality
   * `i`, mode `j` and lgwin `k` is visited at `(i * |modes| + j) * |lgwins| + k`.
   */
  lemma BrotliGridAt(qualities: seq<int>, modes: seq<int>, lgwins: seq<int>, i: nat, j: nat, k: nat)
    requires i < |qualities| && j < |modes| && k < |lgwins|
    ensures (i * |modes| + j) * |lgwins| + k < |BrotliGrid(qualities, modes, lgwins)|
    ensures BrotliGrid(qualities, modes, lgwins)[(i * |modes| + j) * |lgwins| + k] ==
      BrotliPoint(qualities[i], modes[j], lgwins[k])
  {
    var w := |modes| * |lgwins|;
    var planes := BrotliPlanes(qualities, modes, lgwins);
    forall i | 0 <= i < |planes|
      ensures |planes[i]| == w
    {
      BrotliPlaneLength(qualities[i], modes, lgwins);
    }
    var p := j * |lgwins| + k;
    BrotliPlaneAt(qualities[i], modes, lgwins, j, k);
    BrotliPlaneLength(qualities[i], modes, lgwins);
    assert planes[i] == BrotliPlane(qualities[i], modes, lgwins);
    assert p < w;
    ConcatAt(planes, w, i, p);
    Regroup(i, j, k, |modes|, |lgwins|);
    assert planes[i][p] == BrotliPoint(qualities[i], modes[j], lgwins[k]);
  }

  lemma ProductZero(a: nat, b: nat)
    ensures a * b == 0 <==> a == 0 || b == 0
  {
    if a != 0 && b != 0 {
      MulNonneg(a - 1, b);
      MulSucc(a - 1, b);
    }
  }

  /** The LZ4 search visits no point exactly when one of its ranges is empty. */
  lemma Lz4GridEmpty(levels: seq<int>, blockSizes: seq<int>)
    ensures Lz4Grid(levels, blockSizes) == [] <==> levels == [] || blockSizes == []
  {
    Lz4GridLength(levels, blockSizes);
    ProductZero(|levels|, |blockSizes|);
  }

  /** The Brotli search visits no point exactly when one of its ranges is empty. */
  lemma BrotliGridEmpty(qualities: seq<int>, modes: seq<int>, lgwins: seq<int>)
    ensures BrotliGrid(qualities, modes, lgwins) == [] <==> qualities == [] || modes == [] || lgwins == []
  {
    BrotliGridLength(qualities, modes, lgwins);
    ProductZero(|modes|, |lgwins|);
    ProductZero(|qualities|, |modes| * |lgwins|);
  }

  /** Whatever the concatenation holds comes from one of the blocks. */
  lemma {:induction false} ConcatMember<T>(blocks: seq<seq<T>>, x: T) returns (i: nat)
    requires x in Concat(blocks)
    ensures i < |blocks| && x in blocks[i]
  {
    var n := |blocks| - 1;
    if x in blocks[n] {
      i := n;
    } else {
      i := ConcatMember(blocks[..n], x);
    }
  }

  /** Every Zstandard point carries a level from the range. */
  lemma ZstdGridMember(levels: seq<int>, p: Params)
    requires p in ZstdGrid(levels)
    ensures p.level.Some? && p.level.value in levels && p == ZstdPoint(p.level.value)
  {
  }

  /** Every gzip point carries a level from the range. */
  lemma GzipGridMember(levels: seq<int>, p: Params)
    requires p in GzipGrid(levels)
    ensures p.compressLevel.Some? && p.compressLevel.value in levels && p == GzipPoint(p.compressLevel.value)
  {
  }

  /** Every LZ4 point carries a level and a block size from their ranges. */
  lemma Lz4GridMember(levels: seq<int>, blockSizes: seq<int>, p: Params)
    requires p in Lz4Grid(levels, blockSizes)
    ensures p.compressionLevel.Some? && p.compressionLevel.value in levels
    ensures p.blockSize.Some? && p.blockSize.value in blockSizes
    ensures p == Lz4Point(p.compressionLevel.value, p.blockSize.value)
  {
    var i := ConcatMember(Lz4Rows(levels, blockSizes), p);
  }

  /** Every Brotli point carries a quality, a mode and an lgwin from their ranges. */
  lemma BrotliGridMember(qualities: seq<int>, modes: seq<int>, lgwins: seq<int>, p: Params)
    requires p in BrotliGrid(qualities, modes, lgwins)
    ensures p.quality.Some? && p.quality.value in qualities
    ensures p.mode.Some? && p.mode.value in modes
    ensures p.lgwin.Some? && p.lgwin.value in lgwins
    ensures p == BrotliPoint(p.quality.value, p.mode.value, p.lgwin.value)
  {
    var i := ConcatMember(BrotliPlanes(qualities, modes, lgwins), p);
    var j := ConcatMember(BrotliRows(qualities[i], modes, lgwins), p);
  }

  /*
   * ---------------------------------------------------------------------
   * Coverage, and the default ranges of the searches
   * ---------------------------------------------------------------------
   */

  /** The Zstandard search visits every level of its range. */
  lemma ZstdGridCovers(levels: seq<int>, level: int)
    requires level in levels
    ensures ZstdPoint(level) in ZstdGrid(levels)
  {
    var i :| 0 <= i < |levels| && levels[i] == level;
    assert ZstdGrid(levels)[i] == ZstdPoint(level);
  }

  /** The gzip search visits every level of its range. */
  lemma GzipGridCovers(levels: seq<int>, level: int)
    requires level in levels
    ensures GzipPoint(level) in GzipGrid(levels)
  {
    var i :| 0 <= i < |levels| && levels[i] == level;
    assert GzipGrid(levels)[i] == GzipPoint(level);
  }

  /** The LZ4 search visits every pair of a level and a block size. */
  lemma Lz4GridCovers(levels: seq<int>, blockSizes: seq<int>, level: int, blockSize: int)
    requires level in levels && blockSize in blockSizes
    ensures Lz4Point(level, blockSize) in Lz4Grid(levels, blockSizes)
  {
    var i :| 0 <= i < |levels| && levels[i] == level;
    var k :| 0 <= k < |blockSizes| && blockSizes[k] == blockSize;
    Lz4GridAt(levels, blockSizes, i, k);
  }

  /** The Brotli search visits every triple of a quality, a mode and an lgwin. */
  lemma BrotliGridCovers(qualities: seq<int>, modes: seq<int>, lgwins: seq<int>, quality: int, mode: int, lgwin: int)
    requires quality in qualities && mode in modes && lgwin in lgwins
    ensures BrotliPoint(quality, mode, lgwin) in BrotliGrid(qualities, modes, lgwins)
  {
    var i :| 0 <= i < |qualities| && qualities[i] == quality;
    var j :| 0 <= j < |modes| && modes[j] == mode;
    var k :| 0 <= k < |lgwins| && lgwins[k] == lgwin;
    BrotliGridAt(qualities, modes, lgwins, i, j, k);
  }

  /** With its default `range(1, 23)`, the Zstandard search visits levels 1 to 22, 22 points. */
  lemma ZstdDefaultGrid()
    ensures |ZstdGrid(Range(1, 23))| == 22
    ensures forall p :: p in ZstdGrid(Range(1, 23)) ==> p.level.Some? && 1 <= p.level.value <= 22
    ensures forall level :: 1 <= level <= 22 ==> ZstdPoint(level) in ZstdGrid(Range(1, 23))
  {
    forall p | p in ZstdGrid(Range(1, 23)) {
      ZstdGridMember(Range(1, 23), p);
    }
    forall level | 1 <= level <= 22 {
      ZstdGridCovers(Range(1, 23), level);
    }
  }

  /** With its default `range(1, 10)`, the gzip search visits levels 1 to 9, 9 points. */
  lemma GzipDefaultGrid()
    ensures |GzipGrid(Range(1, 10))| == 9
    ensures forall p :: p in GzipGrid(Range(1, 10)) ==> p.compressLevel.Some? && 1 <= p.compressLevel.value <= 9
    ensures forall level :: 1 <= level <= 9 ==> GzipPoint(level) in GzipGrid(Range(1, 10))
  {
    forall p | p in GzipGrid(Range(1, 10)) {
      GzipGridMember(Range(1, 10), p);
    }
    forall level | 1 <= level <= 9 {
      GzipGridCovers(Range(1, 10), level);
    }
  }

  /**
   * With its defaults `range(-5, 17)` and `range(0, 8)`, the LZ4 search
   * visits every level -5 to 16 with every block size 0 to 7: 176 points.
   */
  lemma Lz4DefaultGrid()
    ensures |Lz4Grid(Range(-5, 17), Range(0, 8))| == 176
    ensures forall p :: p in Lz4Grid(Range(-5, 17), Range(0, 8)) ==>
      p.compressionLevel.Some? && -5 <= p.compressionLevel.value <= 16 && p.blockSize.Some? && 0 <= p.blockSize.value <= 7
    ensures forall level, blockSize :: -5 <= level <= 16 && 0 <= blockSize <= 7 ==>
      Lz4Point(level, blockSize) in Lz4Grid(Range(-5, 17), Range(0, 8))
  {
    Lz4GridLength(Range(-5, 17), Range(0, 8));
    forall p | p in Lz4Grid(Range(-5, 17), Range(0, 8)) {
      Lz4GridMember(Range(-5, 17), Range(0, 8), p);
    }
    forall level, blockSize | -5 <= level <= 16 && 0 <= blockSize <= 7 {
      Lz4GridCovers(Range(-5, 17), Range(0, 8), level, blockSize);
    }
  }

  /**
   * With its defaults `range(0, 12)`, `range(0, 3)` and `range(10, 25)`, the
   * Brotli search visits every quality 0 to 11, mode 0 to 2 and lgwin 10 to
   * 24: 540 points.
   */
  lemma BrotliDefaultGrid()
    ensures |BrotliGrid(Range(0, 12), Range(0, 3), Range(10, 25))| == 540
    ensures forall p :: p in BrotliGrid(Range(0, 12), Range(0, 3), Range(10, 25)) ==>
      p.quality.Some? && 0 <= p.quality.value <= 11 && p.mode.Some? && 0 <= p.mode.value <= 2 && p.lgwin.Some? && 10 <= p.lgwin.value <= 24
    ensures forall quality, mode, lgwin :: 0 <= quality <= 11 && 0 <= mode <= 2 && 10 <= lgwin <= 24 ==>
      BrotliPoint(quality, mode, lgwin) in BrotliGrid(Range(0, 12), Range(0, 3), Range(10, 25))
  {
    BrotliGridLength(Range(0, 12), Range(0, 3), Range(10, 25));
    forall p | p in BrotliGrid(Range(0, 12), Range(0, 3), Range(10, 25)) {
      BrotliGridMember(Range(0, 12), Range(0, 3), Range(10, 25), p);
    }
    forall quality, mode, lgwin | 0 <= quality <= 11 && 0 <= mode <= 2 && 10 <= lgwin <= 24 {
      BrotliGridCovers(Range(0, 12), Range(0, 3), Range(10, 25), quality, mode, lgwin);
    }
  }
}
