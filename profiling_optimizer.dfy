/**
 * The grid-search optimizer of `src/profiling/optimizer_utils.py`: `profile`
 * runs one compression with the given parameters and packs what was measured
 * into a `CompressionResult`; each `run_*_grid_search` walks its parameter
 * ranges in nested loops and keeps, per objective, the first result with the
 * least time, the least peak memory, the greatest compression percentage and
 * (Zstandard and Brotli only) the greatest compression ratio.
 *
 * The compression itself and the clock and tracemalloc readings come from
 * outside: `measure(algorithm, point)` is what one profiled run reports.
 */
module ProfilingOptimizer {
  import opened Wrappers
  import opened Sweep

  /** One profiled run: the parameters it was given and what was measured. */
  datatype CompressionResult = CompressionResult(
    level: Option<int>,
    quality: Option<int>,
    mode: Option<int>,
    lgwin: Option<int>,
    compressLevel: Option<int>,
    compressionLevel: Option<int>,
    blockSize: Option<int>,
    timeTaken: real,
    peakMemoryUsage: real,
    compressionPercentage: real,
    compressionRatio: real)

  /** The parameters recorded in a result. */
  function ParamsOf(r: CompressionResult): Params
  {
    Params(r.level, r.compressionLevel, r.blockSize, r.compressLevel, r.quality, r.mode, r.lgwin)
  }

  /** Bytes per megabyte in the reported memory figure. */
  const BytesPerMegabyte: real := 1000000.0

  predicate Supported(algorithm: string)
  {
    algorithm == "brotli" || algorithm == "gzip" || algorithm == "lz4" || algorithm == "zstd"
  }

  /** The result `profile` builds once the compression has run. */
  function Measured(algorithm: string, measure: (string, Params) -> Measurement, p: Params): CompressionResult
  {
    var m := measure(algorithm, p);
    CompressionResult(p.level, p.quality, p.mode, p.lgwin, p.compressLevel, p.compressionLevel, p.blockSize,
      m.seconds, m.peakBytes / BytesPerMegabyte, m.percentage, m.ratio)
  }

  /**
   * `profile`: dispatch on the algorithm name; an unknown name raises
   * `ValueError`. The result records the parameters it was called with and
   * the peak traced memory in megabytes.
   */
  function Profile(algorithm: string, measure: (string, Params) -> Measurement, p: Params)
    : (r: Result<CompressionResult, string>)
    ensures r.Err? <==> !Supported(algorithm)
    ensures r.Err? ==> r.error == "ValueError: Unsupported algorithm: " + algorithm
    ensures r.Ok? ==> ParamsOf(r.value) == p
    ensures r.Ok? ==> r.value.peakMemoryUsage * BytesPerMegabyte == measure(algorithm, p).peakBytes
    ensures r.Ok? ==> r.value.timeTaken == measure(algorithm, p).seconds
  {
    if algorithm == "brotli" || algorithm == "gzip" || algorithm == "lz4" || algorithm == "zstd" then
      Ok(Measured(algorithm, measure, p))
    else
      Err("ValueError: Unsupported algorithm: " + algorithm)
  }

  /** The results of profiling each point in turn. */
  function Profiled(algorithm: string, measure: (string, Params) -> Measurement, points: seq<Params>)
    : seq<CompressionResult>
  {
    seq(|points|, i requires 0 <= i < |points| => Measured(algorithm, measure, points[i]))
  }

  lemma ProfiledSnoc(algorithm: string, measure: (string, Params) -> Measurement, points: seq<Params>, p: Params)
    ensures Profiled(algorithm, measure, points + [p]) ==
      Profiled(algorithm, measure, points) + [Measured(algorithm, measure, p)]
  {
  }

  function TimeTaken(r: CompressionResult): real { r.timeTaken }
  function PeakMemory(r: CompressionResult): real { r.peakMemoryUsage }
  function Percentage(r: CompressionResult): real { r.compressionPercentage }
  function Ratio(r: CompressionResult): real { r.compressionRatio }

  /** The four-objective `optimalResults` after the results `rs`. */
  function Winners4(rs: seq<CompressionResult>): map<Objective, Option<CompressionResult>>
  {
    map[OptimizedTime := MinFold(rs, TimeTaken).1,
        OptimizedPeakMemory := MinFold(rs, PeakMemory).1,
        OptimizedCompressionPercentage := MaxFold(rs, Percentage).1,
        OptimizedCompressionRatio := MaxFold(rs, Ratio).1]
  }

  /** The three-objective `optimalResults` of the LZ4 and gzip searches. */
  function Winners3(rs: seq<CompressionResult>): map<Objective, Option<CompressionResult>>
  {
    map[OptimizedTime := MinFold(rs, TimeTaken).1,
        OptimizedPeakMemory := MinFold(rs, PeakMemory).1,
        OptimizedCompressionPercentage := MaxFold(rs, Percentage).1]
  }

  /** The dictionary a four-objective search starts from. */
  const Unset4: map<Objective, Option<CompressionResult>> :=
    map[OptimizedTime := None, OptimizedPeakMemory := None,
        OptimizedCompressionPercentage := None, OptimizedCompressionRatio := None]

  /** The dictionary a three-objective search starts from. */
  const Unset3: map<Objective, Option<CompressionResult>> :=
    map[OptimizedTime := None, OptimizedPeakMemory := None, OptimizedCompressionPercentage := None]

  /**
   * After at least one point, each objective's winner is the first visited
   * result that is best for it, and records the parameters of its iteration.
   */
  lemma Winners4Best(algorithm: string, measure: (string, Params) -> Measurement, points: seq<Params>)
    returns (it: nat, im: nat, ip: nat, ir: nat)
    requires points != []
    ensures var rs := Profiled(algorithm, measure, points);
      && IsFirstMin(rs, TimeTaken, it) && Winners4(rs)[OptimizedTime] == Some(rs[it])
      && IsFirstMin(rs, PeakMemory, im) && Winners4(rs)[OptimizedPeakMemory] == Some(rs[im])
      && IsFirstMax(rs, Percentage, ip) && Winners4(rs)[OptimizedCompressionPercentage] == Some(rs[ip])
      && IsFirstMax(rs, Ratio, ir) && Winners4(rs)[OptimizedCompressionRatio] == Some(rs[ir])
      && ParamsOf(rs[it]) == points[it] && ParamsOf(rs[im]) == points[im]
      && ParamsOf(rs[ip]) == points[ip] && ParamsOf(rs[ir]) == points[ir]
  {
    var rs := Profiled(algorithm, measure, points);
    it := MinFoldFirstMin(rs, TimeTaken);
    im := MinFoldFirstMin(rs, PeakMemory);
    ip := MaxFoldFirstMax(rs, Percentage);
    ir := MaxFoldFirstMax(rs, Ratio);
  }

  /** The same for the three objectives of the LZ4 and gzip searches. */
  lemma Winners3Best(algorithm: string, measure: (string, Params) -> Measurement, points: seq<Params>)
    returns (it: nat, im: nat, ip: nat)
    requires points != []
    ensures var rs := Profiled(algorithm, measure, points);
      && IsFirstMin(rs, TimeTaken, it) && Winners3(rs)[OptimizedTime] == Some(rs[it])
      && IsFirstMin(rs, PeakMemory, im) && Winners3(rs)[OptimizedPeakMemory] == Some(rs[im])
      && IsFirstMax(rs, Percentage, ip) && Winners3(rs)[OptimizedCompressionPercentage] == Some(rs[ip])
      && ParamsOf(rs[it]) == points[it] && ParamsOf(rs[im]) == points[im] && ParamsOf(rs[ip]) == points[ip]
  {
    var rs := Profiled(algorithm, measure, points);
    it := MinFoldFirstMin(rs, TimeTaken);
    im := MinFoldFirstMin(rs, PeakMemory);
    ip := MaxFoldFirstMax(rs, Percentage);
  }

  /** What a four-objective search over `points` returns or raises. */
  function Outcome4(algorithm: string, measure: (string, Params) -> Measurement, points: seq<Params>)
    : Result<map<Objective, Option<CompressionResult>>, string>
  {
    if points != [] && !Supported(algorithm) then Err("ValueError: Unsupported algorithm: " + algorithm)
    else Ok(Winners4(Profiled(algorithm, measure, points)))
  }

  /** What a three-objective search over `points` returns or raises. */
  function Outcome3(algorithm: string, measure: (string, Params) -> Measurement, points: seq<Params>)
    : Result<map<Objective, Option<CompressionResult>>, string>
  {
    if points != [] && !Supported(algorithm) then Err("ValueError: Unsupported algorithm: " + algorithm)
    else Ok(Winners3(Profiled(algorithm, measure, points)))
  }

  /**
   * A four-objective search over no point returns every entry unset; a
   * search that returns has exactly the four keys.
   */
  lemma Outcome4Shape(algorithm: string, measure: (string, Params) -> Measurement, points: seq<Params>)
    ensures points == [] ==> Outcome4(algorithm, measure, points) == Ok(Unset4)
    ensures Outcome4(algorithm, measure, points).Ok? ==> Outcome4(algorithm, measure, points).value.Keys == Unset4.Keys
  {
  }

  /**
   * The LZ4 and gzip searches: every entry unset over no point, and never an
   * `optimizedCompressionRatio` key.
   */
  lemma Outcome3Shape(algorithm: string, measure: (string, Params) -> Measurement, points: seq<Params>)
    ensures points == [] ==> Outcome3(algorithm, measure, points) == Ok(Unset3)
    ensures Outcome3(algorithm, measure, points).Ok? ==> Outcome3(algorithm, measure, points).value.Keys == Unset3.Keys
  {
  }

  /** The loop state of a four-objective search, after the results `rs`. */
  predicate Tracks4(results: map<Objective, Option<CompressionResult>>,
                    minTime: Bound, minMemory: Bound, maxPercentage: Bound, maxRatio: Bound,
                    rs: seq<CompressionResult>)
  {
    && results.Keys == {OptimizedTime, OptimizedPeakMemory, OptimizedCompressionPercentage, OptimizedCompressionRatio}
    && results[OptimizedTime] == MinFold(rs, TimeTaken).1
    && results[OptimizedPeakMemory] == MinFold(rs, PeakMemory).1
    && results[OptimizedCompressionPercentage] == MaxFold(rs, Percentage).1
    && results[OptimizedCompressionRatio] == MaxFold(rs, Ratio).1
    && minTime == MinFold(rs, TimeTaken).0
    && minMemory == MinFold(rs, PeakMemory).0
    && maxPercentage == MaxFold(rs, Percentage).0
    && maxRatio == MaxFold(rs, Ratio).0
  }

  predicate Tracks3(results: map<Objective, Option<CompressionResult>>,
                    minTime: Bound, minMemory: Bound, maxPercentage: Bound,
                    rs: seq<CompressionResult>)
  {
    && results.Keys == {OptimizedTime, OptimizedPeakMemory, OptimizedCompressionPercentage}
    && results[OptimizedTime] == MinFold(rs, TimeTaken).1
    && results[OptimizedPeakMemory] == MinFold(rs, PeakMemory).1
    && results[OptimizedCompressionPercentage] == MaxFold(rs, Percentage).1
    && minTime == MinFold(rs, TimeTaken).0
    && minMemory == MinFold(rs, PeakMemory).0
    && maxPercentage == MaxFold(rs, Percentage).0
  }

  lemma Tracked4(results: map<Objective, Option<CompressionResult>>,
                 minTime: Bound, minMemory: Bound, maxPercentage: Bound, maxRatio: Bound,
                 rs: seq<CompressionResult>)
    requires Tracks4(results, minTime, minMemory, maxPercentage, maxRatio, rs)
    ensures results == Winners4(rs)
  {
  }

  lemma Tracked3(results: map<Objective, Option<CompressionResult>>,
                 minTime: Bound, minMemory: Bound, maxPercentage: Bound,
                 rs: seq<CompressionResult>)
    requires Tracks3(results, minTime, minMemory, maxPercentage, rs)
    ensures results == Winners3(rs)
  {
  }

  /** The fold facts one more result needs. */
  lemma Observe(rs: seq<CompressionResult>, r: CompressionResult)
    ensures MinFold(rs + [r], TimeTaken) ==
      if Below(r.timeTaken, MinFold(rs, TimeTaken).0) then (Val(r.timeTaken), Some(r)) else MinFold(rs, TimeTaken)
    ensures MinFold(rs + [r], PeakMemory) ==
      if Below(r.peakMemoryUsage, MinFold(rs, PeakMemory).0) then (Val(r.peakMemoryUsage), Some(r))
      else MinFold(rs, PeakMemory)
    ensures MaxFold(rs + [r], Percentage) ==
      if Above(r.compressionPercentage, MaxFold(rs, Percentage).0) then (Val(r.compressionPercentage), Some(r))
      else MaxFold(rs, Percentage)
    ensures MaxFold(rs + [r], Ratio) ==
      if Above(r.compressionRatio, MaxFold(rs, Ratio).0) then (Val(r.compressionRatio), Some(r))
      else MaxFold(rs, Ratio)
  {
    MinFoldSnoc(rs, r, TimeTaken);
    MinFoldSnoc(rs, r, PeakMemory);
    MaxFoldSnoc(rs, r, Percentage);
    MaxFoldSnoc(rs, r, Ratio);
  }

  /**
   * The comparisons of one loop iteration of a four-objective search: a
   * result takes an objective when it is strictly better than the bound.
   */
  method Consider4(result: CompressionResult,
                   optimalResults: map<Objective, Option<CompressionResult>>,
                   minimumTimeTaken: Bound, minimumPeakMemoryUsage: Bound,
                   maximumCompressionPercentage: Bound, maximumCompressionRatio: Bound,
                   ghost rs: seq<CompressionResult>)
    returns (results': map<Objective, Option<CompressionResult>>,
             minTime': Bound, minMemory': Bound, maxPercentage': Bound, maxRatio': Bound)
    requires Tracks4(optimalResults, minimumTimeTaken, minimumPeakMemoryUsage,
                     maximumCompressionPercentage, maximumCompressionRatio, rs)
    ensures Tracks4(results', minTime', minMemory', maxPercentage', maxRatio', rs + [result])
  {
    Observe(rs, result);
    results', minTime', minMemory', maxPercentage', maxRatio' :=
      optimalResults, minimumTimeTaken, minimumPeakMemoryUsage, maximumCompressionPercentage, maximumCompressionRatio;
    if Below(result.timeTaken, minTime') {
      minTime' := Val(result.timeTaken);
      results' := results'[OptimizedTime := Some(result)];
    }
    if Below(result.peakMemoryUsage, minMemory') {
      minMemory' := Val(result.peakMemoryUsage);
      results' := results'[OptimizedPeakMemory := Some(result)];
    }
    if Above(result.compressionPercentage, maxPercentage') {
      maxPercentage' := Val(result.compressionPercentage);
      results' := results'[OptimizedCompressionPercentage := Some(result)];
    }
    if Above(result.compressionRatio, maxRatio') {
      maxRatio' := Val(result.compressionRatio);
      results' := results'[OptimizedCompressionRatio := Some(result)];
    }
  }

  /** The comparisons of one loop iteration of a three-objective search. */
  method Consider3(result: CompressionResult,
                   optimalResults: map<Objective, Option<CompressionResult>>,
                   minimumTimeTaken: Bound, minimumPeakMemoryUsage: Bound, maximumCompressionPercentage: Bound,
                   ghost rs: seq<CompressionResult>)
    returns (results': map<Objective, Option<CompressionResult>>,
             minTime': Bound, minMemory': Bound, maxPercentage': Bound)
    requires Tracks3(optimalResults, minimumTimeTaken, minimumPeakMemoryUsage, maximumCompressionPercentage, rs)
    ensures Tracks3(results', minTime', minMemory', maxPercentage', rs + [result])
  {
    Observe(rs, result);
    results', minTime', minMemory', maxPercentage' :=
      optimalResults, minimumTimeTaken, minimumPeakMemoryUsage, maximumCompressionPercentage;
    if Below(result.timeTaken, minTime') {
      minTime' := Val(result.timeTaken);
      results' := results'[OptimizedTime := Some(result)];
    }
    if Below(result.peakMemoryUsage, minMemory') {
      minMemory' := Val(result.peakMemoryUsage);
      results' := results'[OptimizedPeakMemory := Some(result)];
    }
    if Above(result.compressionPercentage, maxPercentage') {
      maxPercentage' := Val(result.compressionPercentage);
      results' := results'[OptimizedCompressionPercentage := Some(result)];
    }
  }

  /** `run_zstd_grid_search`: one level at a time, four objectives. */
  method ZstdGridSearch(algorithm: string, measure: (string, Params) -> Measurement, levels: seq<int>)
    returns (r: Result<map<Objective, Option<CompressionResult>>, string>, ghost visited: seq<Params>)
    ensures r == Outcome4(algorithm, measure, ZstdGrid(levels))
    ensures r.Ok? ==> visited == ZstdGrid(levels)
    ensures r.Err? ==> |visited| == 1
  {
    var optimalResults := Unset4;
    var minimumTimeTaken := PosInf;
    var minimumPeakMemoryUsage := PosInf;
    var maximumCompressionPercentage := NegInf;
    var maximumCompressionRatio := NegInf;
    ghost var grid := ZstdGrid(levels);
    ghost var rs := [];
    visited := [];
    for i := 0 to |levels|
      invariant visited == grid[..i]
      invariant Supported(algorithm) || visited == []
      invariant rs == Profiled(algorithm, measure, visited)
      invariant Tracks4(optimalResults, minimumTimeTaken, minimumPeakMemoryUsage,
                        maximumCompressionPercentage, maximumCompressionRatio, rs)
    {
      var p := ZstdPoint(levels[i]);
      var profiled := Profile(algorithm, measure, p);
      SliceSnoc(grid, i);
      ProfiledSnoc(algorithm, measure, visited, p);
      visited := visited + [p];
      if profiled.Err? {
        r := Err(profiled.error);
        return;
      }
      var result := profiled.value;
      optimalResults, minimumTimeTaken, minimumPeakMemoryUsage, maximumCompressionPercentage, maximumCompressionRatio :=
        Consider4(result, optimalResults, minimumTimeTaken, minimumPeakMemoryUsage,
                  maximumCompressionPercentage, maximumCompressionRatio, rs);
      rs := rs + [result];
    }
    assert grid[..|levels|] == grid;
    Tracked4(optimalResults, minimumTimeTaken, minimumPeakMemoryUsage,
             maximumCompressionPercentage, maximumCompressionRatio, rs);
    r := Ok(optimalResults);
  }

  /** `run_gzip_grid_search`: one level at a time, three objectives. */
  method GzipGridSearch(algorithm: string, measure: (string, Params) -> Measurement, levels: seq<int>)
    returns (r: Result<map<Objective, Option<CompressionResult>>, string>, ghost visited: seq<Params>)
    ensures r == Outcome3(algorithm, measure, GzipGrid(levels))
    ensures r.Ok? ==> visited == GzipGrid(levels)
    ensures r.Err? ==> |visited| == 1
  {
    var optimalResults := Unset3;
    var minimumTimeTaken := PosInf;
    var minimumPeakMemoryUsage := PosInf;
    var maximumCompressionPercentage := NegInf;
    ghost var grid := GzipGrid(levels);
    ghost var rs := [];
    visited := [];
    for i := 0 to |levels|
      invariant visited == grid[..i]
      invariant Supported(algorithm) || visited == []
      invariant rs == Profiled(algorithm, measure, visited)
      invariant Tracks3(optimalResults, minimumTimeTaken, minimumPeakMemoryUsage, maximumCompressionPercentage, rs)
    {
      var p := GzipPoint(levels[i]);
      var profiled := Profile(algorithm, measure, p);
      SliceSnoc(grid, i);
      ProfiledSnoc(algorithm, measure, visited, p);
      visited := visited + [p];
      if profiled.Err? {
        r := Err(profiled.error);
        return;
      }
      var result := profiled.value;
      optimalResults, minimumTimeTaken, minimumPeakMemoryUsage, maximumCompressionPercentage :=
        Consider3(result, optimalResults, minimumTimeTaken, minimumPeakMemoryUsage, maximumCompressionPercentage, rs);
      rs := rs + [result];
    }
    assert grid[..|levels|] == grid;
    Tracked3(optimalResults, minimumTimeTaken, minimumPeakMemoryUsage, maximumCompressionPercentage, rs);
    r := Ok(optimalResults);
  }

  /** `run_lz4_grid_search`: level outer, block size inner, three objectives. */
  method Lz4GridSearch(algorithm: string, measure: (string, Params) -> Measurement,
                       levels: seq<int>, blockSizes: seq<int>)
    returns (r: Result<map<Objective, Option<CompressionResult>>, string>, ghost visited: seq<Params>)
    ensures r == Outcome3(algorithm, measure, Lz4Grid(levels, blockSizes))
    ensures r.Ok? ==> visited == Lz4Grid(levels, blockSizes)
    ensures r.Err? ==> |visited| == 1
  {
    var optimalResults := Unset3;
    var minimumTimeTaken := PosInf;
    var minimumPeakMemoryUsage := PosInf;
    var maximumCompressionPercentage := NegInf;
    ghost var rows := Lz4Rows(levels, blockSizes);
    ghost var rs := [];
    visited := [];
    for i := 0 to |levels|
      invariant visited == Concat(rows[..i])
      invariant Supported(algorithm) || visited == []
      invariant rs == Profiled(algorithm, measure, visited)
      invariant Tracks3(optimalResults, minimumTimeTaken, minimumPeakMemoryUsage, maximumCompressionPercentage, rs)
    {
      for k := 0 to |blockSizes|
        invariant visited == Concat(rows[..i]) + rows[i][..k]
        invariant Supported(algorithm) || visited == []
        invariant rs == Profiled(algorithm, measure, visited)
        invariant Tracks3(optimalResults, minimumTimeTaken, minimumPeakMemoryUsage, maximumCompressionPercentage, rs)
      {
        var p := Lz4Point(levels[i], blockSizes[k]);
        var profiled := Profile(algorithm, measure, p);
        PrefixSnoc(Concat(rows[..i]), rows[i], k);
        ProfiledSnoc(algorithm, measure, visited, p);
        visited := visited + [p];
        if profiled.Err? {
          Lz4GridEmpty(levels, blockSizes);
          r := Err(profiled.error);
          return;
        }
        var result := profiled.value;
        optimalResults, minimumTimeTaken, minimumPeakMemoryUsage, maximumCompressionPercentage :=
          Consider3(result, optimalResults, minimumTimeTaken, minimumPeakMemoryUsage, maximumCompressionPercentage, rs);
        rs := rs + [result];
      }
      assert rows[i][..|blockSizes|] == rows[i];
      ConcatSnoc(rows, i);
    }
    ConcatAll(rows);
    Tracked3(optimalResults, minimumTimeTaken, minimumPeakMemoryUsage, maximumCompressionPercentage, rs);
    r := Ok(optimalResults);
  }

  /** `run_brotli_grid_search`: quality, then mode, then lgwin, four objectives. */
  method BrotliGridSearch(algorithm: string, measure: (string, Params) -> Measurement,
                          qualities: seq<int>, modes: seq<int>, lgwins: seq<int>)
    returns (r: Result<map<Objective, Option<CompressionResult>>, string>, ghost visited: seq<Params>)
    ensures r == Outcome4(algorithm, measure, BrotliGrid(qualities, modes, lgwins))
    ensures r.Ok? ==> visited == BrotliGrid(qualities, modes, lgwins)
    ensures r.Err? ==> |visited| == 1
  {
    var optimalResults := Unset4;
    var minimumTimeTaken := PosInf;
    var minimumPeakMemoryUsage := PosInf;
    var maximumCompressionPercentage := NegInf;
    var maximumCompressionRatio := NegInf;
    ghost var planes := BrotliPlanes(qualities, modes, lgwins);
    ghost var rs := [];
    visited := [];
    for i := 0 to |qualities|
      invariant visited == Concat(planes[..i])
      invariant Supported(algorithm) || visited == []
      invariant rs == Profiled(algorithm, measure, visited)
      invariant Tracks4(optimalResults, minimumTimeTaken, minimumPeakMemoryUsage,
                        maximumCompressionPercentage, maximumCompressionRatio, rs)
    {
      ghost var done := visited;
      ghost var rows := BrotliRows(qualities[i], modes, lgwins);
      for j := 0 to |modes|
        invariant visited == done + Concat(rows[..j])
        invariant Supported(algorithm) || visited == []
        invariant rs == Profiled(algorithm, measure, visited)
        invariant Tracks4(optimalResults, minimumTimeTaken, minimumPeakMemoryUsage,
                          maximumCompressionPercentage, maximumCompressionRatio, rs)
      {
        ghost var doneRows := visited;
        for k := 0 to |lgwins|
          invariant visited == doneRows + rows[j][..k]
          invariant Supported(algorithm) || visited == []
          invariant rs == Profiled(algorithm, measure, visited)
          invariant Tracks4(optimalResults, minimumTimeTaken, minimumPeakMemoryUsage,
                            maximumCompressionPercentage, maximumCompressionRatio, rs)
        {
          var p := BrotliPoint(qualities[i], modes[j], lgwins[k]);
          var profiled := Profile(algorithm, measure, p);
          PrefixSnoc(doneRows, rows[j], k);
          ProfiledSnoc(algorithm, measure, visited, p);
          visited := visited + [p];
          if profiled.Err? {
            BrotliGridEmpty(qualities, modes, lgwins);
            r := Err(profiled.error);
            return;
          }
          var result := profiled.value;
          optimalResults, minimumTimeTaken, minimumPeakMemoryUsage, maximumCompressionPercentage, maximumCompressionRatio :=
            Consider4(result, optimalResults, minimumTimeTaken, minimumPeakMemoryUsage,
                      maximumCompressionPercentage, maximumCompressionRatio, rs);
          rs := rs + [result];
        }
        assert rows[j][..|lgwins|] == rows[j];
        ConcatExtend(done, rows, j);
      }
      ConcatAll(rows);
      ConcatSnoc(planes, i);
    }
    ConcatAll(planes);
    Tracked4(optimalResults, minimumTimeTaken, minimumPeakMemoryUsage,
             maximumCompressionPercentage, maximumCompressionRatio, rs);
    r := Ok(optimalResults);
  }
}
