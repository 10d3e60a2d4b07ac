/**
 * The earlier grid-search optimizer of `optimizer_utils.py` (top level):
 * three objectives in every search (least time, least memory, greatest
 * compression percentage), `profile` knows only Brotli, gzip and LZ4, and the
 * memory figure it reports is the traced memory still allocated when the run
 * ends, not the peak.
 *
 * As in the later optimizer, the compression and the clock and tracemalloc
 * readings come from outside: `measure(algorithm, point)` is what one
 * profiled run reports.
 */
module Optimizer {
  import opened Wrappers
  import opened Sweep

  /** One profiled run: the parameters it was given and what was measured. */
  datatype CompressionResult = CompressionResult(
    quality: Option<int>,
    mode: Option<int>,
    lgwin: Option<int>,
    compressLevel: Option<int>,
    compressionLevel: Option<int>,
    blockSize: Option<int>,
    timeTaken: real,
    peakMemoryUsage: real,
    compressionPercentage: real)

  /** The parameters recorded in a result; this `profile` takes no Zstandard level. */
  function ParamsOf(r: CompressionResult): Params
  {
    Params(None, r.compressionLevel, r.blockSize, r.compressLevel, r.quality, r.mode, r.lgwin)
  }

  /** Bytes per megabyte in the reported memory figure. */
  const BytesPerMegabyte: real := 1000000.0

  /** The algorithms `profile` has a branch for; the Zstandard and Snappy branches are commented out. */
  predicate Supported(algorithm: string)
  {
    algorithm == "brotli" || algorithm == "gzip" || algorithm == "lz4"
  }

  /**
   * The error raised when no branch assigned the compression result, in the
   * wording of CPython before 3.11 (later versions say "cannot access local
   * variable 'result' where it is not associated with a value").
   */
  const Unbound := "UnboundLocalError: local variable 'result' referenced before assignment"

  /** The error raised when the LZ4 and gzip searches log a row. */
  const Undefined := "NameError: name 'quality' is not defined"

  /** The result `profile` builds once the compression has run. */
  function Measured(algorithm: string, measure: (string, Params) -> Measurement, p: Params): CompressionResult
  {
    var m := measure(algorithm, p);
    CompressionResult(p.quality, p.mode, p.lgwin, p.compressLevel, p.compressionLevel, p.blockSize,
      m.seconds, m.currentBytes / BytesPerMegabyte, m.percentage)
  }

  /**
   * `profile`: dispatch on the algorithm name. For a name without a branch
   * the compression result is never assigned and reading it fails. The
   * result records the parameters it was called with, and as its
   * `peakMemoryUsage` the current, not the peak, traced memory in megabytes.
   */
  function Profile(algorithm: string, measure: (string, Params) -> Measurement, p: Params)
    : (r: Result<CompressionResult, string>)
    ensures r.Err? <==> !Supported(algorithm)
    ensures r.Err? ==> r.error == Unbound
    ensures r.Ok? ==> ParamsOf(r.value) == p.(level := None)
    ensures r.Ok? ==> r.value.peakMemoryUsage * BytesPerMegabyte == measure(algorithm, p).currentBytes
    ensures r.Ok? ==> r.value.timeTaken == measure(algorithm, p).seconds
  {
    if algorithm == "brotli" || algorithm == "gzip" || algorithm == "lz4" then
      Ok(Measured(algorithm, measure, p))
    else
      Err(Unbound)
  }

  /** The results of profiling each point in turn. */
  function Profiled(algorithm: string, measure: (string, Params) -> Measurement, points: seq<Params>)
    : seq<CompressionResult>
  {
    seq(|points|, i requires 0 <= i < |points| => Measured(algorithm, measure, points[i]))
  }

  lemma ProfiledSnoc(algorithm: string, measure: (string, Params) -> Measurement, points: seq<Params>, p: Params)
    ensures Profiled(algorithm, measure, points + [p]) ==
      Profiled(algorithm, measure, points) + [Measured(algorithm, measure, p)]
  {
  }

  function TimeTaken(r: CompressionResult): real { r.timeTaken }
  function PeakMemory(r: CompressionResult): real { r.peakMemoryUsage }
  function Percentage(r: CompressionResult): real { r.compressionPercentage }

  /** The dictionary every search starts from: three objectives, none decided. */
  const Unset: map<Objective, Option<CompressionResult>> :=
    map[OptimizedTime := None, OptimizedPeakMemory := None, OptimizedCompressionPercentage := None]

  /** `optimalResults` after the results `rs`. */
  function Winners(rs: seq<CompressionResult>): map<Objective, Option<CompressionResult>>
  {
    map[OptimizedTime := MinFold(rs, TimeTaken).1,
        OptimizedPeakMemory := MinFold(rs, PeakMemory).1,
        OptimizedCompressionPercentage := MaxFold(rs, Percentage).1]
  }

  /**
   * After at least one point, each objective's winner is the first visited
   * result that is best for it, and records the parameters of its iteration.
   */
  lemma WinnersBest(algorithm: string, measure: (string, Params) -> Measurement, points: seq<Params>)
    returns (it: nat, im: nat, ip: nat)
    requires points != []
    ensures var rs := Profiled(algorithm, measure, points);
      && IsFirstMin(rs, TimeTaken, it) && Winners(rs)[OptimizedTime] == Some(rs[it])
      && IsFirstMin(rs, PeakMemory, im) && Winners(rs)[OptimizedPeakMemory] == Some(rs[im])
      && IsFirstMax(rs, Percentage, ip) && Winners(rs)[OptimizedCompressionPercentage] == Some(rs[ip])
      && ParamsOf(rs[it]) == points[it].(level := None)
      && ParamsOf(rs[im]) == points[im].(level := None)
      && ParamsOf(rs[ip]) == points[ip].(level := None)
  {
    var rs := Profiled(algorithm, measure, points);
    it := MinFoldFirstMin(rs, TimeTaken);
    im := MinFoldFirstMin(rs, PeakMemory);
    ip := MaxFoldFirstMax(rs, Percentage);
  }

  /**
   * What a search over `points` returns or raises: an unknown algorithm fails
   * in the first `profile`; logging fails right after the first result when
   * `logs` is set.
   */
  function Outcome(algorithm: string, measure: (string, Params) -> Measurement, logs: bool, points: seq<Params>)
    : Result<map<Objective, Option<CompressionResult>>, string>
  {
    if points != [] && !Supported(algorithm) then Err(Unbound)
    else if points != [] && logs then Err(Undefined)
    else Ok(Winners(Profiled(algorithm, measure, points)))
  }

  /**
   * A search over no point returns every entry unset, whatever the algorithm
   * and the flag; a search that returns has exactly the three keys.
   */
  lemma OutcomeShape(algorithm: string, measure: (string, Params) -> Measurement, logs: bool, points: seq<Params>)
    ensures points == [] ==> Outcome(algorithm, measure, logs, points) == Ok(Unset)
    ensures Outcome(algorithm, measure, logs, points).Ok? ==> Outcome(algorithm, measure, logs, points).value.Keys == Unset.Keys
  {
  }

  /** The loop state of a search, after the results `rs`. */
  predicate Tracks(results: map<Objective, Option<CompressionResult>>,
                   minTime: Bound, minMemory: Bound, maxPercentage: Bound,
                   rs: seq<CompressionResult>)
  {
    && results.Keys == {OptimizedTime, OptimizedPeakMemory, OptimizedCompressionPercentage}
    && results[OptimizedTime] == MinFold(rs, TimeTaken).1
    && results[OptimizedPeakMemory] == MinFold(rs, PeakMemory).1
    && results[OptimizedCompressionPercentage] == MaxFold(rs, Percentage).1
    && minTime == MinFold(rs, TimeTaken).0
    && minMemory == MinFold(rs, PeakMemory).0
    && maxPercentage == MaxFold(rs, Percentage).0
  }

  lemma Tracked(results: map<Objective, Option<CompressionResult>>,
                minTime: Bound, minMemory: Bound, maxPercentage: Bound,
                rs: seq<CompressionResult>)
    requires Tracks(results, minTime, minMemory, maxPercentage, rs)
    ensures results == Winners(rs)
  {
  }

  /** The comparisons of one loop iteration: strictly better takes the objective. */
  method Consider(result: CompressionResult,
                  optimalResults: map<Objective, Option<CompressionResult>>,
                  minimumTimeTaken: Bound, minimumPeakMemoryUsage: Bound, maximumCompressionPercentage: Bound,
                  ghost rs: seq<CompressionResult>)
    returns (results': map<Objective, Option<CompressionResult>>,
             minTime': Bound, minMemory': Bound, maxPercentage': Bound)
    requires Tracks(optimalResults, minimumTimeTaken, minimumPeakMemoryUsage, maximumCompressionPercentage, rs)
    ensures Tracks(results', minTime', minMemory', maxPercentage', rs + [result])
  {
    MinFoldSnoc(rs, result, TimeTaken);
    MinFoldSnoc(rs, result, PeakMemory);
    MaxFoldSnoc(rs, result, Percentage);
    results', minTime', minMemory', maxPercentage' :=
      optimalResults, minimumTimeTaken, minimumPeakMemoryUsage, maximumCompressionPercentage;
    if Below(result.timeTaken, minTime') {
      minTime' := Val(result.timeTaken);
      results' := results'[OptimizedTime := Some(result)];
    }
    if Below(result.peakMemoryUsage, minMemory') {
      minMemory' := Val(result.peakMemoryUsage);
      results' := results'[OptimizedPeakMemory := Some(result)];
    }
    if Above(result.compressionPercentage, maxPercentage') {
      maxPercentage' := Val(result.compressionPercentage);
      results' := results'[OptimizedCompressionPercentage := Some(result)];
    }
  }

  /**
   * `run_lz4_grid_search`: level outer, block size inner. Its log line names
   * the Brotli loop variables, which do not exist here.
   */
  method Lz4GridSearch(algorithm: string, measure: (string, Params) -> Measurement, logFlag: bool,
                       levels: seq<int>, blockSizes: seq<int>)
    returns (r: Result<map<Objective, Option<CompressionResult>>, string>, ghost visited: seq<Params>)
    ensures r == Outcome(algorithm, measure, logFlag, Lz4Grid(levels, blockSizes))
    ensures r.Ok? ==> visited == Lz4Grid(levels, blockSizes)
    ensures r.Err? ==> |visited| == 1
  {
    var optimalResults := Unset;
    var minimumTimeTaken := PosInf;
    var minimumPeakMemoryUsage := PosInf;
    var maximumCompressionPercentage := NegInf;
    ghost var rows := Lz4Rows(levels, blockSizes);
    ghost var rs := [];
    visited := [];
    for i := 0 to |levels|
      invariant visited == Concat(rows[..i])
      invariant (Supported(algorithm) && !logFlag) || visited == []
      invariant rs == Profiled(algorithm, measure, visited)
      invariant Tracks(optimalResults, minimumTimeTaken, minimumPeakMemoryUsage, maximumCompressionPercentage, rs)
    {
      for k := 0 to |blockSizes|
        invariant visited == Concat(rows[..i]) + rows[i][..k]
        invariant (Supported(algorithm) && !logFlag) || visited == []
        invariant rs == Profiled(algorithm, measure, visited)
        invariant Tracks(optimalResults, minimumTimeTaken, minimumPeakMemoryUsage, maximumCompressionPercentage, rs)
      {
        var p := Lz4Point(levels[i], blockSizes[k]);
        var profiled := Profile(algorithm, measure, p);
        PrefixSnoc(Concat(rows[..i]), rows[i], k);
        ProfiledSnoc(algorithm, measure, visited, p);
        visited := visited + [p];
        if profiled.Err? {
          Lz4GridEmpty(levels, blockSizes);
          r := Err(profiled.error);
          return;
        }
        var result := profiled.value;
        optimalResults, minimumTimeTaken, minimumPeakMemoryUsage, maximumCompressionPercentage :=
          Consider(result, optimalResults, minimumTimeTaken, minimumPeakMemoryUsage, maximumCompressionPercentage, rs);
        rs := rs + [result];
        if logFlag {
          Lz4GridEmpty(levels, blockSizes);
          r := Err(Undefined);
          return;
        }
      }
      assert rows[i][..|blockSizes|] == rows[i];
      ConcatSnoc(rows, i);
    }
    ConcatAll(rows);
    Tracked(optimalResults, minimumTimeTaken, minimumPeakMemoryUsage, maximumCompressionPercentage, rs);
    r := Ok(optimalResults);
  }

  /** `run_gzip_grid_search`: one level at a time; its log line fails like the LZ4 one. */
  method GzipGridSearch(algorithm: string, measure: (string, Params) -> Measurement, logFlag: bool,
                        levels: seq<int>)
    returns (r: Result<map<Objective, Option<CompressionResult>>, string>, ghost visited: seq<Params>)
    ensures r == Outcome(algorithm, measure, logFlag, GzipGrid(levels))
    ensures r.Ok? ==> visited == GzipGrid(levels)
    ensures r.Err? ==> |visited| == 1
  {
    var optimalResults := Unset;
    var minimumTimeTaken := PosInf;
    var minimumPeakMemoryUsage := PosInf;
    var maximumCompressionPercentage := NegInf;
    ghost var grid := GzipGrid(levels);
    ghost var rs := [];
    visited := [];
    for i := 0 to |levels|
      invariant visited == grid[..i]
      invariant (Supported(algorithm) && !logFlag) || visited == []
      invariant rs == Profiled(algorithm, measure, visited)
      invariant Tracks(optimalResults, minimumTimeTaken, minimumPeakMemoryUsage, maximumCompressionPercentage, rs)
    {
      var p := GzipPoint(levels[i]);
      var profiled := Profile(algorithm, measure, p);
      SliceSnoc(grid, i);
      ProfiledSnoc(algorithm, measure, visited, p);
      visited := visited + [p];
      if profiled.Err? {
        assert visited == [p] && grid != [];
        r := Err(profiled.error);
        return;
      }
      var result := profiled.value;
      optimalResults, minimumTimeTaken, minimumPeakMemoryUsage, maximumCompressionPercentage :=
        Consider(result, optimalResults, minimumTimeTaken, minimumPeakMemoryUsage, maximumCompressionPercentage, rs);
      rs := rs + [result];
      if logFlag {
        assert visited == [p] && grid != [];
        r := Err(Undefined);
        return;
      }
    }
    assert visited == grid[..|levels|] == grid;
    Tracked(optimalResults, minimumTimeTaken, minimumPeakMemoryUsage, maximumCompressionPercentage, rs);
    r := Ok(optimalResults);
  }

  /** `run_brotli_grid_search`: quality, then mode, then lgwin; its log line only prints. */
  method BrotliGridSearch(algorithm: string, measure: (string, Params) -> Measurement,
                          qualities: seq<int>, modes: seq<int>, lgwins: seq<int>)
    returns (r: Result<map<Objective, Option<CompressionResult>>, string>, ghost visited: seq<Params>)
    ensures r == Outcome(algorithm, measure, false, BrotliGrid(qualities, modes, lgwins))
    ensures r.Ok? ==> visited == BrotliGrid(qualities, modes, lgwins)
    ensures r.Err? ==> |visited| == 1
  {
    var optimalResults := Unset;
    var minimumTimeTaken := PosInf;
    var minimumPeakMemoryUsage := PosInf;
    var maximumCompressionPercentage := NegInf;
    ghost var planes := BrotliPlanes(qualities, modes, lgwins);
    ghost var rs := [];
    visited := [];
    for i := 0 to |qualities|
      invariant visited == Concat(planes[..i])
      invariant Supported(algorithm) || visited == []
      invariant rs == Profiled(algorithm, measure, visited)
      invariant Tracks(optimalResults, minimumTimeTaken, minimumPeakMemoryUsage, maximumCompressionPercentage, rs)
    {
      ghost var done := visited;
      ghost var rows := BrotliRows(qualities[i], modes, lgwins);
      for j := 0 to |modes|
        invariant visited == done + Concat(rows[..j])
        invariant Supported(algorithm) || visited == []
        invariant rs == Profiled(algorithm, measure, visited)
        invariant Tracks(optimalResults, minimumTimeTaken, minimumPeakMemoryUsage, maximumCompressionPercentage, rs)
      {
        ghost var doneRows := visited;
        for k := 0 to |lgwins|
          invariant visited == doneRows + rows[j][..k]
          invariant Supported(algorithm) || visited == []
          invariant rs == Profiled(algorithm, measure, visited)
          invariant Tracks(optimalResults, minimumTimeTaken, minimumPeakMemoryUsage, maximumCompressionPercentage, rs)
        {
          var p := BrotliPoint(qualities[i], modes[j], lgwins[k]);
          var profiled := Profile(algorithm, measure, p);
          PrefixSnoc(doneRows, rows[j], k);
          ProfiledSnoc(algorithm, measure, visited, p);
          visited := visited + [p];
          if profiled.Err? {
            BrotliGridEmpty(qualities, modes, lgwins);
            r := Err(profiled.error);
            return;
          }
          var result := profiled.value;
          optimalResults, minimumTimeTaken, minimumPeakMemoryUsage, maximumCompressionPercentage :=
            Consider(result, optimalResults, minimumTimeTaken, minimumPeakMemoryUsage, maximumCompressionPercentage, rs);
          rs := rs + [result];
        }
        assert rows[j][..|lgwins|] == rows[j];
        ConcatExtend(done, rows, j);
      }
      ConcatAll(rows);
      ConcatSnoc(planes, i);
    }
    ConcatAll(planes);
    Tracked(optimalResults, minimumTimeTaken, minimumPeakMemoryUsage, maximumCompressionPercentage, rs);
    r := Ok(optimalResults);
  }
}
