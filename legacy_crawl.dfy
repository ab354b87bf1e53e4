/**
 * The older crawler (libmedusa-zip/src/crawl.rs). Its paths, results,
 * clean-up, conversion to file sources and traversal are those of the
 * current one; `MedusaCrawl::crawl_paths` differs only in reading the
 * working directory after the paths have been crawled rather than before.
 */
module LegacyCrawl {
  import opened Wrappers
  import opened Paths
  import opened Crawl

  /** The older `MedusaCrawl::crawl_paths`, as a value: the crawl first, then the working directory. */
  function LegacyCrawlPathsResult(paths: seq<Path>, fs: map<Path, Node>, ignores: string -> bool, cwd: Option<Path>, fuel: nat)
    : Result<CrawlResult, CrawlError>
    requires WellFormed(fs)
  {
    match CrawlAll(paths, fs, ignores, fuel)
    case Err(e) => Err(e)
    case Ok(results) =>
      if cwd.None? then Err(Io(CurrentDirUnavailable))
      else Ok(CrawlResult(CleanedUpAll(Merge(results).realFilePaths, cwd.value)))
  }

  /** The older `MedusaCrawl::crawl_paths`: the merged result is cleaned up in place once every path is crawled. */
  method LegacyCrawlPaths(paths: seq<Path>, fs: map<Path, Node>, ignores: string -> bool, cwd: Option<Path>, fuel: nat)
    returns (r: Result<CrawlResult, CrawlError>)
    requires WellFormed(fs)
    ensures r == LegacyCrawlPathsResult(paths, fs, ignores, cwd, fuel)
  {
    var results := CrawlAll(paths, fs, ignores, fuel);
    if results.Err? {
      return Err(results.error);
    }
    if cwd.None? {
      return Err(Io(CurrentDirUnavailable));
    }
    var merged := Merge(results.value).realFilePaths;
    var buffer := new ResolvedPath[|merged|](k requires 0 <= k < |merged| => merged[k]);
    assert buffer[..] == merged;
    CleanUpForExport(buffer, cwd.value);
    r := Ok(CrawlResult(buffer[..]));
  }

  /**
   * The two generations give the same result except when both the working
   * directory and some path fail: the current one then reports the working
   * directory, the older one the path.
   */
  lemma LegacyCrawlAgrees(paths: seq<Path>, fs: map<Path, Node>, ignores: string -> bool, cwd: Option<Path>, fuel: nat)
    requires WellFormed(fs)
    ensures cwd.Some? || CrawlAll(paths, fs, ignores, fuel).Ok? ==>
      LegacyCrawlPathsResult(paths, fs, ignores, cwd, fuel) == CrawlPathsResult(paths, fs, ignores, cwd, fuel)
    ensures cwd.None? && CrawlAll(paths, fs, ignores, fuel).Err? ==>
      && CrawlPathsResult(paths, fs, ignores, cwd, fuel) == Err(Io(CurrentDirUnavailable))
      && LegacyCrawlPathsResult(paths, fs, ignores, cwd, fuel) == Err(CrawlAll(paths, fs, ignores, fuel).error)
  {
  }
}
