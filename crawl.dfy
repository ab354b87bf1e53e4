/**
 * Crawling the filesystem for the files to archive (lib/src/crawl.rs).
 *
 * The filesystem is a finite map from paths to nodes: a regular file, a
 * directory listing its children in the order the platform yields them, or
 * a symbolic link with its target. Every crawled file keeps two paths: the
 * one it was reached by (which names it in the archive) and the one its
 * contents are read from, with every symbolic link on the way resolved.
 * The ignore patterns are an opaque predicate on the displayed path.
 */
module Crawl {
  import opened Wrappers
  import opened Paths
  import opened EntryNames
  import ZipPlan
  import ZipWriting

  datatype ResolvedPath = ResolvedPath(unresolved: Path, resolved: Path)

  /** `ResolvedPath::from_path`: a path as given on the command line, before any link is followed. */
  function FromPath(p: Path): ResolvedPath {
    ResolvedPath(p, p)
  }

  /** `ResolvedPath::join`: the same child on both paths. */
  function Join(rp: ResolvedPath, child: Path): ResolvedPath {
    ResolvedPath(JoinPath(rp.unresolved, child), JoinPath(rp.resolved, child))
  }

  /** Joining a path that has not been through a link keeps it so. */
  lemma JoinFromPath(p: Path, child: Path)
    ensures Join(FromPath(p), child) == FromPath(JoinPath(p, child))
  {
  }

  // ----- clean_up_for_export -----

  /**
   * `ResolvedPath::clean_up_for_export`: the leading "." components are
   * dropped from both paths, and a relative resolved path is put under the
   * working directory.
   */
  function CleanedUp(rp: ResolvedPath, cwd: Path): (r: ResolvedPath)
    ensures r.unresolved == StripCurDir(rp.unresolved)
    ensures r.unresolved.absolute == rp.unresolved.absolute
    ensures cwd.absolute ==> r.resolved.absolute
    ensures rp.resolved.absolute ==> r.resolved == rp.resolved
    ensures !rp.resolved.absolute && !cwd.absolute ==> !r.resolved.absolute
    ensures !rp.resolved.absolute ==> r.resolved.parts == cwd.parts + StripCurDir(rp.resolved).parts
  {
    var stripped := StripCurDir(rp.resolved);
    var resolved := if stripped.absolute then stripped else JoinPath(cwd, stripped);
    ResolvedPath(StripCurDir(rp.unresolved), resolved)
  }

  /** Cleaning up again leaves the resolved path where the first clean-up put it. */
  lemma CleanUpResolvedStable(rp: ResolvedPath, cwd: Path)
    requires cwd.absolute
    ensures CleanedUp(CleanedUp(rp, cwd), cwd).resolved == CleanedUp(rp, cwd).resolved
  {
  }

  function CleanedUpAll(ps: seq<ResolvedPath>, cwd: Path): (r: seq<ResolvedPath>)
    ensures |r| == |ps|
    ensures forall k :: 0 <= k < |ps| ==> r[k] == CleanedUp(ps[k], cwd)
  {
    seq(|ps|, k requires 0 <= k < |ps| => CleanedUp(ps[k], cwd))
  }

  /** `CrawlResult::clean_up_for_export`: every path cleaned up in place. */
  method CleanUpForExport(paths: array<ResolvedPath>, cwd: Path)
    modifies paths
    ensures paths[..] == CleanedUpAll(old(paths[..]), cwd)
  {
    for i := 0 to paths.Length
      invariant forall k :: 0 <= k < i ==> paths[k] == CleanedUp(old(paths[k]), cwd)
      invariant forall k :: i <= k < paths.Length ==> paths[k] == old(paths[k])
    {
      paths[i] := CleanedUp(paths[i], cwd);
    }
  }

  // ----- CrawlResult -----

  datatype CrawlResult = CrawlResult(realFilePaths: seq<ResolvedPath>)

  /** `CrawlResult::merge`: the results' paths one after the other. */
  function Merge(results: seq<CrawlResult>): CrawlResult {
    if |results| == 0 then CrawlResult([])
    else CrawlResult(results[0].realFilePaths + Merge(results[1..]).realFilePaths)
  }

  /** Merging keeps every path of every result, in result order and then in order within each. */
  lemma {:induction false} MergeAppend(a: seq<CrawlResult>, b: seq<CrawlResult>)
    ensures Merge(a + b).realFilePaths == Merge(a).realFilePaths + Merge(b).realFilePaths
  {
    if |a| == 0 {
      assert a + b == b;
    } else {
      assert (a + b)[0] == a[0] && (a + b)[1..] == a[1..] + b;
      MergeAppend(a[1..], b);
    }
  }

  /** Results of one path each merge into exactly those paths. */
  lemma {:induction false} MergeSingles(ps: seq<ResolvedPath>)
    ensures Merge(seq(|ps|, k requires 0 <= k < |ps| => CrawlResult([ps[k]]))).realFilePaths == ps
  {
    var singles := seq(|ps|, k requires 0 <= k < |ps| => CrawlResult([ps[k]]));
    if |ps| > 0 {
      MergeSingles(ps[1..]);
      assert singles[1..] == seq(|ps[1..]|, k requires 0 <= k < |ps[1..]| => CrawlResult([ps[1..][k]]));
      assert ps == [ps[0]] + ps[1..];
    }
  }

  // ----- medusa_zip -----

  /** The archive name a crawled path asks for: its unresolved path, validated. */
  function NameOf(rp: ResolvedPath): Result<EntryName, NameFormatError> {
    Validate(Display(rp.unresolved))
  }

  /**
   * The file sources of `medusa_zip`: one per path, in order, named by the
   * unresolved path and read from the resolved one; the first name that
   * does not validate fails the whole conversion.
   */
  function FileSources(ps: seq<ResolvedPath>): (r: Result<seq<FileSource>, NameFormatError>)
    ensures r.Ok? <==> forall k :: 0 <= k < |ps| ==> NameOf(ps[k]).Ok?
    ensures r.Ok? ==> |r.value| == |ps|
    ensures r.Ok? ==> forall k :: 0 <= k < |ps| ==> r.value[k] == FileSource(NameOf(ps[k]).value, ps[k].resolved)
    ensures r.Err? ==> exists k :: 0 <= k < |ps| && NameOf(ps[k]) == Err(r.error) && forall j :: 0 <= j < k ==> NameOf(ps[j]).Ok?
  {
    if |ps| == 0 then Ok([])
    else
      match NameOf(ps[0])
      case Err(e) => Err(e)
      case Ok(name) =>
        var rest := FileSources(ps[1..]);
        if rest.Err? then
          ghost var k :| 0 <= k < |ps[1..]| && NameOf(ps[1..][k]) == Err(rest.error) && forall j :: 0 <= j < k ==> NameOf(ps[1..][j]).Ok?;
          assert NameOf(ps[k + 1]) == Err(rest.error);
          Err(rest.error)
        else
          Ok([FileSource(name, ps[0].resolved)] + rest.value)
  }

  /** The description of a zip archive that `medusa_zip` hands on. */
  datatype MedusaZip = MedusaZip(
    inputFiles: seq<FileSource>,
    zipOptions: ZipWriting.ZipOutputOptions,
    modifications: ZipPlan.EntryModifications,
    parallelism: ZipWriting.Parallelism)

  /** `CrawlResult::medusa_zip`: the crawled files as validated file sources, the rest passed through. */
  function ToMedusaZip(c: CrawlResult, options: ZipWriting.ZipOutputOptions, mods: ZipPlan.EntryModifications,
                       parallelism: ZipWriting.Parallelism): (r: Result<MedusaZip, NameFormatError>)
    ensures r.Ok? <==> forall k :: 0 <= k < |c.realFilePaths| ==> NameOf(c.realFilePaths[k]).Ok?
    ensures r.Ok? ==> r.value.zipOptions == options && r.value.modifications == mods && r.value.parallelism == parallelism
    ensures r.Ok? ==> |r.value.inputFiles| == |c.realFilePaths|
    ensures r.Ok? ==> forall k :: 0 <= k < |c.realFilePaths| ==>
      r.value.inputFiles[k].name == NameOf(c.realFilePaths[k]).value && r.value.inputFiles[k].source == c.realFilePaths[k].resolved
  {
    match FileSources(c.realFilePaths)
    case Err(e) => Err(e)
    case Ok(files) => Ok(MedusaZip(files, options, mods, parallelism))
  }

  /** "./a" as a path: its text starts with "./". */
  lemma DotSlashDisplay()
    ensures Display(Path(false, [".", "a"])) == "./a"
  {
    assert Text.Join([".", "a"]) == Text.Join(["."]) + "/" + "a";
  }

  /** A path reached through a leading "." is named without it once cleaned up, and so validates. */
  lemma CleanedUpNameValidates()
    ensures NameOf(ResolvedPath(Path(false, [".", "a"]), Path(false, [".", "a"]))).Err?
    ensures NameOf(CleanedUp(ResolvedPath(Path(false, [".", "a"]), Path(false, [".", "a"])), Path(true, ["w"]))).Ok?
  {
    assert NameOf(ResolvedPath(Path(false, [".", "a"]), Path(false, [".", "a"]))).Err? by {
      DotSlashDisplay();
      assert StartsWithDotSlash("./a");
    }
    assert CleanedUp(ResolvedPath(Path(false, [".", "a"]), Path(false, [".", "a"])), Path(true, ["w"])).unresolved == Path(false, ["a"]) by {
      assert [".", "a"][1..] == ["a"];
      assert DropCurDirs([".", "a"]) == ["a"];
    }
    assert Display(Path(false, ["a"])) == "a";
    assert !HasDoubleSlash("a");
  }

  /** A root written "././a" loses both leading "." components, not just one. */
  lemma CleanedUpDropsEveryDot()
    ensures CleanedUp(ResolvedPath(Path(false, [".", ".", "a"]), Path(false, [".", ".", "a"])), Path(true, ["w"]))
            == ResolvedPath(Path(false, ["a"]), Path(true, ["w", "a"]))
  {
    assert [".", ".", "a"][1..] == [".", "a"];
    assert [".", "a"][1..] == ["a"];
    assert DropCurDirs([".", ".", "a"]) == ["a"];
  }

  // ----- crawling -----

  /** A node: a regular file, a directory listing its children, a symbolic link, or anything else (a FIFO, a socket, a device). */
  datatype Node = RegularFile | Directory(children: seq<string>) | Symlink(target: Path) | Special

  /** A symbolic link has a parent directory to resolve its target against. */
  predicate WellFormed(fs: map<Path, Node>) {
    forall p :: p in fs && fs[p].Symlink? ==> |p.parts| > 0
  }

  datatype IoFailure = CurrentDirUnavailable | NotFound(path: Path)

  /**
   * `MedusaCrawlError`, and the two ways a crawl ends without one.
   * `Diverges` stands for a crawl that goes on for more steps than the
   * bound: the crawler keeps no set of visited paths, so a cycle of links is
   * followed without end. `Panics` is the assertion in `Input::classify`
   * that a node which is neither a link nor a directory is a regular file.
   */
  datatype CrawlError = Io(failure: IoFailure) | Diverges | Panics

  /** The errors that end the whole crawl where they happen, before any result is collected. */
  predicate Aborts(e: CrawlError) {
    e.Diverges? || e.Panics?
  }

  datatype Entry = SymlinkEntry(path: ResolvedPath) | DirectoryEntry(path: ResolvedPath) | FileEntry(path: ResolvedPath)

  /** `Input::classify`: the node at the resolved path, without following a link. */
  function Classify(rp: ResolvedPath, fs: map<Path, Node>): (r: Result<Entry, CrawlError>)
    ensures r.Ok? <==> rp.resolved in fs && !fs[rp.resolved].Special?
    ensures rp.resolved in fs && fs[rp.resolved].Special? ==> r == Err(Panics)
    ensures r.Ok? ==> r.value.path == rp
    ensures r.Ok? ==> (r.value.FileEntry? <==> fs[rp.resolved].RegularFile?)
    ensures r.Ok? ==> (r.value.SymlinkEntry? <==> fs[rp.resolved].Symlink?)
  {
    if rp.resolved !in fs then Err(Io(NotFound(rp.resolved)))
    else
      match fs[rp.resolved]
      case RegularFile => Ok(FileEntry(rp))
      case Directory(_) => Ok(DirectoryEntry(rp))
      case Symlink(_) => Ok(SymlinkEntry(rp))
      case Special => Err(Panics)
  }

  /** `Entry::should_ignore_this`: only the path before any link is followed is matched. */
  predicate ShouldIgnoreThis(e: Entry, ignores: string -> bool) {
    ignores(Display(e.path.unresolved))
  }

  /** The decision does not depend on where the entry's links lead, nor on its kind. */
  lemma IgnoreLooksAtUnresolvedOnly(e: Entry, f: Entry, ignores: string -> bool)
    requires e.path.unresolved == f.path.unresolved
    ensures ShouldIgnoreThis(e, ignores) == ShouldIgnoreThis(f, ignores)
  {
  }

  /** What every crawled path satisfies: it resolves to a regular file, is not ignored, and its unresolved path extends the start's. */
  predicate Found(start: ResolvedPath, q: ResolvedPath, fs: map<Path, Node>, ignores: string -> bool) {
    && q.resolved in fs && fs[q.resolved].RegularFile?
    && !ignores(Display(q.unresolved))
    && q.unresolved.absolute == start.unresolved.absolute
    && start.unresolved.parts <= q.unresolved.parts
  }

  /**
   * `Input::crawl_single`: an ignored entry gives nothing, a file gives
   * itself, a link is crawled again at its target (resolved against the
   * link's directory) under the same unresolved path, and a directory gives
   * its children's results merged in listing order.
   */
  function CrawlSingle(rp: ResolvedPath, fs: map<Path, Node>, ignores: string -> bool, fuel: nat): (r: Result<seq<ResolvedPath>, CrawlError>)
    requires WellFormed(fs)
    ensures r.Ok? ==> forall k :: 0 <= k < |r.value| ==> Found(rp, r.value[k], fs, ignores)
    decreases fuel, 0
  {
    if fuel == 0 then Err(Diverges)
    else
      match Classify(rp, fs)
      case Err(e) => Err(e)
      case Ok(entry) =>
        if ShouldIgnoreThis(entry, ignores) then Ok([])
        else
          match entry
          case FileEntry(p) => Ok([p])
          case SymlinkEntry(p) =>
            var target := JoinPath(Parent(p.resolved), fs[p.resolved].target);
            CrawlSingle(ResolvedPath(p.unresolved, target), fs, ignores, fuel - 1)
          case DirectoryEntry(p) =>
            CrawlChildren(p, fs[p.resolved].children, fs, ignores, fuel - 1)
  }

  /**
   * The children of a directory, each crawled in turn before the results are
   * collected: a child that aborts the crawl decides it even after a child
   * that failed, and otherwise the first failing child gives the error.
   */
  function CrawlChildren(parent: ResolvedPath, names: seq<string>, fs: map<Path, Node>, ignores: string -> bool, fuel: nat)
    : (r: Result<seq<ResolvedPath>, CrawlError>)
    requires WellFormed(fs)
    ensures r.Ok? ==> forall k :: 0 <= k < |r.value| ==> Found(parent, r.value[k], fs, ignores)
    decreases fuel, |names|
  {
    if |names| == 0 then Ok([])
    else
      var child := Join(parent, Path(false, [names[0]]));
      match CrawlSingle(child, fs, ignores, fuel)
      case Err(e) =>
        if Aborts(e) then Err(e)
        else
          (match CrawlChildren(parent, names[1..], fs, ignores, fuel)
           case Err(later) => if Aborts(later) then Err(later) else Err(e)
           case Ok(_) => Err(e))
      case Ok(first) =>
        assert forall k :: 0 <= k < |first| ==> Found(parent, first[k], fs, ignores) by {
          forall k | 0 <= k < |first|
            ensures Found(parent, first[k], fs, ignores)
          {
            assert Found(child, first[k], fs, ignores);
            assert parent.unresolved.parts <= child.unresolved.parts;
          }
        }
        match CrawlChildren(parent, names[1..], fs, ignores, fuel)
        case Err(e) => Err(e)
        case Ok(rest) => Ok(first + rest)
  }

  /** The crawl of the child `name` of `parent`. */
  function ChildCrawl(parent: ResolvedPath, name: string, fs: map<Path, Node>, ignores: string -> bool, fuel: nat)
    : Result<seq<ResolvedPath>, CrawlError>
    requires WellFormed(fs)
  {
    CrawlSingle(Join(parent, Path(false, [name])), fs, ignores, fuel)
  }

  /**
   * A directory's crawl succeeds iff every child's does; its error is some
   * child's error; and a child that aborts makes the whole crawl abort, in
   * whatever position it is listed.
   */
  lemma {:induction false} CrawlChildrenOutcome(parent: ResolvedPath, names: seq<string>, fs: map<Path, Node>,
                                                ignores: string -> bool, fuel: nat)
    requires WellFormed(fs)
    ensures var r := CrawlChildren(parent, names, fs, ignores, fuel);
      && (r.Ok? <==> forall k :: 0 <= k < |names| ==> ChildCrawl(parent, names[k], fs, ignores, fuel).Ok?)
      && (r.Err? ==> exists k :: 0 <= k < |names| && ChildCrawl(parent, names[k], fs, ignores, fuel) == r)
      && ((exists k :: 0 <= k < |names| && ChildCrawl(parent, names[k], fs, ignores, fuel).Err?
                                        && Aborts(ChildCrawl(parent, names[k], fs, ignores, fuel).error))
          ==> r.Err? && Aborts(r.error))
    decreases |names|
  {
    if |names| > 0 {
      CrawlChildrenOutcome(parent, names[1..], fs, ignores, fuel);
      var r := CrawlChildren(parent, names, fs, ignores, fuel);
      var first := ChildCrawl(parent, names[0], fs, ignores, fuel);
      var rest := CrawlChildren(parent, names[1..], fs, ignores, fuel);
      forall k | 1 <= k < |names|
        ensures ChildCrawl(parent, names[k], fs, ignores, fuel) == ChildCrawl(parent, names[1..][k - 1], fs, ignores, fuel)
      {
      }
      if r.Err? {
        if r == first {
        } else {
          assert r == rest;
          var j :| 0 <= j < |names[1..]| && ChildCrawl(parent, names[1..][j], fs, ignores, fuel) == rest;
          assert ChildCrawl(parent, names[j + 1], fs, ignores, fuel) == r;
        }
      }
      if exists k :: 0 <= k < |names| && ChildCrawl(parent, names[k], fs, ignores, fuel).Err?
                                      && Aborts(ChildCrawl(parent, names[k], fs, ignores, fuel).error) {
        var k :| 0 <= k < |names| && ChildCrawl(parent, names[k], fs, ignores, fuel).Err?
                                  && Aborts(ChildCrawl(parent, names[k], fs, ignores, fuel).error);
        if k > 0 {
          assert ChildCrawl(parent, names[1..][k - 1], fs, ignores, fuel).Err?;
        }
      }
    }
  }

  /** A directory `d` holding a link to a missing file, then a link to itself. */
  function LinkTrap(): map<Path, Node> {
    map[Path(false, ["d"]) := Directory(["x", "y"]),
        Path(false, ["d", "x"]) := Symlink(Path(false, ["missing"])),
        Path(false, ["d", "y"]) := Symlink(Path(false, ["y"]))]
  }

  function NothingIgnored(): string -> bool {
    (s: string) => false
  }

  lemma {:induction false} LinkCycleDiverges(u: Path, fuel: nat)
    requires WellFormed(LinkTrap())
    ensures CrawlSingle(ResolvedPath(u, Path(false, ["d", "y"])), LinkTrap(), NothingIgnored(), fuel) == Err(Diverges)
  {
    if fuel > 0 {
      assert JoinPath(Parent(Path(false, ["d", "y"])), Path(false, ["y"])) == Path(false, ["d", "y"]);
      LinkCycleDiverges(u, fuel - 1);
    }
  }

  lemma LinkTrapWellFormed()
    ensures WellFormed(LinkTrap())
  {
  }

  /** The dangling link, crawled as a child of the directory, fails with "not found". */
  lemma DanglingLinkFails(fuel: nat)
    requires fuel >= 2
    ensures WellFormed(LinkTrap())
    ensures ChildCrawl(FromPath(Path(false, ["d"])), "x", LinkTrap(), NothingIgnored(), fuel)
            == Err(Io(NotFound(Path(false, ["d", "missing"]))))
  {
    LinkTrapWellFormed();
    var fs := LinkTrap();
    var x := Join(FromPath(Path(false, ["d"])), Path(false, ["x"]));
    assert x.resolved == Path(false, ["d", "x"]);
    var missing := Path(false, ["d", "missing"]);
    assert JoinPath(Parent(x.resolved), Path(false, ["missing"])) == missing;
    assert missing !in fs;
    assert CrawlSingle(ResolvedPath(x.unresolved, missing), fs, NothingIgnored(), fuel - 1) == Err(Io(NotFound(missing)));
    assert !NothingIgnored()(Display(x.unresolved));
  }

  /** A directory that is not ignored is crawled by crawling its children. */
  lemma CrawlDirectory(rp: ResolvedPath, fs: map<Path, Node>, ignores: string -> bool, fuel: nat)
    requires WellFormed(fs) && fuel > 0 && rp.resolved in fs && fs[rp.resolved].Directory?
    requires !ignores(Display(rp.unresolved))
    ensures CrawlSingle(rp, fs, ignores, fuel) == CrawlChildren(rp, fs[rp.resolved].children, fs, ignores, fuel - 1)
  {
  }

  /** The link cycle, crawled as a child of the directory, never finishes. */
  lemma CycleChildDiverges(fuel: nat)
    ensures WellFormed(LinkTrap())
    ensures ChildCrawl(FromPath(Path(false, ["d"])), "y", LinkTrap(), NothingIgnored(), fuel) == Err(Diverges)
  {
    LinkTrapWellFormed();
    var y := Join(FromPath(Path(false, ["d"])), Path(false, ["y"]));
    assert y.resolved == Path(false, ["d", "y"]);
    LinkCycleDiverges(y.unresolved, fuel);
  }

  /** The children of the trap: the dangling link fails or runs out, and the cycle after it decides the outcome. */
  lemma TrapChildrenDiverge(fuel: nat)
    ensures WellFormed(LinkTrap())
    ensures CrawlChildren(FromPath(Path(false, ["d"])), ["x", "y"], LinkTrap(), NothingIgnored(), fuel) == Err(Diverges)
  {
    LinkTrapWellFormed();
    var fs := LinkTrap();
    var d := FromPath(Path(false, ["d"]));
    CycleChildDiverges(fuel);
    assert ["y"][1..] == [];
    assert CrawlChildren(d, ["y"], fs, NothingIgnored(), fuel) == Err(Diverges);
    assert ["x", "y"][1..] == ["y"];
    if fuel >= 2 {
      DanglingLinkFails(fuel);
    } else if fuel == 1 {
      var x := Join(d, Path(false, ["x"]));
      assert x.resolved == Path(false, ["d", "x"]);
      assert CrawlSingle(ResolvedPath(x.unresolved, Path(false, ["d", "missing"])), fs, NothingIgnored(), 0) == Err(Diverges);
    }
  }

  /**
   * The dangling link alone fails with "not found", yet the directory's
   * crawl never finishes: the cycle after it is still followed.
   */
  lemma DanglingLinkThenCycle(fuel: nat)
    ensures WellFormed(LinkTrap())
    ensures fuel >= 3 ==> ChildCrawl(FromPath(Path(false, ["d"])), "x", LinkTrap(), NothingIgnored(), fuel - 1)
                          == Err(Io(NotFound(Path(false, ["d", "missing"]))))
    ensures CrawlSingle(FromPath(Path(false, ["d"])), LinkTrap(), NothingIgnored(), fuel) == Err(Diverges)
  {
    LinkTrapWellFormed();
    var fs := LinkTrap();
    var d := FromPath(Path(false, ["d"]));
    if fuel > 0 {
      assert CrawlSingle(d, fs, NothingIgnored(), fuel) == CrawlChildren(d, ["x", "y"], fs, NothingIgnored(), fuel - 1) by {
        assert d.resolved in fs && fs[d.resolved] == Directory(["x", "y"]);
        assert !NothingIgnored()(Display(d.unresolved));
        CrawlDirectory(d, fs, NothingIgnored(), fuel);
      }
      TrapChildrenDiverge(fuel - 1);
      if fuel >= 3 {
        DanglingLinkFails(fuel - 1);
      }
    }
  }

  /**
   * An ignored entry gives an empty result; a regular file that is not
   * ignored gives exactly itself; a special file panics, ignored or not,
   * since it is classified before the ignore patterns are consulted.
   */
  lemma CrawlSingleLeaves(rp: ResolvedPath, fs: map<Path, Node>, ignores: string -> bool, fuel: nat)
    requires WellFormed(fs) && fuel > 0 && rp.resolved in fs
    ensures fs[rp.resolved].Special? ==> CrawlSingle(rp, fs, ignores, fuel) == Err(Panics)
    ensures ignores(Display(rp.unresolved)) && !fs[rp.resolved].Special? ==> CrawlSingle(rp, fs, ignores, fuel) == Ok([])
    ensures !ignores(Display(rp.unresolved)) && fs[rp.resolved].RegularFile? ==> CrawlSingle(rp, fs, ignores, fuel) == Ok([rp])
  {
  }

  /** The paths to crawl, each from itself; the first failing one decides the error. */
  function CrawlAll(paths: seq<Path>, fs: map<Path, Node>, ignores: string -> bool, fuel: nat): (r: Result<seq<CrawlResult>, CrawlError>)
    requires WellFormed(fs)
    ensures r.Ok? ==> |r.value| == |paths|
    ensures r.Ok? ==> forall i :: 0 <= i < |paths| ==> Ok(r.value[i].realFilePaths) == CrawlSingle(FromPath(paths[i]), fs, ignores, fuel)
    ensures r.Ok? <==> forall i :: 0 <= i < |paths| ==> CrawlSingle(FromPath(paths[i]), fs, ignores, fuel).Ok?
  {
    if |paths| == 0 then Ok([])
    else
      match CrawlSingle(FromPath(paths[0]), fs, ignores, fuel)
      case Err(e) => Err(e)
      case Ok(first) =>
        match CrawlAll(paths[1..], fs, ignores, fuel)
        case Err(e) =>
          assert !CrawlSingle(FromPath(paths[1..][0]), fs, ignores, fuel).Ok? || exists i :: 1 <= i < |paths[1..]| && !CrawlSingle(FromPath(paths[1..][i]), fs, ignores, fuel).Ok?;
          Err(e)
        case Ok(rest) => Ok([CrawlResult(first)] + rest)
  }

  /** `MedusaCrawl::crawl_paths`, as a value: the working directory first, then the crawl, merged and cleaned up. */
  function CrawlPathsResult(paths: seq<Path>, fs: map<Path, Node>, ignores: string -> bool, cwd: Option<Path>, fuel: nat)
    : Result<CrawlResult, CrawlError>
    requires WellFormed(fs)
  {
    if cwd.None? then Err(Io(CurrentDirUnavailable))
    else
      match CrawlAll(paths, fs, ignores, fuel)
      case Err(e) => Err(e)
      case Ok(results) => Ok(CrawlResult(CleanedUpAll(Merge(results).realFilePaths, cwd.value)))
  }

  /**
   * `MedusaCrawl::crawl_paths`: the working directory is read before any
   * path is crawled; the merged result is cleaned up in place.
   */
  method CrawlPaths(paths: seq<Path>, fs: map<Path, Node>, ignores: string -> bool, cwd: Option<Path>, fuel: nat)
    returns (r: Result<CrawlResult, CrawlError>)
    requires WellFormed(fs)
    ensures r == CrawlPathsResult(paths, fs, ignores, cwd, fuel)
  {
    if cwd.None? {
      return Err(Io(CurrentDirUnavailable));
    }
    var results := CrawlAll(paths, fs, ignores, fuel);
    if results.Err? {
      return Err(results.error);
    }
    var merged := Merge(results.value).realFilePaths;
    var buffer := new ResolvedPath[|merged|](k requires 0 <= k < |merged| => merged[k]);
    assert buffer[..] == merged;
    CleanUpForExport(buffer, cwd.value);
    r := Ok(CrawlResult(buffer[..]));
  }

  /**
   * Every path of a finished crawl names a regular file by an absolute path,
   * under one of the paths to crawl, and the crawl keeps one entry per file
   * found, in the order of the paths to crawl.
   */
  lemma CrawlPathsFound(paths: seq<Path>, fs: map<Path, Node>, ignores: string -> bool, cwd: Option<Path>, fuel: nat)
    requires WellFormed(fs)
    requires CrawlPathsResult(paths, fs, ignores, cwd, fuel).Ok?
    ensures cwd.Some? && CrawlAll(paths, fs, ignores, fuel).Ok?
    ensures CrawlPathsResult(paths, fs, ignores, cwd, fuel).value.realFilePaths
      == CleanedUpAll(Merge(CrawlAll(paths, fs, ignores, fuel).value).realFilePaths, cwd.value)
    ensures cwd.value.absolute ==> forall q :: q in CrawlPathsResult(paths, fs, ignores, cwd, fuel).value.realFilePaths ==> q.resolved.absolute
  {
  }
}
