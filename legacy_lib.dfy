/**
 * The first, single-file design of the library (libmedusa-zip/src/lib.rs).
 * Every input file is zipped on its own into a one-member archive;
 * `write_zip` then sorts those archives by name and copies their members
 * into the output, adding a record for each directory the first time a file
 * inside it is written.
 *
 * The output archive is the record log of `ZipWriting.ZipOutput`; a
 * one-member archive is the record of its member.
 */
module LegacyLib {
  import opened Wrappers
  import opened Text
  import opened Paths
  import EntryNames
  import ZipOptions
  import ZipPlan
  import ZipWriting
  import Sorting
  import Crawl
  import Merging

  datatype MedusaZipFormatError =
    | NameIsEmpty
    | NameStartsWithSlash(name: string)
    | NameEndsWithSlash(name: string)
    | NameHasDoubleSlash(name: string)

  /**
   * `MedusaZipError`. A failed blocking task (`Join`) cannot happen in this
   * model, and neither can `Zip`: the zip library's calls are taken to
   * succeed, so the variant only mirrors the source's type.
   */
  datatype MedusaZipError = Io | Zip | ZipFormat(format: MedusaZipFormatError)

  // ----- names -----

  /**
   * `validate_name`: the first failing check, in this order, decides the
   * error, which carries the name.
   */
  function ValidateName(name: string): (r: Result<(), MedusaZipFormatError>)
    ensures r == Err(NameIsEmpty) <==> name == ""
    ensures r.Err? && name != "" ==> r.error.name == name
  {
    if |name| == 0 then Err(NameIsEmpty)
    else if name[0] == '/' then Err(NameStartsWithSlash(name))
    else if name[|name| - 1] == '/' then Err(NameEndsWithSlash(name))
    else if EntryNames.HasDoubleSlash(name) then Err(NameHasDoubleSlash(name))
    else Ok(())
  }

  /** A name passes `validate_name` exactly when every '/'-separated piece of it is non-empty. */
  lemma ValidateNameAccepts(name: string)
    ensures ValidateName(name).Ok? <==> forall k :: 0 <= k < |Pieces(name)| ==> Pieces(name)[k] != ""
  {
    EntryNames.PiecesEmptiness(name);
  }

  /**
   * The older check accepts every name `EntryName::validate` accepts, and
   * more: it lets a leading "./" through, which the newer one refuses.
   */
  lemma ValidateNameVersusValidate(name: string)
    ensures EntryNames.Validate(name).Ok? ==> ValidateName(name).Ok?
    ensures !EntryNames.StartsWithDotSlash(name) ==> (ValidateName(name).Ok? <==> EntryNames.Validate(name).Ok?)
    ensures EntryNames.StartsWithDotSlash(name) ==> EntryNames.Validate(name).Err?
  {
  }

  /** A name with a leading "./" that only the older check accepts. */
  lemma DotSlashAcceptedOnlyHere()
    ensures ValidateName("./a") == Ok(())
    ensures EntryNames.Validate("./a") == Err(EntryNames.NameStartsWithDotSlash("./a"))
  {
    var s := "./a";
    assert s[0] == '.' && s[1] == '/' && s[2] == 'a';
    assert !EntryNames.HasDoubleSlash(s) by {
      forall i | 0 <= i < |s| - 1 ensures !(s[i] == '/' && s[i + 1] == '/') {
        assert i == 0 || i == 1;
      }
    }
  }

  /** `split_directory_components`: the '/'-separated pieces of the name without the last one, the file's own name. */
  function DirectoryComponents(name: string): seq<string> {
    Pieces(name)[..|Pieces(name)| - 1]
  }

  /**
   * A name has one directory per separator, no directory holds a '/', and
   * joining the directories back with the file name gives the name.
   */
  lemma DirectoryComponentsShape(name: string)
    ensures |DirectoryComponents(name)| == Count(name, '/')
    ensures AllNoSlash(DirectoryComponents(name))
    ensures Join(DirectoryComponents(name) + [BaseName(name)]) == name
  {
    PiecesCount(name);
    PiecesHaveNoSlash(name);
    JoinPieces(name);
    var ps := Pieces(name);
    assert ps[..|ps| - 1] + [ps[|ps| - 1]] == ps;
  }

  /** The last piece of a name: the file's own name. */
  function BaseName(name: string): string {
    Pieces(name)[|Pieces(name)| - 1]
  }

  // ----- options -----

  datatype Reproducibility = Reproducible | CurrentTime

  const DefaultReproducibility: Reproducibility := Reproducible

  /**
   * `Reproducibility::zip_options`: the library's default options, with the
   * modification time fixed at 1980-01-01 00:00:00 when reproducible.
   */
  function ZipOptionsFor(r: Reproducibility): (o: ZipOptions.FileOptions)
    ensures r == Reproducible ==> o.mtime == ZipOptions.At(ZipOptions.MinimumZipTime)
    ensures r == CurrentTime ==> o == ZipOptions.DefaultOptions
    ensures o.(mtime := ZipOptions.LibraryDefaultTime) == ZipOptions.DefaultOptions
  {
    match r
    case CurrentTime => ZipOptions.DefaultOptions
    case Reproducible => ZipOptions.DefaultOptions.(mtime := ZipOptions.At(ZipOptions.MinimumZipTime))
  }

  // ----- one archive per file -----

  /** An input file zipped on its own: its output name and the record of its one member. */
  datatype IntermediateSingleZip = IntermediateSingleZip(name: string, member: ZipWriting.LogEntry)

  /** The member of a one-member archive is a file stored under the archive's name. */
  predicate WellFormed(z: IntermediateSingleZip) {
    z.member.FileRecord? && z.member.name == z.name
  }

  /**
   * `MedusaZip::zip_single`: the file's contents become the one member of an
   * archive of its own, stored under the output name with the options of the
   * reproducibility setting; a file that cannot be opened or read is an i/o
   * error.
   */
  function ZipSingle(inputPath: Path, outputName: string, r: Reproducibility, readable: set<Path>): (z: Result<IntermediateSingleZip, MedusaZipError>)
    ensures z.Ok? <==> inputPath in readable
    ensures z.Err? ==> z.error == Io
    ensures z.Ok? ==> WellFormed(z.value) && z.value.name == outputName
    ensures z.Ok? ==> z.value.member.source == inputPath && z.value.member.options == ZipOptionsFor(r)
  {
    if inputPath !in readable then Err(Io)
    else Ok(IntermediateSingleZip(outputName, ZipWriting.FileRecord(outputName, inputPath, ZipOptionsFor(r))))
  }

  // ----- write_zip -----

  /** `Ord for IntermediateSingleZip`: plain string order of the names. */
  predicate NameLess(a: IntermediateSingleZip, b: IntermediateSingleZip) {
    StrLess(a.name, b.name)
  }

  lemma NameLessIsStrictWeakOrder()
    ensures Sorting.StrictWeakOrder(NameLess)
  {
    forall x: IntermediateSingleZip, y: IntermediateSingleZip | NameLess(x, y) ensures !NameLess(y, x) {
      StrLessAsymmetric(x.name, y.name);
    }
    forall x: IntermediateSingleZip, y: IntermediateSingleZip, z: IntermediateSingleZip | !NameLess(y, x) && !NameLess(z, y)
      ensures !NameLess(z, x)
    {
      if StrLess(z.name, x.name) {
        StrLessTotal(x.name, y.name);
        StrLessTotal(y.name, z.name);
        if StrLess(x.name, y.name) && StrLess(y.name, z.name) {
          StrLessTransitive(x.name, y.name, z.name);
          StrLessAsymmetric(x.name, z.name);
        } else if StrLess(x.name, y.name) {
          StrLessAsymmetric(x.name, z.name);
        } else {
          StrLessAsymmetric(z.name, x.name);
        }
      }
    }
  }

  /** One directory record per list of components, named by joining them with '/'. */
  function DirectoryRecords(ds: seq<seq<string>>, o: ZipOptions.FileOptions): seq<ZipWriting.LogEntry> {
    if |ds| == 0 then []
    else DirectoryRecords(ds[..|ds| - 1], o) + [ZipWriting.DirectoryRecord(Join(ds[|ds| - 1]), o)]
  }

  lemma {:induction false} DirectoryRecordsAt(ds: seq<seq<string>>, o: ZipOptions.FileOptions, k: nat)
    requires k < |ds|
    ensures |DirectoryRecords(ds, o)| == |ds|
    ensures DirectoryRecords(ds, o)[k] == ZipWriting.DirectoryRecord(Join(ds[k]), o)
  {
    if k < |ds| - 1 {
      DirectoryRecordsAt(ds[..|ds| - 1], o, k);
    } else if |ds| > 1 {
      DirectoryRecordsAt(ds[..|ds| - 1], o, 0);
    }
  }

  /** The directories of the last file written, if any. */
  function PreviousDirs(zs: seq<IntermediateSingleZip>): seq<string> {
    if |zs| == 0 then [] else DirectoryComponents(zs[|zs| - 1].name)
  }

  /**
   * What one file adds: a record for each of its directories past those it
   * shares with the previous file, shortest first, then its member.
   */
  function WriteStep(prev: seq<string>, z: IntermediateSingleZip, o: ZipOptions.FileOptions): seq<ZipWriting.LogEntry> {
    DirectoryRecords(ZipPlan.NewRightmost(prev, DirectoryComponents(z.name)), o) + [z.member]
  }

  /**
   * The position of the first entry whose name fails `validate_name`, or the
   * number of entries when every name passes.
   */
  function FirstBad(zs: seq<IntermediateSingleZip>): (k: nat)
    ensures k <= |zs|
    ensures forall j :: 0 <= j < k ==> ValidateName(zs[j].name).Ok?
    ensures k < |zs| ==> ValidateName(zs[k].name).Err?
  {
    if |zs| == 0 || ValidateName(zs[0].name).Err? then 0
    else
      var k := 1 + FirstBad(zs[1..]);
      assert forall j :: 1 <= j < k ==> zs[j] == zs[1..][j - 1];
      k
  }

  /** The first bad name is the one after a run of good names. */
  lemma {:induction false} FirstBadIs(zs: seq<IntermediateSingleZip>, i: nat)
    requires i <= |zs| && forall j :: 0 <= j < i ==> ValidateName(zs[j].name).Ok?
    requires i < |zs| ==> ValidateName(zs[i].name).Err?
    ensures FirstBad(zs) == i
  {
    if i > 0 {
      FirstBadIs(zs[1..], i - 1);
    }
  }

  /** The records written for entries whose names all pass, in the order given. */
  function Log(zs: seq<IntermediateSingleZip>, o: ZipOptions.FileOptions): seq<ZipWriting.LogEntry> {
    if |zs| == 0 then []
    else Log(zs[..|zs| - 1], o) + WriteStep(PreviousDirs(zs[..|zs| - 1]), zs[|zs| - 1], o)
  }

  lemma LogSnoc(zs: seq<IntermediateSingleZip>, i: nat, o: ZipOptions.FileOptions)
    requires i < |zs|
    ensures Log(zs[..i + 1], o) == Log(zs[..i], o) + WriteStep(PreviousDirs(zs[..i]), zs[i], o)
    ensures PreviousDirs(zs[..i + 1]) == DirectoryComponents(zs[i].name)
  {
    assert zs[..i + 1][..i] == zs[..i];
  }

  /**
   * The loop of `write_zip` over entries in the order given: the records of
   * the entries before the first bad name, and that name's error if there is
   * one. A bad name ends the write before its directories or its member.
   */
  function WriteLog(zs: seq<IntermediateSingleZip>, o: ZipOptions.FileOptions): ZipWriting.Outcome<MedusaZipFormatError> {
    var k := FirstBad(zs);
    ZipWriting.Outcome(Log(zs[..k], o), if k < |zs| then Some(ValidateName(zs[k].name).error) else None)
  }

  /** When every name passes, the write succeeds with every entry's records. */
  lemma WriteLogAllGood(zs: seq<IntermediateSingleZip>, o: ZipOptions.FileOptions)
    requires forall j :: 0 <= j < |zs| ==> ValidateName(zs[j].name).Ok?
    ensures WriteLog(zs, o) == ZipWriting.Outcome(Log(zs, o), None)
  {
    FirstBadIs(zs, |zs|);
    assert zs[..|zs|] == zs;
  }

  /**
   * When a name fails, the write fails with its error at the first such
   * name, having written exactly the records of the entries before it.
   */
  lemma WriteLogBadAt(zs: seq<IntermediateSingleZip>, i: nat, o: ZipOptions.FileOptions)
    requires i < |zs| && forall j :: 0 <= j < i ==> ValidateName(zs[j].name).Ok?
    requires ValidateName(zs[i].name).Err?
    ensures WriteLog(zs, o) == ZipWriting.Outcome(Log(zs[..i], o), Some(ValidateName(zs[i].name).error))
  {
    FirstBadIs(zs, i);
  }

  /** The write succeeds exactly when every name passes. */
  lemma WriteLogSucceeds(zs: seq<IntermediateSingleZip>, o: ZipOptions.FileOptions)
    ensures WriteLog(zs, o).failure.None? <==> forall k :: 0 <= k < |zs| ==> ValidateName(zs[k].name).Ok?
  {
  }

  /** The file records of a log, in order. */
  function Files(log: seq<ZipWriting.LogEntry>): seq<ZipWriting.LogEntry> {
    if |log| == 0 then []
    else Files(log[..|log| - 1]) + (if log[|log| - 1].DirectoryRecord? then [] else [log[|log| - 1]])
  }

  lemma {:induction false} FilesAppend(a: seq<ZipWriting.LogEntry>, b: seq<ZipWriting.LogEntry>)
    ensures Files(a + b) == Files(a) + Files(b)
  {
    if |b| == 0 {
      assert a + b == a;
    } else {
      var b' := b[..|b| - 1];
      FilesAppend(a, b');
      assert (a + b)[..|a + b| - 1] == a + b';
    }
  }

  lemma {:induction false} FilesOfDirectoryRecords(ds: seq<seq<string>>, o: ZipOptions.FileOptions)
    ensures Files(DirectoryRecords(ds, o)) == []
  {
    if |ds| > 0 {
      var init := ds[..|ds| - 1];
      FilesOfDirectoryRecords(init, o);
      FilesAppend(DirectoryRecords(init, o), [ZipWriting.DirectoryRecord(Join(ds[|ds| - 1]), o)]);
      assert Files([ZipWriting.DirectoryRecord(Join(ds[|ds| - 1]), o)]) == [];
    }
  }

  /** The members of the one-member archives, in order. */
  function Members(zs: seq<IntermediateSingleZip>): seq<ZipWriting.LogEntry> {
    seq(|zs|, k requires 0 <= k < |zs| => zs[k].member)
  }

  /**
   * Writing entries whose names all pass copies every member exactly once,
   * in the order of the entries; all other records are directories.
   */
  lemma MembersSnoc(zs: seq<IntermediateSingleZip>)
    requires |zs| > 0
    ensures Members(zs) == Members(zs[..|zs| - 1]) + [zs[|zs| - 1].member]
  {
    var init := zs[..|zs| - 1];
    var r := Members(init) + [zs[|zs| - 1].member];
    assert |Members(zs)| == |r|;
    forall k | 0 <= k < |zs| ensures Members(zs)[k] == r[k] {
      if k < |init| {
        assert init[k] == zs[k];
      }
    }
  }

  /** The inductive step of `LogFiles`: the last entry adds its own member to the files. */
  lemma LogFilesStep(zs: seq<IntermediateSingleZip>, o: ZipOptions.FileOptions)
    requires |zs| > 0 && WellFormed(zs[|zs| - 1])
    requires Files(Log(zs[..|zs| - 1], o)) == Members(zs[..|zs| - 1])
    ensures Files(Log(zs, o)) == Members(zs)
  {
    var init, z := zs[..|zs| - 1], zs[|zs| - 1];
    var step := WriteStep(PreviousDirs(init), z, o);
    assert Log(zs, o) == Log(init, o) + step;
    FilesAppend(Log(init, o), step);
    FilesOfStep(PreviousDirs(init), z, o);
    MembersSnoc(zs);
  }

  lemma {:induction false} LogFiles(zs: seq<IntermediateSingleZip>, o: ZipOptions.FileOptions)
    requires forall k :: 0 <= k < |zs| ==> WellFormed(zs[k])
    ensures Files(Log(zs, o)) == Members(zs)
  {
    if |zs| > 0 {
      var init := zs[..|zs| - 1];
      assert forall k :: 0 <= k < |init| ==> WellFormed(init[k]);
      LogFiles(init, o);
      LogFilesStep(zs, o);
    }
  }

  /** One step writes exactly one file record: the member. */
  lemma FilesOfStep(prev: seq<string>, z: IntermediateSingleZip, o: ZipOptions.FileOptions)
    requires WellFormed(z)
    ensures Files(WriteStep(prev, z, o)) == [z.member]
  {
    var ds := ZipPlan.NewRightmost(prev, DirectoryComponents(z.name));
    FilesAppend(DirectoryRecords(ds, o), [z.member]);
    FilesOfDirectoryRecords(ds, o);
    assert [z.member][..0] == [];
  }

  /** The directory record for the first `m` components of `d`. */
  function DirRecord(d: seq<string>, m: nat, o: ZipOptions.FileOptions): ZipWriting.LogEntry
    requires m <= |d|
  {
    ZipWriting.DirectoryRecord(Join(d[..m]), o)
  }

  /** Each member comes after a record for every directory that contains it. */
  predicate ParentsFirst(log: seq<ZipWriting.LogEntry>, o: ZipOptions.FileOptions) {
    forall j, m :: 0 <= j < |log| && log[j].FileRecord? && 1 <= m <= |DirectoryComponents(log[j].name)| ==>
      DirRecord(DirectoryComponents(log[j].name), m, o) in log[..j]
  }

  /** `log` holds a record for every directory containing a file with directories `d`. */
  predicate HasParents(log: seq<ZipWriting.LogEntry>, d: seq<string>, o: ZipOptions.FileOptions) {
    forall m :: 1 <= m <= |d| ==> DirRecord(d, m, o) in log
  }

  lemma {:induction false} StepHasParents(log: seq<ZipWriting.LogEntry>, prev: seq<string>, d: seq<string>, o: ZipOptions.FileOptions)
    requires HasParents(log, prev, o)
    ensures HasParents(log + DirectoryRecords(ZipPlan.NewRightmost(prev, d), o), d, o)
  {
    var sh := ZipPlan.SharedPrefixLength(prev, d);
    var ds := ZipPlan.NewRightmost(prev, d);
    forall m | 1 <= m <= |d| ensures DirRecord(d, m, o) in log + DirectoryRecords(ds, o) {
      if m <= sh {
        assert d[..m] == prev[..m];
        assert DirRecord(prev, m, o) in log;
      } else {
        DirectoryRecordsAt(ds, o, m - sh - 1);
        assert DirectoryRecords(ds, o)[m - sh - 1] == DirRecord(d, m, o);
      }
    }
  }

  lemma ParentsFirstSnoc(log: seq<ZipWriting.LogEntry>, rs: seq<ZipWriting.LogEntry>, z: IntermediateSingleZip, o: ZipOptions.FileOptions)
    requires WellFormed(z)
    requires ParentsFirst(log, o) && Files(rs) == []
    requires HasParents(log + rs, DirectoryComponents(z.name), o)
    ensures ParentsFirst(log + rs + [z.member], o)
  {
    var all := log + rs + [z.member];
    forall j, m | 0 <= j < |all| && all[j].FileRecord? && 1 <= m <= |DirectoryComponents(all[j].name)|
      ensures DirRecord(DirectoryComponents(all[j].name), m, o) in all[..j]
    {
      if j < |log| {
        assert all[j] == log[j] && log[..j] == all[..j];
      } else if j < |log| + |rs| {
        assert all[j] == rs[j - |log|];
        NoFileRecords(rs, j - |log|);
        assert false;
      } else {
        assert all[..j] == log + rs;
      }
    }
  }

  lemma {:induction false} NoFileRecords(rs: seq<ZipWriting.LogEntry>, k: nat)
    requires Files(rs) == [] && k < |rs|
    ensures rs[k].DirectoryRecord?
  {
    var init := rs[..|rs| - 1];
    FilesAppend(init, [rs[|rs| - 1]]);
    assert init + [rs[|rs| - 1]] == rs;
    if k < |rs| - 1 {
      NoFileRecords(init, k);
    }
  }

  /**
   * Every member the write copies comes after a record for each directory
   * that contains it.
   */
  lemma {:induction false} LogParentsFirst(zs: seq<IntermediateSingleZip>, o: ZipOptions.FileOptions)
    requires forall k :: 0 <= k < |zs| ==> WellFormed(zs[k])
    ensures ParentsFirst(Log(zs, o), o)
    ensures HasParents(Log(zs, o), PreviousDirs(zs), o)
  {
    if |zs| > 0 {
      var init, z := zs[..|zs| - 1], zs[|zs| - 1];
      LogParentsFirst(init, o);
      var before := Log(init, o);
      var ds := ZipPlan.NewRightmost(PreviousDirs(init), DirectoryComponents(z.name));
      var rs := DirectoryRecords(ds, o);
      StepHasParents(before, PreviousDirs(init), DirectoryComponents(z.name), o);
      FilesOfDirectoryRecords(ds, o);
      ParentsFirstSnoc(before, rs, z, o);
      var after := Log(zs, o);
      assert after == before + rs + [z.member];
      forall m | 1 <= m <= |DirectoryComponents(z.name)| ensures DirRecord(DirectoryComponents(z.name), m, o) in after {
        assert DirRecord(DirectoryComponents(z.name), m, o) in before + rs;
      }
    }
  }

  /**
   * One turn of the loop of `write_zip` once the name has validated: a
   * directory record for each new directory, then the member.
   */
  method WriteEntry(previous: seq<string>, z: IntermediateSingleZip, o: ZipOptions.FileOptions, out: ZipWriting.ZipOutput)
    returns (current: seq<string>)
    modifies out
    ensures current == DirectoryComponents(z.name)
    ensures out.entries == old(out.entries) + WriteStep(previous, z, o)
  {
    current := DirectoryComponents(z.name);
    var dirs := ZipPlan.CalculateNewRightmostComponents(previous, current);
    for d := 0 to |dirs|
      invariant out.entries == old(out.entries) + DirectoryRecords(dirs[..d], o)
    {
      assert dirs[..d + 1][..d] == dirs[..d];
      out.AddDirectory(Join(dirs[d]), o);
    }
    assert dirs[..|dirs|] == dirs;
    out.MergeArchive([z.member]);
  }

  /**
   * The loop of `write_zip` over archives in the order given: for each one,
   * validate its name, add the directories it does not share with the
   * previous one and copy its member; the first bad name ends the write.
   */
  method WriteInOrder(zips: seq<IntermediateSingleZip>, options: ZipOptions.FileOptions, out: ZipWriting.ZipOutput)
    returns (result: Result<(), MedusaZipError>)
    modifies out
    ensures out.entries == old(out.entries) + WriteLog(zips, options).log
    ensures result.Ok? <==> WriteLog(zips, options).failure.None?
    ensures result.Err? ==> result.error == ZipFormat(WriteLog(zips, options).failure.value)
  {
    var previous: seq<string> := [];
    ghost var start := out.entries;
    assert zips[..0] == [];
    for i := 0 to |zips|
      invariant i <= FirstBad(zips)
      invariant out.entries == start + Log(zips[..i], options)
      invariant previous == PreviousDirs(zips[..i])
    {
      var failure;
      failure, previous := WriteZipEntry(zips, i, previous, options, out, start);
      if failure.Some? {
        return Err(ZipFormat(failure.value));
      }
    }
    assert zips[..|zips|] == zips;
    WriteLogAllGood(zips, options);
    result := Ok(());
  }

  /**
   * One turn of the loop in `write_zip`: a bad name stops the write with
   * nothing added, a good one adds its directories and its member.
   */
  method WriteZipEntry(zips: seq<IntermediateSingleZip>, i: nat, previous: seq<string>, o: ZipOptions.FileOptions,
                       out: ZipWriting.ZipOutput, ghost start: seq<ZipWriting.LogEntry>)
    returns (failure: Option<MedusaZipFormatError>, current: seq<string>)
    requires i < |zips| && i <= FirstBad(zips)
    requires previous == PreviousDirs(zips[..i])
    requires out.entries == start + Log(zips[..i], o)
    modifies out
    ensures failure.Some? ==> out.entries == old(out.entries) && WriteLog(zips, o) == ZipWriting.Outcome(Log(zips[..i], o), failure)
    ensures failure.None? ==> i + 1 <= FirstBad(zips) && current == PreviousDirs(zips[..i + 1])
    ensures failure.None? ==> out.entries == start + Log(zips[..i + 1], o)
  {
    var valid := ValidateName(zips[i].name);
    if valid.Err? {
      WriteLogBadAt(zips, i, o);
      return Some(valid.error), previous;
    }
    current := WriteEntry(previous, zips[i], o, out);
    LogSnoc(zips, i, o);
    Merging.Associative(start, Log(zips[..i], o), WriteStep(PreviousDirs(zips[..i]), zips[i], o));
    failure := None;
  }

  /**
   * `IntermediateZipCollection::write_zip`: sorts the archives by name with
   * an unstable sort, then writes them in that order. `finish` is not
   * modelled.
   */
  method WriteZip(zips: array<IntermediateSingleZip>, r: Reproducibility, out: ZipWriting.ZipOutput) returns (result: Result<(), MedusaZipError>)
    modifies zips, out
    ensures multiset(zips[..]) == multiset(old(zips[..]))
    ensures Sorting.SortedBy(zips[..], NameLess)
    ensures out.entries == old(out.entries) + WriteLog(zips[..], ZipOptionsFor(r)).log
    ensures result.Ok? <==> WriteLog(zips[..], ZipOptionsFor(r)).failure.None?
    ensures result.Err? ==> result.error == ZipFormat(WriteLog(zips[..], ZipOptionsFor(r)).failure.value)
  {
    NameLessIsStrictWeakOrder();
    Sorting.InsertionSort(zips, NameLess);
    result := WriteInOrder(zips[..], ZipOptionsFor(r), out);
  }

  // ----- zip -----

  /** `MedusaZip`: the files to zip, each with the path it is read from and its name in the archive. */
  datatype MedusaZip = MedusaZip(inputPaths: seq<(Path, string)>, options: Reproducibility)

  /**
   * The one-member archives of all inputs, in input order; the first input
   * that cannot be read fails them all.
   */
  function ZipSingles(inputs: seq<(Path, string)>, r: Reproducibility, readable: set<Path>): (res: Result<seq<IntermediateSingleZip>, MedusaZipError>)
    ensures res.Ok? <==> forall k :: 0 <= k < |inputs| ==> inputs[k].0 in readable
    ensures res.Err? ==> res.error == Io
    ensures res.Ok? ==> |res.value| == |inputs|
    ensures res.Ok? ==> forall k :: 0 <= k < |inputs| ==> ZipSingle(inputs[k].0, inputs[k].1, r, readable) == Ok(res.value[k])
  {
    if |inputs| == 0 then Ok([])
    else
      match ZipSingle(inputs[0].0, inputs[0].1, r, readable)
      case Err(e) => Err(e)
      case Ok(z) =>
        var rest := ZipSingles(inputs[1..], r, readable);
        if rest.Err? then
          assert inputs[1..][..] == inputs[1..];
          Err(rest.error)
        else
          Ok([z] + rest.value)
  }

  lemma NamesSurvivePermutation(a: seq<IntermediateSingleZip>, b: seq<IntermediateSingleZip>)
    requires multiset(a) == multiset(b)
    ensures (forall k :: 0 <= k < |a| ==> ValidateName(a[k].name).Ok?) <==> (forall k :: 0 <= k < |b| ==> ValidateName(b[k].name).Ok?)
    ensures (forall k :: 0 <= k < |a| ==> WellFormed(a[k])) ==> (forall k :: 0 <= k < |b| ==> WellFormed(b[k]))
  {
    forall k | 0 <= k < |b| ensures b[k] in a {
      assert b[k] in multiset(b);
    }
    forall k | 0 <= k < |a| ensures a[k] in b {
      assert a[k] in multiset(a);
    }
  }

  /**
   * `MedusaZip::zip`: zips every input on its own, then writes the sorted
   * archives into `out`. It succeeds exactly when every input can be read
   * and every name validates; then every input's member is copied once,
   * after its directories, in name order.
   */
  method Zip(m: MedusaZip, readable: set<Path>, out: ZipWriting.ZipOutput) returns (result: Result<(), MedusaZipError>)
    modifies out
    ensures result.Ok? <==>
      (forall k :: 0 <= k < |m.inputPaths| ==> m.inputPaths[k].0 in readable)
      && (forall k :: 0 <= k < |m.inputPaths| ==> ValidateName(m.inputPaths[k].1).Ok?)
    ensures ZipSingles(m.inputPaths, m.options, readable).Err? ==> result == Err(Io) && out.entries == old(out.entries)
    ensures result.Ok? ==> exists sorted: seq<IntermediateSingleZip> ::
      multiset(sorted) == multiset(ZipSingles(m.inputPaths, m.options, readable).value)
      && Sorting.SortedBy(sorted, NameLess)
      && out.entries == old(out.entries) + Log(sorted, ZipOptionsFor(m.options))
      && Files(Log(sorted, ZipOptionsFor(m.options))) == Members(sorted)
      && ParentsFirst(Log(sorted, ZipOptionsFor(m.options)), ZipOptionsFor(m.options))
    ensures ZipSingles(m.inputPaths, m.options, readable).Ok? && result.Err? ==> exists sorted: seq<IntermediateSingleZip> ::
      multiset(sorted) == multiset(ZipSingles(m.inputPaths, m.options, readable).value)
      && Sorting.SortedBy(sorted, NameLess)
      && FirstBad(sorted) < |sorted|
      && result == Err(ZipFormat(ValidateName(sorted[FirstBad(sorted)].name).error))
      && out.entries == old(out.entries) + Log(sorted[..FirstBad(sorted)], ZipOptionsFor(m.options))
  {
    var singles := ZipSingles(m.inputPaths, m.options, readable);
    if singles.Err? {
      return Err(singles.error);
    }
    var zs := singles.value;
    var zips := new IntermediateSingleZip[|zs|](k requires 0 <= k < |zs| => zs[k]);
    assert zips[..] == zs;
    ghost var start := out.entries;
    result := WriteZip(zips, m.options, out);
    ZipOutcome(m, readable, zs, zips[..], start, out.entries, result.Ok?);
    if result.Err? {
      ghost var sorted := zips[..];
      assert FirstBad(sorted) < |sorted|;
    }
  }

  /** What `Zip` promises, given the sorted entries `WriteZip` leaves behind and the records it writes. */
  lemma ZipOutcome(m: MedusaZip, readable: set<Path>, zs: seq<IntermediateSingleZip>, sorted: seq<IntermediateSingleZip>,
                   start: seq<ZipWriting.LogEntry>, entries: seq<ZipWriting.LogEntry>, ok: bool)
    requires ZipSingles(m.inputPaths, m.options, readable) == Ok(zs)
    requires multiset(sorted) == multiset(zs) && Sorting.SortedBy(sorted, NameLess)
    requires entries == start + WriteLog(sorted, ZipOptionsFor(m.options)).log
    requires ok <==> WriteLog(sorted, ZipOptionsFor(m.options)).failure.None?
    ensures ok <==>
      (forall k :: 0 <= k < |m.inputPaths| ==> m.inputPaths[k].0 in readable)
      && (forall k :: 0 <= k < |m.inputPaths| ==> ValidateName(m.inputPaths[k].1).Ok?)
    ensures ok ==> exists sorted: seq<IntermediateSingleZip> ::
      multiset(sorted) == multiset(zs)
      && Sorting.SortedBy(sorted, NameLess)
      && entries == start + Log(sorted, ZipOptionsFor(m.options))
      && Files(Log(sorted, ZipOptionsFor(m.options))) == Members(sorted)
      && ParentsFirst(Log(sorted, ZipOptionsFor(m.options)), ZipOptionsFor(m.options))
  {
    var o := ZipOptionsFor(m.options);
    assert forall k :: 0 <= k < |zs| ==> zs[k].name == m.inputPaths[k].1 && WellFormed(zs[k]);
    NamesSurvivePermutation(zs, sorted);
    WriteLogSucceeds(sorted, o);
    if ok {
      SortedLogFacts(sorted, o);
    }
  }

  /** A log whose every name validates is written in full, with every member and every parent first. */
  lemma SortedLogFacts(sorted: seq<IntermediateSingleZip>, o: ZipOptions.FileOptions)
    requires forall k :: 0 <= k < |sorted| ==> WellFormed(sorted[k])
    requires forall k :: 0 <= k < |sorted| ==> ValidateName(sorted[k].name).Ok?
    ensures WriteLog(sorted, o) == ZipWriting.Outcome(Log(sorted, o), None)
    ensures Files(Log(sorted, o)) == Members(sorted)
    ensures ParentsFirst(Log(sorted, o), o)
  {
    WriteLogAllGood(sorted, o);
    LogFiles(sorted, o);
    LogParentsFirst(sorted, o);
  }

  // ----- crawl results -----

  /**
   * `CrawlResult::medusa_zip`: each crawled path becomes a pair of the path
   * to read (the resolved one) and the archive name (the unresolved one as
   * text), one per path and in order. Unlike the later library, no name is
   * validated here: a bad name only fails later, in `write_zip`.
   */
  function InputPaths(c: Crawl.CrawlResult): (r: seq<(Path, string)>)
    ensures |r| == |c.realFilePaths|
    ensures forall k :: 0 <= k < |r| ==> r[k].0 == c.realFilePaths[k].resolved && r[k].1 == Display(c.realFilePaths[k].unresolved)
  {
    seq(|c.realFilePaths|, k requires 0 <= k < |c.realFilePaths| => (c.realFilePaths[k].resolved, Display(c.realFilePaths[k].unresolved)))
  }

  /**
   * Where the later `medusa_zip` accepts a crawl, it names and reads each
   * file exactly as this one does, and this one's names then all pass
   * `validate_name`.
   */
  lemma InputPathsAgree(c: Crawl.CrawlResult)
    ensures var later := Crawl.FileSources(c.realFilePaths);
      later.Ok? ==> forall k :: 0 <= k < |c.realFilePaths| ==>
        later.value[k].name.name == InputPaths(c)[k].1
        && later.value[k].source == InputPaths(c)[k].0
        && ValidateName(InputPaths(c)[k].1).Ok?
  {
    var later := Crawl.FileSources(c.realFilePaths);
    if later.Ok? {
      forall k | 0 <= k < |c.realFilePaths|
        ensures later.value[k].name.name == InputPaths(c)[k].1
        ensures ValidateName(InputPaths(c)[k].1).Ok?
      {
        var name := Display(c.realFilePaths[k].unresolved);
        EntryNames.ValidateErrors(name);
        ValidateNameVersusValidate(name);
      }
    }
  }
}
