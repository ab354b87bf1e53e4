/**
 * Writing a planned list of entries into a zip archive (lib/src/zip.rs,
 * `IntermediateSingleEntry::open_handle`, `MedusaZip::zip_intermediate`,
 * `zip_parallel`, `zip_synchronous` and `zip`).
 *
 * The archive is modelled by the sequence of records written into it: a
 * directory record with its name and options, or a file record with its
 * name, the path its contents are copied from, and its options. Merging an
 * archive into another appends its records.
 */
module ZipWriting {
  import opened Wrappers
  import opened Text
  import opened Paths
  import opened EntryNames
  import opened ZipOptions
  import opened ZipPlan

  /**
   * One record of a zip archive. A partial file record is a file that
   * `start_file` began but whose contents stopped copying part way.
   */
  datatype LogEntry =
    | DirectoryRecord(name: string, options: FileOptions)
    | FileRecord(name: string, source: Path, options: FileOptions)
    | PartialFileRecord(name: string, source: Path, options: FileOptions)

  /** What the filesystem does with a source path that exists: metadata fails, or contents copy or fail to. */
  datatype SourceFile = NoMetadata | Readable(metadata: Metadata) | ReadFails(metadata: Metadata)

  /**
   * What writing depends on besides the entries: the shared options, the
   * modification time behaviour, the current time, and the filesystem (a
   * path that is not in the map cannot be opened).
   */
  datatype Env = Env(options: FileOptions, mtime: ModifiedTimeBehavior, now: ZipDateTime, fs: map<Path, SourceFile>)

  /**
   * The errors of writing, without the zip library's own (`MedusaZipError::Zip`,
   * `MedusaInputReadError::Zip`): the library's calls are taken to succeed.
   */
  datatype InputReadError = SourceNotFound(source: Path) | InitZipOptions(error: InitializeError)

  datatype MedusaZipError =
    | Io
    | InputConsistency(consistency: InputConsistencyError)
    | InputRead(read: InputReadError)
    | ProcessZipOptions(options: InitializeError)

  datatype Parallelism = Synchronous | ParallelMerge

  const DefaultParallelism: Parallelism := ParallelMerge

  /** The number of entries each intermediate archive takes. */
  const IntermediateChunkSize: nat := 2000

  datatype ZipOutputOptions = ZipOutputOptions(mtimeBehavior: ModifiedTimeBehavior, compression: CompressionStrategy)

  /** Entries whose names `into_string` accepts. */
  predicate Named(e: ZipEntrySpecification) {
    match e
    case Directory(d) => !IsEmpty(d)
    case File(f) => !IsEmpty(f.name)
  }

  predicate AllNamed(entries: seq<ZipEntrySpecification>) {
    forall k :: 0 <= k < |entries| ==> Named(entries[k])
  }

  /** The options a file's metadata gives it. */
  function FileOptionsFor(m: Metadata, env: Env): Result<FileOptions, InitializeError> {
    ApplyAllForFile(FileInitializers(env.mtime), env.options, m, env.now)
  }

  // ----- one entry -----

  /** One entry written directly to the output, with the errors `zip_synchronous` reports. */
  function RecordSync(e: ZipEntrySpecification, env: Env): Result<LogEntry, MedusaZipError>
    requires Named(e)
  {
    match e
    case Directory(d) => Ok(DirectoryRecord(IntoString(d), env.options))
    case File(f) =>
      if f.source !in env.fs then Err(InputRead(SourceNotFound(f.source)))
      else
        match env.fs[f.source]
        case NoMetadata => Err(MedusaZipError.Io)
        case Readable(m) =>
          (match FileOptionsFor(m, env)
           case Err(x) => Err(ProcessZipOptions(x))
           case Ok(o) => Ok(FileRecord(IntoString(f.name), f.source, o)))
        case ReadFails(m) =>
          (match FileOptionsFor(m, env)
           case Err(x) => Err(ProcessZipOptions(x))
           case Ok(_) => Err(MedusaZipError.Io))
  }

  /** One entry written through an intermediate archive, with the errors `open_handle` reports. */
  function RecordIntermediate(e: ZipEntrySpecification, env: Env): Result<LogEntry, InputReadError>
    requires Named(e)
  {
    match e
    case Directory(d) => Ok(DirectoryRecord(IntoString(d), env.options))
    case File(f) =>
      if f.source !in env.fs then Err(SourceNotFound(f.source))
      else
        match env.fs[f.source]
        case NoMetadata => Err(SourceNotFound(f.source))
        case Readable(m) =>
          (match FileOptionsFor(m, env)
           case Err(x) => Err(InitZipOptions(x))
           case Ok(o) => Ok(FileRecord(IntoString(f.name), f.source, o)))
        case ReadFails(m) =>
          (match FileOptionsFor(m, env)
           case Err(x) => Err(InitZipOptions(x))
           case Ok(_) => Err(SourceNotFound(f.source)))
  }

  /** How an error of the direct path is reported on the intermediate path. */
  function AsIntermediateError(e: ZipEntrySpecification, x: MedusaZipError): InputReadError {
    match x
    case ProcessZipOptions(o) => InitZipOptions(o)
    case _ => SourceNotFound(if e.File? then e.file.source else EmptyPath())
  }

  /**
   * Both paths write the same record for an entry and fail on the same
   * entries; an option error is the same error, any other failure becomes
   * "source not found" for the file.
   */
  lemma RecordModesAgree(e: ZipEntrySpecification, env: Env)
    requires Named(e)
    ensures RecordSync(e, env).Ok? <==> RecordIntermediate(e, env).Ok?
    ensures RecordSync(e, env).Ok? ==> RecordSync(e, env).value == RecordIntermediate(e, env).value
    ensures RecordSync(e, env).Err? ==>
      e.File? && RecordIntermediate(e, env).error == AsIntermediateError(e, RecordSync(e, env).error)
  {
  }

  // ----- runs of entries -----

  /** The records written before a run stopped, and the error that stopped it, if any. */
  datatype Outcome<E> = Outcome(log: seq<LogEntry>, failure: Option<E>)

  /** `zip_synchronous`: every entry in order, stopping at the first failure. */
  function RunSync(entries: seq<ZipEntrySpecification>, env: Env): (r: Outcome<MedusaZipError>)
    requires AllNamed(entries)
    ensures |r.log| <= |entries|
    ensures r.failure.None? ==> |r.log| == |entries|
  {
    if |entries| == 0 then Outcome([], None)
    else
      match RecordSync(entries[0], env)
      case Err(x) => Outcome([], Some(x))
      case Ok(rec) =>
        var rest := RunSync(entries[1..], env);
        Outcome([rec] + rest.log, rest.failure)
  }

  /**
   * What a failing entry leaves in the writer on the direct path: `start_file`
   * runs before the copy (lib/src/zip.rs:776-777), so a file whose copy fails
   * stays begun; any earlier failure leaves nothing.
   */
  function StartedRecord(e: ZipEntrySpecification, env: Env): (r: seq<LogEntry>)
    requires Named(e)
    ensures |r| <= 1
    ensures |r| == 1 <==> FailsWhileCopying(e, env)
    ensures |r| == 1 ==> RecordSync(e, env) == Err(MedusaZipError.Io)
    ensures |r| == 1 ==> r[0] == PartialFileRecord(IntoString(e.file.name), e.file.source,
      FileOptionsFor(env.fs[e.file.source].metadata, env).value)
  {
    if FailsWhileCopying(e, env)
    then [PartialFileRecord(IntoString(e.file.name), e.file.source, FileOptionsFor(env.fs[e.file.source].metadata, env).value)]
    else []
  }

  /** What `zip_synchronous` leaves in the writer: every record of the run, then what the failing entry left. */
  function WrittenSync(entries: seq<ZipEntrySpecification>, env: Env): seq<LogEntry>
    requires AllNamed(entries)
  {
    if |entries| == 0 then []
    else
      match RecordSync(entries[0], env)
      case Err(_) => StartedRecord(entries[0], env)
      case Ok(rec) => [rec] + WrittenSync(entries[1..], env)
  }

  /**
   * The writer holds the run's records, followed by one partial file record
   * exactly when the run stopped on an I/O error while copying that file.
   */
  lemma {:induction false} WrittenSyncExtendsRun(entries: seq<ZipEntrySpecification>, env: Env)
    requires AllNamed(entries)
    ensures var r := RunSync(entries, env);
      && (r.failure.None? ==> WrittenSync(entries, env) == r.log)
      && (r.failure.Some? ==>
            |r.log| < |entries| && WrittenSync(entries, env) == r.log + StartedRecord(entries[|r.log|], env))
      && (|WrittenSync(entries, env)| > |r.log| ==> r.failure == Some(MedusaZipError.Io))
  {
    if |entries| > 0 && RecordSync(entries[0], env).Ok? {
      WrittenSyncExtendsRun(entries[1..], env);
      var r := RunSync(entries, env);
      if r.failure.Some? {
        assert entries[|r.log|] == entries[1..][|r.log| - 1];
      }
    }
  }

  /** The entries of one intermediate archive, in order, stopping at the first failure. */
  function RunIntermediate(entries: seq<ZipEntrySpecification>, env: Env): Outcome<InputReadError>
    requires AllNamed(entries)
  {
    if |entries| == 0 then Outcome([], None)
    else
      match RecordIntermediate(entries[0], env)
      case Err(x) => Outcome([], Some(x))
      case Ok(rec) =>
        var rest := RunIntermediate(entries[1..], env);
        Outcome([rec] + rest.log, rest.failure)
  }

  /** The records of a run are the records of its entries up to the failing one, which is named by the failure. */
  lemma {:induction false} RunSyncStopsAtFirstFailure(entries: seq<ZipEntrySpecification>, env: Env)
    requires AllNamed(entries)
    ensures var r := RunSync(entries, env);
      && (forall k :: 0 <= k < |r.log| ==> RecordSync(entries[k], env) == Ok(r.log[k]))
      && (r.failure.Some? ==> |r.log| < |entries| && RecordSync(entries[|r.log|], env) == Err(r.failure.value))
  {
    if |entries| > 0 && RecordSync(entries[0], env).Ok? {
      RunSyncStopsAtFirstFailure(entries[1..], env);
      var r := RunSync(entries, env);
      var rest := RunSync(entries[1..], env);
      forall k | 0 <= k < |r.log| ensures RecordSync(entries[k], env) == Ok(r.log[k]) {
        if k > 0 { assert entries[k] == entries[1..][k - 1] && r.log[k] == rest.log[k - 1]; }
      }
      if r.failure.Some? {
        assert entries[|r.log|] == entries[1..][|rest.log|];
      }
    }
  }

  /** The intermediate path writes the same records as the direct one and fails exactly when it does. */
  lemma {:induction false} RunModesAgree(entries: seq<ZipEntrySpecification>, env: Env)
    requires AllNamed(entries)
    ensures RunIntermediate(entries, env).log == RunSync(entries, env).log
    ensures RunIntermediate(entries, env).failure.None? <==> RunSync(entries, env).failure.None?
  {
    if |entries| > 0 {
      RecordModesAgree(entries[0], env);
      RunModesAgree(entries[1..], env);
    }
  }

  lemma {:induction false} RunSyncAppend(a: seq<ZipEntrySpecification>, b: seq<ZipEntrySpecification>, env: Env)
    requires AllNamed(a) && AllNamed(b)
    ensures AllNamed(a + b)
    ensures var ra, rb := RunSync(a, env), RunSync(b, env);
      RunSync(a + b, env) == if ra.failure.Some? then ra else Outcome(ra.log + rb.log, rb.failure)
  {
    if |a| > 0 {
      assert (a + b)[0] == a[0] && (a + b)[1..] == a[1..] + b;
      RunSyncAppend(a[1..], b, env);
    } else {
      assert a + b == b;
    }
  }

  // ----- chunks -----

  /** `chunks(n)`: consecutive slices of `n` entries, the last one possibly shorter. */
  function Chunks<T>(s: seq<T>, n: nat): (r: seq<seq<T>>)
    requires n >= 1
    ensures forall k :: 0 <= k < |r| ==> 1 <= |r[k]| <= n
    decreases |s|
  {
    if |s| == 0 then []
    else if |s| <= n then [s]
    else [s[..n]] + Chunks(s[n..], n)
  }

  function Flatten<T>(ss: seq<seq<T>>): seq<T> {
    if |ss| == 0 then [] else ss[0] + Flatten(ss[1..])
  }

  /** Chunking loses and reorders nothing. */
  lemma {:induction false} FlattenChunks<T>(s: seq<T>, n: nat)
    requires n >= 1
    ensures Flatten(Chunks(s, n)) == s
    decreases |s|
  {
    if |s| > n {
      FlattenChunks(s[n..], n);
      assert s[..n] + s[n..] == s;
    } else if |s| > 0 {
      assert Flatten([s]) == s + Flatten([]);
    }
  }

  lemma ChunksNamed(entries: seq<ZipEntrySpecification>, n: nat)
    requires n >= 1 && AllNamed(entries)
    ensures forall k :: 0 <= k < |Chunks(entries, n)| ==> AllNamed(Chunks(entries, n)[k])
    decreases |entries|
  {
    if |entries| > n {
      ChunksNamed(entries[n..], n);
    }
  }

  /** `zip_intermediate` on one chunk: its archive, or the first failure as an input-read error. */
  function IntermediateArchive(chunk: seq<ZipEntrySpecification>, env: Env): Result<seq<LogEntry>, MedusaZipError>
    requires AllNamed(chunk)
  {
    var r := RunIntermediate(chunk, env);
    if r.failure.Some? then Err(InputRead(r.failure.value)) else Ok(r.log)
  }

  /** `zip_parallel`: each chunk's archive merged in order; a failing chunk adds nothing and ends the run. */
  function ParallelRun(chunks: seq<seq<ZipEntrySpecification>>, env: Env): Outcome<MedusaZipError>
    requires forall k :: 0 <= k < |chunks| ==> AllNamed(chunks[k])
  {
    if |chunks| == 0 then Outcome([], None)
    else
      match IntermediateArchive(chunks[0], env)
      case Err(x) => Outcome([], Some(x))
      case Ok(archive) =>
        var rest := ParallelRun(chunks[1..], env);
        Outcome(archive + rest.log, rest.failure)
  }

  lemma FlattenNamed(chunks: seq<seq<ZipEntrySpecification>>)
    requires forall k :: 0 <= k < |chunks| ==> AllNamed(chunks[k])
    ensures AllNamed(Flatten(chunks))
  {
    if |chunks| > 0 {
      FlattenNamed(chunks[1..]);
      var f := Flatten(chunks);
      assert f == chunks[0] + Flatten(chunks[1..]);
      forall k | 0 <= k < |f| ensures Named(f[k]) {
        if k >= |chunks[0]| { assert f[k] == Flatten(chunks[1..])[k - |chunks[0]|]; }
      }
    }
  }

  /**
   * Merging chunk archives writes a prefix of what the direct path writes:
   * all of it when nothing fails, only whole chunks before the failing one
   * otherwise, and both paths fail on the same inputs.
   */
  lemma {:induction false} ParallelRunIsPrefix(chunks: seq<seq<ZipEntrySpecification>>, env: Env)
    requires forall k :: 0 <= k < |chunks| ==> AllNamed(chunks[k])
    ensures AllNamed(Flatten(chunks))
    ensures var p, s := ParallelRun(chunks, env), RunSync(Flatten(chunks), env);
      && (p.failure.None? <==> s.failure.None?)
      && (p.failure.None? ==> p.log == s.log)
      && |p.log| <= |s.log| && p.log == s.log[..|p.log|]
      && (p.failure.Some? ==> p.failure.value.InputRead?)
  {
    FlattenNamed(chunks);
    if |chunks| > 0 {
      var c := chunks[0];
      FlattenNamed(chunks[1..]);
      assert Flatten(chunks) == c + Flatten(chunks[1..]);
      RunSyncAppend(c, Flatten(chunks[1..]), env);
      RunModesAgree(c, env);
      ParallelRunIsPrefix(chunks[1..], env);
    }
  }

  /** The parallel path, with chunks of 2000 entries, against the synchronous one on the same entries. */
  lemma ParallelMatchesSync(entries: seq<ZipEntrySpecification>, env: Env)
    requires AllNamed(entries)
    ensures forall k :: 0 <= k < |Chunks(entries, IntermediateChunkSize)| ==> AllNamed(Chunks(entries, IntermediateChunkSize)[k])
    ensures var p, s := ParallelRun(Chunks(entries, IntermediateChunkSize), env), RunSync(entries, env);
      && (p.failure.None? <==> s.failure.None?)
      && (p.failure.None? ==> p.log == s.log)
      && |p.log| <= |s.log| && p.log == s.log[..|p.log|]
  {
    ChunksNamed(entries, IntermediateChunkSize);
    FlattenChunks(entries, IntermediateChunkSize);
    ParallelRunIsPrefix(Chunks(entries, IntermediateChunkSize), env);
  }

  // ----- the planned entries have names -----

  lemma JoinLastNonEmpty(ps: seq<string>)
    requires |ps| >= 1 && |ps[|ps| - 1]| >= 1
    ensures |Join(ps)| >= 1
  {
  }

  lemma OwnPrefixNamed(silent: seq<string>, own: seq<string>)
    requires PrefixParts(own)
    ensures AllNamed(OwnPrefixDirectories(silent, own))
  {
    var D := OwnPrefixDirectories(silent, own);
    forall k | 0 <= k < |D| ensures Named(D[k]) {
      var ps := silent + own[..k + 1];
      assert ps[|ps| - 1] == own[k];
      JoinLastNonEmpty(ps);
    }
  }

  lemma PlacedNamed(it: Item, pre: seq<string>)
    requires it.DirItem? ==> Good(it.components)
    requires it.FileItem? ==> Valid(it.file.name)
    ensures Named(Placed(it, pre))
  {
    var c := if it.DirItem? then it.components else AllComponents(it.file.name);
    if it.FileItem? {
      ValidComponents(it.file.name);
    }
    var ps := pre + c;
    assert ps[|ps| - 1] == c[|c| - 1];
    JoinLastNonEmpty(ps);
  }

  lemma PlaceAllNamed(items: seq<Item>, pre: seq<string>)
    requires WellFormedItems(items)
    ensures AllNamed(PlaceAll(items, pre))
  {
    forall k | 0 <= k < |items| ensures Named(PlaceAll(items, pre)[k]) {
      PlacedNamed(items[k], pre);
    }
  }

  /** Every entry of a plan has a non-empty name, so writing it never reaches `into_string`'s panic. */
  lemma PlanEntriesNamed(sorted: seq<FileSource>, mods: EntryModifications)
    requires AllValid(sorted) && Sorting.SortedBy(sorted, SourceLess)
    requires Plan(sorted, mods).Ok?
    ensures AllNamed(Plan(sorted, mods).value)
  {
    PlanShape(sorted, mods);
    LayoutWellFormed(sorted);
    var silent, own := PrefixComponents(mods.silentExternalPrefix).value, PrefixComponents(mods.ownPrefix).value;
    var D, P := OwnPrefixDirectories(silent, own), PlaceAll(Layout(sorted), silent + own);
    OwnPrefixNamed(silent, own);
    PlaceAllNamed(Layout(sorted), silent + own);
    AllNamedAppend(D, P);
  }

  lemma AllNamedAppend(a: seq<ZipEntrySpecification>, b: seq<ZipEntrySpecification>)
    requires AllNamed(a) && AllNamed(b)
    ensures AllNamed(a + b)
  {
    forall k | 0 <= k < |a + b| ensures Named((a + b)[k]) {
      if k >= |a| { assert (a + b)[k] == b[k - |a|]; }
    }
  }

  // ----- the output archive -----

  /** A zip writer, seen through the records it holds. */
  class ZipOutput {
    var entries: seq<LogEntry>

    constructor ()
      ensures entries == []
    {
      entries := [];
    }

    /** `add_directory`. */
    method AddDirectory(name: string, options: FileOptions)
      modifies this
      ensures entries == old(entries) + [DirectoryRecord(name, options)]
    {
      entries := entries + [DirectoryRecord(name, options)];
    }

    /** `start_file` followed by copying the whole source into it. */
    method AddFile(name: string, source: Path, options: FileOptions)
      modifies this
      ensures entries == old(entries) + [FileRecord(name, source, options)]
    {
      entries := entries + [FileRecord(name, source, options)];
    }

    /** `start_file` followed by a copy of the source that fails part way. */
    method AddPartialFile(name: string, source: Path, options: FileOptions)
      modifies this
      ensures entries == old(entries) + [PartialFileRecord(name, source, options)]
    {
      entries := entries + [PartialFileRecord(name, source, options)];
    }

    /** `merge_archive`: the records of another archive, in their order. */
    method MergeArchive(archive: seq<LogEntry>)
      modifies this
      ensures entries == old(entries) + archive
    {
      entries := entries + archive;
    }
  }

  // ----- the synchronous path -----

  /**
   * `zip_synchronous`: writes entries straight into `out`, in order, and
   * stops at the first that fails; what is written is the run's records and
   * whatever the failing entry had begun.
   */
  method ZipSynchronous(entries: seq<ZipEntrySpecification>, out: ZipOutput, env: Env) returns (failure: Option<MedusaZipError>)
    requires AllNamed(entries)
    modifies out
    ensures out.entries == old(out.entries) + WrittenSync(entries, env)
    ensures failure == RunSync(entries, env).failure
  {
    var inits := FileInitializers(env.mtime);
    ghost var written := WrittenSync(entries, env);
    ghost var run := RunSync(entries, env);
    for i := 0 to |entries|
      invariant old(out.entries) + written == out.entries + WrittenSync(entries[i..], env)
      invariant run.failure == RunSync(entries[i..], env).failure
    {
      failure := SyncEntry(entries, i, inits, out, env);
      if failure.Some? {
        return;
      }
    }
    assert entries[|entries|..] == [];
    assert out.entries + [] == out.entries;
    return None;
  }

  /** One more entry of the run: its record extends it, or its error ends it. */
  lemma SyncStep(entries: seq<ZipEntrySpecification>, i: nat, env: Env)
    requires AllNamed(entries) && i < |entries|
    ensures var rec := RecordSync(entries[i], env);
      && (rec.Err? ==> RunSync(entries[i..], env) == Outcome([], Some(rec.error)))
      && (rec.Ok? ==> RunSync(entries[i..], env).log == [rec.value] + RunSync(entries[i + 1..], env).log)
      && (rec.Ok? ==> RunSync(entries[i..], env).failure == RunSync(entries[i + 1..], env).failure)
      && (rec.Err? ==> WrittenSync(entries[i..], env) == StartedRecord(entries[i], env))
      && (rec.Ok? ==> WrittenSync(entries[i..], env) == [rec.value] + WrittenSync(entries[i + 1..], env))
  {
    assert entries[i..][0] == entries[i] && entries[i..][1..] == entries[i + 1..];
  }

  /**
   * Entry `i` written synchronously: the run from `i` goes on from `i + 1`,
   * or stops with the error, leaving only a file it had begun before its
   * copy failed.
   */
  method SyncEntry(entries: seq<ZipEntrySpecification>, i: nat, inits: seq<FileInitializer>, out: ZipOutput, env: Env)
    returns (failure: Option<MedusaZipError>)
    requires AllNamed(entries) && i < |entries| && inits == FileInitializers(env.mtime)
    modifies out
    ensures failure.Some? ==> RunSync(entries[i..], env) == Outcome([], failure)
    ensures failure.Some? ==> out.entries == old(out.entries) + StartedRecord(entries[i], env)
    ensures failure.None? ==> RunSync(entries[i..], env).failure == RunSync(entries[i + 1..], env).failure
    ensures failure.None? ==>
      old(out.entries) + WrittenSync(entries[i..], env) == out.entries + WrittenSync(entries[i + 1..], env)
  {
    SyncStep(entries, i, env);
    ghost var rest := WrittenSync(entries[i + 1..], env);
    match entries[i] {
    case Directory(d) =>
      out.AddDirectory(IntoString(d), env.options);
    case File(f) =>
      if f.source !in env.fs {
        return Some(InputRead(SourceNotFound(f.source)));
      }
      match env.fs[f.source] {
      case NoMetadata =>
        return Some(MedusaZipError.Io);
      case Readable(m) =>
        var o := SetZipOptionsForFile(inits, env.options, m, env.now);
        if o.Err? {
          return Some(ProcessZipOptions(o.error));
        }
        out.AddFile(IntoString(f.name), f.source, o.value);
      case ReadFails(m) =>
        var o := SetZipOptionsForFile(inits, env.options, m, env.now);
        if o.Err? {
          return Some(ProcessZipOptions(o.error));
        }
        out.AddPartialFile(IntoString(f.name), f.source, o.value);
        return Some(MedusaZipError.Io);
      }
    }
    assert old(out.entries) + ([RecordSync(entries[i], env).value] + rest) == out.entries + rest;
    return None;
  }

  // ----- the parallel path -----

  /** What `open_handle` hands on: a directory name, or the pending one-entry archive of a file. */
  datatype Handle = DirectoryHandle(name: EntryName) | FileHandle(pending: Result<seq<LogEntry>, InputReadError>)

  /** The file opens and its options are set, but copying its contents fails. */
  predicate FailsWhileCopying(e: ZipEntrySpecification, env: Env) {
    && e.File? && e.file.source in env.fs && env.fs[e.file.source].ReadFails?
    && FileOptionsFor(env.fs[e.file.source].metadata, env).Ok?
  }

  /** The record a handle stands for, once its archive is complete. */
  function Resolve(h: Result<Handle, InputReadError>, env: Env): Result<LogEntry, InputReadError>
    requires h.Ok? && h.value.DirectoryHandle? ==> !IsEmpty(h.value.name)
    requires h.Ok? && h.value.FileHandle? && h.value.pending.Ok? ==> |h.value.pending.value| == 1
  {
    match h
    case Err(x) => Err(x)
    case Ok(DirectoryHandle(name)) => Ok(DirectoryRecord(IntoString(name), env.options))
    case Ok(FileHandle(Err(x))) => Err(x)
    case Ok(FileHandle(Ok(archive))) => Ok(archive[0])
  }

  /**
   * `open_handle`: opening, metadata and options errors are reported at
   * once; a failure while copying is reported only through the pending
   * archive. Either way the handle resolves to the entry's record.
   */
  method OpenHandle(e: ZipEntrySpecification, env: Env) returns (h: Result<Handle, InputReadError>)
    requires Named(e)
    ensures h.Ok? && h.value.DirectoryHandle? <==> e.Directory?
    ensures h.Ok? && h.value.DirectoryHandle? ==> h.value.name == e.directory
    ensures h.Ok? && h.value.FileHandle? && h.value.pending.Ok? ==> |h.value.pending.value| == 1
    ensures Resolve(h, env) == RecordIntermediate(e, env)
    ensures h.Err? <==> RecordIntermediate(e, env).Err? && !FailsWhileCopying(e, env)
  {
    match e
    case Directory(d) =>
      return Ok(DirectoryHandle(d));
    case File(f) =>
      if f.source !in env.fs {
        return Err(SourceNotFound(f.source));
      }
      match env.fs[f.source]
      case NoMetadata =>
        return Err(SourceNotFound(f.source));
      case Readable(m) =>
        var o := SetZipOptionsForFile(FileInitializers(env.mtime), env.options, m, env.now);
        if o.Err? {
          return Err(InitZipOptions(o.error));
        }
        return Ok(FileHandle(Ok([FileRecord(IntoString(f.name), f.source, o.value)])));
      case ReadFails(m) =>
        var o := SetZipOptionsForFile(FileInitializers(env.mtime), env.options, m, env.now);
        if o.Err? {
          return Err(InitZipOptions(o.error));
        }
        return Ok(FileHandle(Err(SourceNotFound(f.source))));
  }

  /**
   * `zip_intermediate`: one chunk written, in order, into a fresh archive;
   * the archive when every entry succeeds, else the first failure.
   */
  method ZipIntermediate(chunk: seq<ZipEntrySpecification>, env: Env) returns (r: Result<seq<LogEntry>, MedusaZipError>)
    requires AllNamed(chunk)
    ensures r == IntermediateArchive(chunk, env)
    ensures r.Err? ==> r.error.InputRead?
  {
    var out := new ZipOutput();
    ghost var run := RunIntermediate(chunk, env);
    for i := 0 to |chunk|
      invariant run.log == out.entries + RunIntermediate(chunk[i..], env).log
      invariant run.failure == RunIntermediate(chunk[i..], env).failure
    {
      var failed := IntermediateEntry(chunk, i, out, env);
      if failed.Some? {
        return Err(InputRead(failed.value));
      }
    }
    assert chunk[|chunk|..] == [];
    assert RunIntermediate(chunk[|chunk|..], env) == Outcome([], None);
    assert out.entries + [] == out.entries;
    return Ok(out.entries);
  }

  /** Entry `i` of a chunk opened and written: the run from `i` goes on from `i + 1`, or stops with the error. */
  method IntermediateEntry(chunk: seq<ZipEntrySpecification>, i: nat, out: ZipOutput, env: Env)
    returns (failure: Option<InputReadError>)
    requires AllNamed(chunk) && i < |chunk|
    modifies out
    ensures failure.Some? ==> RunIntermediate(chunk[i..], env).failure == failure
    ensures failure.None? ==> RunIntermediate(chunk[i..], env).failure == RunIntermediate(chunk[i + 1..], env).failure
    ensures failure.None? ==>
      old(out.entries) + RunIntermediate(chunk[i..], env).log == out.entries + RunIntermediate(chunk[i + 1..], env).log
  {
    ghost var rest := RunIntermediate(chunk[i + 1..], env);
    var h := OpenHandle(chunk[i], env);
    IntermediateStep(chunk, i, env, Resolve(h, env));
    if h.Err? {
      return Some(h.error);
    }
    match h.value {
    case DirectoryHandle(name) =>
      out.AddDirectory(IntoString(name), env.options);
    case FileHandle(pending) =>
      if pending.Err? {
        return Some(pending.error);
      }
      out.MergeArchive(pending.value);
    }
    assert old(out.entries) + ([Resolve(h, env).value] + rest.log) == out.entries + rest.log;
    return None;
  }

  /** One more entry of a chunk: its record extends the log, or its error is the chunk's failure. */
  lemma IntermediateStep(chunk: seq<ZipEntrySpecification>, i: nat, env: Env, rec: Result<LogEntry, InputReadError>)
    requires AllNamed(chunk) && i < |chunk| && rec == RecordIntermediate(chunk[i], env)
    ensures rec.Err? ==> RunIntermediate(chunk[i..], env) == Outcome([], Some(rec.error))
    ensures rec.Ok? ==> RunIntermediate(chunk[i..], env).log == [rec.value] + RunIntermediate(chunk[i + 1..], env).log
    ensures rec.Ok? ==> RunIntermediate(chunk[i..], env).failure == RunIntermediate(chunk[i + 1..], env).failure
  {
    assert chunk[i..][0] == chunk[i] && chunk[i..][1..] == chunk[i + 1..];
  }

  lemma ChunksTail<T>(s: seq<T>, n: nat)
    requires n >= 1 && |s| > n
    ensures Chunks(s, n)[1..] == Chunks(s[n..], n)
  {
  }

  /**
   * `zip_parallel`: the entries in chunks of `IntermediateChunkSize`, each
   * chunk's archive merged into `out` in order, until a chunk fails.
   */
  method ZipParallel(entries: seq<ZipEntrySpecification>, out: ZipOutput, env: Env) returns (failure: Option<MedusaZipError>)
    requires AllNamed(entries)
    modifies out
    ensures ChunksNamedAll(entries)
    ensures out.entries == old(out.entries) + ParallelRun(Chunks(entries, IntermediateChunkSize), env).log
    ensures failure == ParallelRun(Chunks(entries, IntermediateChunkSize), env).failure
  {
    ChunksNamed(entries, IntermediateChunkSize);
    var chunks := Chunks(entries, IntermediateChunkSize);
    ghost var run := ParallelRun(chunks, env);
    for j := 0 to |chunks|
      invariant old(out.entries) + run.log == out.entries + ParallelRun(chunks[j..], env).log
      invariant run.failure == ParallelRun(chunks[j..], env).failure
    {
      failure := MergeChunk(chunks, j, out, env);
      if failure.Some? {
        assert out.entries + [] == out.entries;
        return;
      }
    }
    assert chunks[|chunks|..] == [];
    assert out.entries + [] == out.entries;
    return None;
  }

  /** Chunk `j` zipped and merged: the run from `j` goes on from `j + 1`, or stops with the error and writes nothing. */
  method MergeChunk(chunks: seq<seq<ZipEntrySpecification>>, j: nat, out: ZipOutput, env: Env)
    returns (failure: Option<MedusaZipError>)
    requires forall k :: 0 <= k < |chunks| ==> AllNamed(chunks[k])
    requires j < |chunks|
    modifies out
    ensures failure.Some? ==> ParallelRun(chunks[j..], env) == Outcome([], failure) && out.entries == old(out.entries)
    ensures failure.None? ==> ParallelRun(chunks[j..], env).failure == ParallelRun(chunks[j + 1..], env).failure
    ensures failure.None? ==>
      old(out.entries) + ParallelRun(chunks[j..], env).log == out.entries + ParallelRun(chunks[j + 1..], env).log
  {
    assert chunks[j..][0] == chunks[j] && chunks[j..][1..] == chunks[j + 1..];
    ghost var rest := ParallelRun(chunks[j + 1..], env);
    var archive := ZipIntermediate(chunks[j], env);
    if archive.Err? {
      return Some(archive.error);
    }
    out.MergeArchive(archive.value);
    assert old(out.entries) + (archive.value + rest.log) == out.entries + rest.log;
    return None;
  }

  predicate ChunksNamedAll(entries: seq<ZipEntrySpecification>) {
    forall k :: 0 <= k < |Chunks(entries, IntermediateChunkSize)| ==> AllNamed(Chunks(entries, IntermediateChunkSize)[k])
  }

  // ----- the whole archive -----

  /** The options every entry starts from: the static initializers, mtime then compression, over the defaults. */
  function SharedOptions(o: ZipOutputOptions, now: ZipDateTime): FileOptions {
    ApplyAllStatic([MtimeStatic(o.mtimeBehavior), CompressionStatic(o.compression)], DefaultOptions, now)
  }

  function SharedEnv(o: ZipOutputOptions, fs: map<Path, SourceFile>, now: ZipDateTime): Env {
    Env(SharedOptions(o, now), o.mtimeBehavior, now, fs)
  }

  /**
   * `MedusaZip::zip`: plans the entries, then writes them into `out` by the
   * chosen path. Inconsistent input writes nothing. Otherwise both paths
   * succeed exactly when the direct run of the plan does, and then write
   * exactly its records. On failure the direct path leaves the run's records
   * and the file it had begun; the parallel path leaves whole chunks only, a
   * prefix of the run's records.
   */
  method Zip(inputFiles: seq<FileSource>, options: ZipOutputOptions, mods: EntryModifications, parallelism: Parallelism,
             fs: map<Path, SourceFile>, now: ZipDateTime, out: ZipOutput)
    returns (r: Option<MedusaZipError>, ghost sorted: seq<FileSource>)
    requires AllValid(inputFiles)
    modifies out
    ensures multiset(sorted) == multiset(inputFiles) && Sorting.SortedBy(sorted, SourceLess) && AllValid(sorted)
    ensures HasDuplicateNames(inputFiles) ==>
      r.Some? && r.value.InputConsistency? && DuplicateReported(inputFiles, r.value.consistency)
      && out.entries == old(out.entries)
    ensures !HasDuplicateNames(inputFiles) && Plan(sorted, mods).Err? ==>
      r == Some(InputConsistency(Plan(sorted, mods).error)) && out.entries == old(out.entries)
    ensures !HasDuplicateNames(inputFiles) && Plan(sorted, mods).Ok? ==>
      AllNamed(Plan(sorted, mods).value) &&
      var run := RunSync(Plan(sorted, mods).value, SharedEnv(options, fs, now));
      && (r.None? <==> run.failure.None?)
      && (r.None? ==> out.entries == old(out.entries) + run.log)
      && old(out.entries) <= out.entries
      && (parallelism.Synchronous? ==>
            r == run.failure && out.entries == old(out.entries) + WrittenSync(Plan(sorted, mods).value, SharedEnv(options, fs, now)))
      && (parallelism.ParallelMerge? ==> out.entries[|old(out.entries)|..] <= run.log)
  {
    var plan;
    plan, sorted := FromFileSpecs(inputFiles, mods);
    if plan.Err? {
      r := Some(InputConsistency(plan.error));
      return;
    }
    PlanEntriesNamed(sorted, mods);
    var shared := StaticOptions([MtimeStatic(options.mtimeBehavior), CompressionStatic(options.compression)], DefaultOptions, now);
    var env := Env(shared, options.mtimeBehavior, now, fs);
    ghost var before := out.entries;
    match parallelism {
    case Synchronous =>
      r := ZipSynchronous(plan.value, out, env);
      WrittenSyncExtendsRun(plan.value, env);
    case ParallelMerge =>
      r := ZipParallel(plan.value, out, env);
      ParallelMatchesSync(plan.value, env);
      assert out.entries[|before|..] <= RunSync(plan.value, env).log;
    }
  }
}
