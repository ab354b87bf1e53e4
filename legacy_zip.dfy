/**
 * The older generation of the archive writer (libmedusa-zip/src/zip.rs).
 *
 * Its entry plan and its synchronous writing path are the ones of the
 * current library and are taken from `ZipPlan` and `ZipWriting`. What
 * differs is modelled here: four compression methods with their own level
 * ranges, a modification-time behaviour made of an automatic strategy and
 * an optional explicit timestamp, and a parallel path that writes large
 * files straight into the intermediate archives and sizes its chunks from
 * the number of entries.
 */
module LegacyZip {
  import opened Wrappers
  import opened Paths
  import opened EntryNames
  import ZipOptions
  import ZipPlan
  import ZipWriting
  import Sorting
  import Merging

  // ----- compression -----

  /** The compression methods offered by the command line; deflate is the default. */
  datatype CompressionMethod = Stored | Deflated | Bzip2 | Zstd

  const DefaultCompressionMethod: CompressionMethod := Deflated

  /** A method with an optional signed 8-bit level, as the command line parses them. */
  datatype CompressionOptions = CompressionOptions(kind: CompressionMethod, level: Option<ZipOptions.I8>)

  /** An inclusive range of levels. */
  datatype LevelRange = LevelRange(lo: int, hi: int)

  const DeflateRange: LevelRange := LevelRange(0, 9)
  const Bzip2Range: LevelRange := LevelRange(0, 9)
  const ZstdRange: LevelRange := LevelRange(-7, 22)

  predicate Contains(r: LevelRange, level: int) {
    r.lo <= level <= r.hi
  }

  datatype ParseCompressionOptionsError =
    | CompressionLevelWithStored(level: int)
    | InvalidCompressionLevel(kind: CompressionMethod, level: int, range: LevelRange)

  /** A method with its checked level: unsigned for deflate and bzip2, signed for zstd. */
  datatype CompressionStrategy =
    | Uncompressed
    | DeflateAt(level: Option<nat>)
    | Bzip2At(level: Option<nat>)
    | ZstdAt(signedLevel: Option<int>)

  /** `CompressionStrategy::from_options`. */
  function FromOptions(options: CompressionOptions): Result<CompressionStrategy, ParseCompressionOptionsError> {
    var level := options.level;
    match options.kind
    case Stored =>
      if level.None? then Ok(Uncompressed) else Err(CompressionLevelWithStored(level.value))
    case Deflated =>
      if level.None? then Ok(DeflateAt(None))
      else if Contains(DeflateRange, level.value) then Ok(DeflateAt(Some(level.value as nat)))
      else Err(InvalidCompressionLevel(Deflated, level.value, DeflateRange))
    case Bzip2 =>
      if level.None? then Ok(Bzip2At(None))
      else if Contains(Bzip2Range, level.value) then Ok(Bzip2At(Some(level.value as nat)))
      else Err(InvalidCompressionLevel(Bzip2, level.value, Bzip2Range))
    case Zstd =>
      if level.None? then Ok(ZstdAt(None))
      else if Contains(ZstdRange, level.value) then Ok(ZstdAt(Some(level.value)))
      else Err(InvalidCompressionLevel(Zstd, level.value, ZstdRange))
  }

  /** The range a method accepts; "stored" accepts no level at all. */
  function RangeOf(kind: CompressionMethod): Option<LevelRange> {
    match kind
    case Stored => None
    case Deflated => Some(DeflateRange)
    case Bzip2 => Some(Bzip2Range)
    case Zstd => Some(ZstdRange)
  }

  /** The method a strategy stands for. */
  function MethodOf(s: CompressionStrategy): CompressionMethod {
    match s
    case Uncompressed => Stored
    case DeflateAt(_) => Deflated
    case Bzip2At(_) => Bzip2
    case ZstdAt(_) => Zstd
  }

  /** The level a strategy keeps, as a plain integer. */
  function LevelOf(s: CompressionStrategy): Option<int> {
    match s
    case Uncompressed => None
    case DeflateAt(l) => if l.Some? then Some(l.value as int) else None
    case Bzip2At(l) => if l.Some? then Some(l.value as int) else None
    case ZstdAt(l) => l
  }

  /**
   * Options are accepted exactly when no level is given, or when the method
   * has a range and the level lies in it: 0..=9 for deflate and bzip2,
   * -7..=22 for zstd, none for "stored". An accepted strategy keeps the
   * method and the level, sign included; a rejected level is reported with
   * the method and the range it missed.
   */
  lemma FromOptionsAccepts(options: CompressionOptions)
    ensures FromOptions(options).Ok? <==>
      options.level.None? || (RangeOf(options.kind).Some? && Contains(RangeOf(options.kind).value, options.level.value))
    ensures FromOptions(options).Ok? ==>
      && MethodOf(FromOptions(options).value) == options.kind
      && (LevelOf(FromOptions(options).value).Some? <==> options.level.Some?)
      && (options.level.Some? ==> LevelOf(FromOptions(options).value).value == options.level.value)
    ensures options.kind == Stored && options.level.Some? ==>
      FromOptions(options) == Err(CompressionLevelWithStored(options.level.value))
    ensures FromOptions(options).Err? && options.kind != Stored ==>
      FromOptions(options) == Err(InvalidCompressionLevel(options.kind, options.level.value, RangeOf(options.kind).value))
  {
  }

  /** Negative zstd levels are kept; they are out of range for every other method. */
  lemma NegativeLevelOnlyForZstd(kind: CompressionMethod, level: ZipOptions.I8)
    requires level < 0
    ensures FromOptions(CompressionOptions(kind, Some(level))).Ok? <==> kind == Zstd && -7 <= level
  {
  }

  /** The zip library's method for each strategy. */
  function ZipMethodOf(s: CompressionStrategy): ZipOptions.ZipMethod {
    match s
    case Uncompressed => ZipOptions.ZipStored
    case DeflateAt(_) => ZipOptions.ZipDeflated
    case Bzip2At(_) => ZipOptions.ZipBzip2
    case ZstdAt(_) => ZipOptions.ZipZstd
  }

  /** `set_zip_options_static` of a strategy: its method and its level, nothing else. */
  function SetStaticCompression(s: CompressionStrategy, o: ZipOptions.FileOptions): (r: ZipOptions.FileOptions)
    ensures r.compression == ZipMethodOf(s) && r.level == LevelOf(s)
    ensures r.mtime == o.mtime && r.permissions == o.permissions && r.largeFile == o.largeFile
  {
    match s
    case Uncompressed => o.(compression := ZipOptions.ZipStored, level := None)
    case DeflateAt(l) => o.(compression := ZipOptions.ZipDeflated, level := if l.Some? then Some(l.value as int) else None)
    case Bzip2At(l) => o.(compression := ZipOptions.ZipBzip2, level := if l.Some? then Some(l.value as int) else None)
    case ZstdAt(l) => o.(compression := ZipOptions.ZipZstd, level := l)
  }

  // ----- modification time -----

  /** How times are chosen when no explicit timestamp is given; reproducible is the default. */
  datatype AutomaticStrategy = Reproducible | CurrentTime | PreserveSourceTime

  /** An automatic strategy, overridden by an explicit timestamp when one is given. */
  datatype ModifiedTimeBehavior = ModifiedTimeBehavior(automatic: AutomaticStrategy, explicit: Option<ZipOptions.ZipDateTime>)

  /** `ModifiedTimeBehavior::automatic`. */
  function Automatic(s: AutomaticStrategy): ModifiedTimeBehavior {
    ModifiedTimeBehavior(s, None)
  }

  /** `ModifiedTimeBehavior::explicit`: the default strategy with the timestamp set. */
  function Explicit(t: ZipOptions.ZipDateTime): ModifiedTimeBehavior {
    ModifiedTimeBehavior(Reproducible, Some(t))
  }

  /** `set_zip_options_static` of an automatic strategy; `now` is the time taken at start-up. */
  function AutomaticStatic(s: AutomaticStrategy, o: ZipOptions.FileOptions, now: ZipOptions.ZipDateTime): ZipOptions.FileOptions
    decreases if s.PreserveSourceTime? then 1 else 0
  {
    match s
    case Reproducible => o.(mtime := ZipOptions.At(ZipOptions.MinimumZipTime))
    case CurrentTime => o.(mtime := ZipOptions.At(now))
    case PreserveSourceTime => AutomaticStatic(CurrentTime, o, now)
  }

  /** `set_zip_options_for_file` of an automatic strategy. */
  function AutomaticForFile(s: AutomaticStrategy, o: ZipOptions.FileOptions, m: ZipOptions.Metadata, now: ZipOptions.ZipDateTime)
    : Result<ZipOptions.FileOptions, ZipOptions.InitializeError>
  {
    match s
    case Reproducible => Ok(o.(mtime := ZipOptions.At(ZipOptions.MinimumZipTime)))
    case CurrentTime => Ok(o.(mtime := ZipOptions.At(now)))
    case PreserveSourceTime =>
      (match m.modified
       case TimeUnavailable => Err(ZipOptions.Io)
       case TimeOutOfRange => Err(ZipOptions.InvalidDateTime)
       case SourceTime(t) => Ok(o.(mtime := ZipOptions.At(t))))
  }

  /** `set_zip_options_static` of the behaviour. */
  function SetStaticMtime(b: ModifiedTimeBehavior, o: ZipOptions.FileOptions, now: ZipOptions.ZipDateTime): ZipOptions.FileOptions {
    match b.explicit
    case None => AutomaticStatic(b.automatic, o, now)
    case Some(t) => o.(mtime := ZipOptions.At(t))
  }

  /** `set_zip_options_for_file` of the behaviour. */
  function SetMtimeForFile(b: ModifiedTimeBehavior, o: ZipOptions.FileOptions, m: ZipOptions.Metadata, now: ZipOptions.ZipDateTime)
    : Result<ZipOptions.FileOptions, ZipOptions.InitializeError>
  {
    match b.explicit
    case None => AutomaticForFile(b.automatic, o, m, now)
    case Some(t) => Ok(o.(mtime := ZipOptions.At(t)))
  }

  /**
   * An explicit timestamp wins on both paths, whatever the strategy and the
   * file; statically, reproducible gives the minimum zip time and preserving
   * the source time is the same as using the current time.
   */
  lemma ExplicitOverridesAutomatic(b: ModifiedTimeBehavior, o: ZipOptions.FileOptions, m: ZipOptions.Metadata, now: ZipOptions.ZipDateTime)
    ensures b.explicit.Some? ==> SetStaticMtime(b, o, now) == o.(mtime := ZipOptions.At(b.explicit.value))
    ensures b.explicit.Some? ==> SetMtimeForFile(b, o, m, now) == Ok(o.(mtime := ZipOptions.At(b.explicit.value)))
    ensures b == Automatic(Reproducible) ==> SetStaticMtime(b, o, now).mtime == ZipOptions.At(ZipOptions.MinimumZipTime)
    ensures SetStaticMtime(Automatic(PreserveSourceTime), o, now) == SetStaticMtime(Automatic(CurrentTime), o, now)
    ensures SetStaticMtime(b, o, now) == o.(mtime := SetStaticMtime(b, o, now).mtime)
  {
  }

  /** The same behaviour in the form the current library gives it. */
  function Current(b: ModifiedTimeBehavior): ZipOptions.ModifiedTimeBehavior {
    match b.explicit
    case Some(t) => ZipOptions.Explicit(t)
    case None =>
      match b.automatic
      case Reproducible => ZipOptions.Reproducible
      case CurrentTime => ZipOptions.CurrentTime
      case PreserveSourceTime => ZipOptions.PreserveSourceTime
  }

  /**
   * The struct form sets exactly the times the current library's enum sets,
   * statically and per file, so the per-file initializers of the current
   * library apply to it unchanged.
   */
  lemma CurrentAgrees(b: ModifiedTimeBehavior, o: ZipOptions.FileOptions, m: ZipOptions.Metadata, now: ZipOptions.ZipDateTime)
    ensures SetStaticMtime(b, o, now) == ZipOptions.SetStaticMtime(Current(b), o, now)
    ensures SetMtimeForFile(b, o, m, now) == ZipOptions.SetMtimeForFile(Current(b), o, m, now)
  {
  }

  // ----- the static initializers -----

  /** The steps that set options shared by all entries: the time, then the compression. */
  datatype StaticInitializer = MtimeStatic(behavior: ModifiedTimeBehavior) | CompressionStatic(strategy: CompressionStrategy)

  function ApplyStatic(init: StaticInitializer, o: ZipOptions.FileOptions, now: ZipOptions.ZipDateTime): ZipOptions.FileOptions {
    match init
    case MtimeStatic(b) => SetStaticMtime(b, o, now)
    case CompressionStatic(s) => SetStaticCompression(s, o)
  }

  function ApplyAllStatic(inits: seq<StaticInitializer>, o: ZipOptions.FileOptions, now: ZipOptions.ZipDateTime): ZipOptions.FileOptions {
    if |inits| == 0 then o else ApplyAllStatic(inits[1..], ApplyStatic(inits[0], o, now), now)
  }

  /** The loop in `MedusaZip::zip` that folds the static initializers over the options. */
  method StaticOptions(inits: seq<StaticInitializer>, options: ZipOptions.FileOptions, now: ZipOptions.ZipDateTime)
    returns (o: ZipOptions.FileOptions)
    ensures o == ApplyAllStatic(inits, options, now)
  {
    o := options;
    for i := 0 to |inits|
      invariant ApplyAllStatic(inits[i..], o, now) == ApplyAllStatic(inits, options, now)
    {
      assert inits[i..][1..] == inits[i + 1..];
      o := ApplyStatic(inits[i], o, now);
    }
    assert inits[|inits|..] == [];
  }

  /** The options every entry starts from. */
  function SharedOptions(b: ModifiedTimeBehavior, s: CompressionStrategy, now: ZipOptions.ZipDateTime): ZipOptions.FileOptions {
    ApplyAllStatic([MtimeStatic(b), CompressionStatic(s)], ZipOptions.DefaultOptions, now)
  }

  /**
   * The shared options carry the behaviour's static time and the strategy's
   * method and level, and nothing else differs from the library defaults.
   */
  lemma SharedOptionsEffect(b: ModifiedTimeBehavior, s: CompressionStrategy, now: ZipOptions.ZipDateTime)
    ensures var o := SharedOptions(b, s, now);
      && o.mtime == SetStaticMtime(b, ZipOptions.DefaultOptions, now).mtime
      && o.mtime == ZipOptions.At(ZipOptions.StaticMtime(Current(b), now))
      && o.compression == ZipMethodOf(s) && o.level == LevelOf(s)
      && o.permissions == None && !o.largeFile
  {
    var inits := [MtimeStatic(b), CompressionStatic(s)];
    var o1 := SetStaticMtime(b, ZipOptions.DefaultOptions, now);
    assert inits[1..] == [CompressionStatic(s)];
    assert [CompressionStatic(s)][1..] == [];
    assert ApplyAllStatic(inits, ZipOptions.DefaultOptions, now) == ApplyAllStatic([CompressionStatic(s)], o1, now);
    assert ApplyAllStatic([CompressionStatic(s)], o1, now) == ApplyAllStatic([], SetStaticCompression(s, o1), now);
    CurrentAgrees(b, ZipOptions.DefaultOptions, ZipOptions.Metadata(0, ZipOptions.TimeUnavailable, 0), now);
  }

  // ----- errors -----

  datatype InputReadError =
    | SourceNotFound(source: Path)
    | ImmediateZip(source: Path)              // the zip library failed while building a file's one-entry archive
    | InitZipOptions(error: ZipOptions.InitializeError)

  datatype MedusaZipError =
    | Io
    | ZipLibrary                               // copying a large file into an intermediate archive failed; other zip-library calls are taken to succeed
    | InputConsistency(consistency: ZipPlan.InputConsistencyError)
    | InputRead(read: InputReadError)
    | ParseZipOptions(parse: ParseCompressionOptionsError)
    | ProcessZipOptions(options: ZipOptions.InitializeError)

  /** An error of the synchronous path, whose code is the current library's. */
  function FromShared(x: ZipWriting.MedusaZipError): MedusaZipError {
    match x
    case Io => Io
    case InputConsistency(c) => InputConsistency(c)
    case InputRead(r) =>
      InputRead(match r
                case SourceNotFound(p) => SourceNotFound(p)
                case InitZipOptions(o) => InitZipOptions(o))
    case ProcessZipOptions(o) => ProcessZipOptions(o)
  }

  // ----- one entry of an intermediate archive -----

  /** Files above this many bytes are not read ahead into a one-entry archive. */
  const ImmediateFileMaxSize: nat := 10_000

  /** A file entry with its per-file options; `copies` says whether its contents can be read. */
  function WithFileOptions(f: FileSource, m: ZipOptions.Metadata, copies: bool, env: ZipWriting.Env): Result<ZipWriting.LogEntry, MedusaZipError>
    requires !IsEmpty(f.name)
  {
    match ZipWriting.FileOptionsFor(m, env)
    case Err(x) => Err(InputRead(InitZipOptions(x)))
    case Ok(o) =>
      if copies then Ok(ZipWriting.FileRecord(IntoString(f.name), f.source, o))
      else if m.len > ImmediateFileMaxSize then Err(ZipLibrary)
      else Err(InputRead(ImmediateZip(f.source)))
  }

  /**
   * One entry as `open_handle` and `zip_intermediate` write it: a file of
   * more than `ImmediateFileMaxSize` bytes is copied into the intermediate
   * archive with the shared options, so its time, mode, small-file and
   * zip64 settings are never applied.
   */
  function RecordAsWritten(e: ZipPlan.ZipEntrySpecification, env: ZipWriting.Env): Result<ZipWriting.LogEntry, MedusaZipError>
    requires ZipWriting.Named(e)
  {
    match e
    case Directory(d) => Ok(ZipWriting.DirectoryRecord(IntoString(d), env.options))
    case File(f) =>
      if f.source !in env.fs then Err(InputRead(SourceNotFound(f.source)))
      else
        match env.fs[f.source]
        case NoMetadata => Err(InputRead(SourceNotFound(f.source)))
        case Readable(m) =>
          if m.len > ImmediateFileMaxSize then Ok(ZipWriting.FileRecord(IntoString(f.name), f.source, env.options))
          else WithFileOptions(f, m, true, env)
        case ReadFails(m) =>
          if m.len > ImmediateFileMaxSize then Err(ZipLibrary)
          else WithFileOptions(f, m, false, env)
  }

  /** One entry with the per-file options applied to every file, as the synchronous path applies them. */
  function Record(e: ZipPlan.ZipEntrySpecification, env: ZipWriting.Env): Result<ZipWriting.LogEntry, MedusaZipError>
    requires ZipWriting.Named(e)
  {
    match e
    case Directory(d) => Ok(ZipWriting.DirectoryRecord(IntoString(d), env.options))
    case File(f) =>
      if f.source !in env.fs then Err(InputRead(SourceNotFound(f.source)))
      else
        match env.fs[f.source]
        case NoMetadata => Err(InputRead(SourceNotFound(f.source)))
        case Readable(m) => WithFileOptions(f, m, true, env)
        case ReadFails(m) => WithFileOptions(f, m, false, env)
  }

  /**
   * Written with per-file options, an entry of an intermediate archive is
   * the record the synchronous path writes, and it fails exactly when that
   * path fails; the failures are input-read or zip-library errors.
   */
  lemma RecordMatchesSync(e: ZipPlan.ZipEntrySpecification, env: ZipWriting.Env)
    requires ZipWriting.Named(e)
    ensures Record(e, env).Ok? <==> ZipWriting.RecordSync(e, env).Ok?
    ensures Record(e, env).Ok? ==> Record(e, env).value == ZipWriting.RecordSync(e, env).value
    ensures Record(e, env).Err? ==> e.File? && (Record(e, env).error.InputRead? || Record(e, env).error.ZipLibrary?)
  {
  }

  /**
   * The source differs from `Record` only on files larger than
   * `ImmediateFileMaxSize`: a readable one is written with the shared
   * options, while the per-file options would have set its mode.
   */
  lemma LargeFileSkipsFileOptions(e: ZipPlan.ZipEntrySpecification, env: ZipWriting.Env)
    requires ZipWriting.Named(e)
    ensures !(e.File? && e.file.source in env.fs && !env.fs[e.file.source].NoMetadata?
              && env.fs[e.file.source].metadata.len > ImmediateFileMaxSize)
      ==> RecordAsWritten(e, env) == Record(e, env)
    ensures e.File? && e.file.source in env.fs && env.fs[e.file.source].Readable?
            && env.fs[e.file.source].metadata.len > ImmediateFileMaxSize ==>
      && RecordAsWritten(e, env) == Ok(ZipWriting.FileRecord(IntoString(e.file.name), e.file.source, env.options))
      && (Record(e, env).Ok? ==> Record(e, env).value.options.permissions == Some(env.fs[e.file.source].metadata.mode))
  {
    if e.File? && e.file.source in env.fs && env.fs[e.file.source].Readable? {
      ZipOptions.FileInitializersEffect(env.mtime, env.options, env.fs[e.file.source].metadata, env.now);
    }
  }

  /**
   * A file of 20000 bytes with mode 0o755: written through an intermediate
   * archive it gets no mode (which the writer stores as 0o644), written
   * synchronously it gets 0o755. With its
   * source time preserved but unreadable, the synchronous path fails on it
   * while the intermediate archive takes it.
   */
  lemma LargeFileExample()
    ensures var p := Path(true, ["big"]);
      var e := ZipPlan.File(FileSource(EntryName("big", []), p));
      var env := ZipWriting.Env(ZipOptions.DefaultOptions, ZipOptions.Reproducible, ZipOptions.MinimumZipTime,
                                map[p := ZipWriting.Readable(ZipOptions.Metadata(20000, ZipOptions.TimeUnavailable, 0x1ED))]);
      var preserve := env.(mtime := ZipOptions.PreserveSourceTime);
      && ZipWriting.Named(e)
      && RecordAsWritten(e, env).Ok? && RecordAsWritten(e, env).value.options.permissions == None
      && ZipWriting.RecordSync(e, env).Ok? && ZipWriting.RecordSync(e, env).value.options.permissions == Some(0x1ED)
      && RecordAsWritten(e, preserve).Ok? && ZipWriting.RecordSync(e, preserve).Err?
  {
    var p := Path(true, ["big"]);
    var m := ZipOptions.Metadata(20000, ZipOptions.TimeUnavailable, 0x1ED);
    var env := ZipWriting.Env(ZipOptions.DefaultOptions, ZipOptions.Reproducible, ZipOptions.MinimumZipTime,
                              map[p := ZipWriting.Readable(m)]);
    ZipOptions.FileInitializersEffect(env.mtime, env.options, m, env.now);
    ZipOptions.FileInitializersEffect(ZipOptions.PreserveSourceTime, env.options, m, env.now);
  }

  // ----- runs of entries -----

  /** The entries of one intermediate archive, in order, stopping at the first failure. */
  function RunIntermediate(entries: seq<ZipPlan.ZipEntrySpecification>, env: ZipWriting.Env): ZipWriting.Outcome<MedusaZipError>
    requires ZipWriting.AllNamed(entries)
  {
    if |entries| == 0 then ZipWriting.Outcome([], None)
    else
      match Record(entries[0], env)
      case Err(x) => ZipWriting.Outcome([], Some(x))
      case Ok(rec) =>
        var rest := RunIntermediate(entries[1..], env);
        ZipWriting.Outcome([rec] + rest.log, rest.failure)
  }

  /** An intermediate archive writes what the synchronous path writes, and fails exactly when it does. */
  lemma {:induction false} RunMatchesSync(entries: seq<ZipPlan.ZipEntrySpecification>, env: ZipWriting.Env)
    requires ZipWriting.AllNamed(entries)
    ensures RunIntermediate(entries, env).log == ZipWriting.RunSync(entries, env).log
    ensures RunIntermediate(entries, env).failure.None? <==> ZipWriting.RunSync(entries, env).failure.None?
  {
    if |entries| > 0 {
      RecordMatchesSync(entries[0], env);
      RunMatchesSync(entries[1..], env);
    }
  }

  lemma {:induction false} RunIntermediateAppend(a: seq<ZipPlan.ZipEntrySpecification>, b: seq<ZipPlan.ZipEntrySpecification>, env: ZipWriting.Env)
    requires ZipWriting.AllNamed(a) && ZipWriting.AllNamed(b)
    ensures ZipWriting.AllNamed(a + b)
    ensures var ra, rb := RunIntermediate(a, env), RunIntermediate(b, env);
      RunIntermediate(a + b, env) == if ra.failure.Some? then ra else ZipWriting.Outcome(ra.log + rb.log, rb.failure)
  {
    ZipWriting.AllNamedAppend(a, b);
    if |a| > 0 {
      assert (a + b)[0] == a[0] && (a + b)[1..] == a[1..] + b;
      match Record(a[0], env)
      case Err(_) =>
      case Ok(rec) =>
        RunIntermediateAppend(a[1..], b, env);
        var tail, rb := RunIntermediate(a[1..], env), RunIntermediate(b, env);
        assert [rec] + (tail.log + rb.log) == ([rec] + tail.log) + rb.log;
    } else {
      assert a + b == b;
    }
  }

  /** `zip_intermediate` on one chunk: its archive, or the first failure. */
  function IntermediateArchive(chunk: seq<ZipPlan.ZipEntrySpecification>, env: ZipWriting.Env): Result<seq<ZipWriting.LogEntry>, MedusaZipError>
    requires ZipWriting.AllNamed(chunk)
  {
    var r := RunIntermediate(chunk, env);
    if r.failure.Some? then Err(r.failure.value) else Ok(r.log)
  }

  /**
   * `zip_parallel`: every chunk's archive is built before any is merged, so a
   * failing chunk leaves the output untouched; otherwise the archives are
   * merged in chunk order. Of several failing chunks, the first stands for
   * the one `try_join_all` reports.
   */
  function ParallelRun(chunks: seq<seq<ZipPlan.ZipEntrySpecification>>, env: ZipWriting.Env): ZipWriting.Outcome<MedusaZipError>
    requires forall k :: 0 <= k < |chunks| ==> ZipWriting.AllNamed(chunks[k])
  {
    if |chunks| == 0 then ZipWriting.Outcome([], None)
    else
      match IntermediateArchive(chunks[0], env)
      case Err(x) => ZipWriting.Outcome([], Some(x))
      case Ok(archive) =>
        var rest := ParallelRun(chunks[1..], env);
        if rest.failure.Some? then rest else ZipWriting.Outcome(archive + rest.log, None)
  }

  /**
   * The chunks' archives together are the run of all their entries when
   * nothing fails; otherwise nothing is written and the failure is the one
   * of the first failing entry.
   */
  lemma {:induction false} ParallelRunIsRun(chunks: seq<seq<ZipPlan.ZipEntrySpecification>>, env: ZipWriting.Env)
    requires forall k :: 0 <= k < |chunks| ==> ZipWriting.AllNamed(chunks[k])
    ensures ZipWriting.AllNamed(ZipWriting.Flatten(chunks))
    ensures var p, r := ParallelRun(chunks, env), RunIntermediate(ZipWriting.Flatten(chunks), env);
      && p.failure == r.failure
      && (p.failure.None? ==> p.log == r.log)
      && (p.failure.Some? ==> p.log == [])
  {
    ZipWriting.FlattenNamed(chunks);
    if |chunks| > 0 {
      ZipWriting.FlattenNamed(chunks[1..]);
      assert ZipWriting.Flatten(chunks) == chunks[0] + ZipWriting.Flatten(chunks[1..]);
      RunIntermediateAppend(chunks[0], ZipWriting.Flatten(chunks[1..]), env);
      ParallelRunIsRun(chunks[1..], env);
    }
  }

  // ----- chunk sizes -----

  /** The number of intermediate archives aimed at. */
  const IntermediateZipThreads: nat := 20

  /** `chunk_size` as written: a twentieth of the entries, or all of them when there are fewer than twenty. */
  function ChunkSizeAsWritten(len: nat): nat {
    if len >= IntermediateZipThreads then len / IntermediateZipThreads else len
  }

  /**
   * With no input files and no own prefix the plan is empty, and the chunk
   * size for it is 0, which `chunks` rejects by panicking.
   */
  lemma EmptyPlanPanics()
    ensures ZipPlan.Plan([], ZipPlan.EntryModifications(None, None)) == Ok([])
    ensures ChunkSizeAsWritten(|ZipPlan.Plan([], ZipPlan.EntryModifications(None, None)).value|) == 0
  {
    assert ZipPlan.Layout([]) == [];
    assert ZipPlan.Render([], Empty()) == [];
    assert ZipPlan.OwnPrefixDirectories([], []) == [];
  }

  /** The chunk size with the empty list given size 1, so that it has no chunks at all. */
  function ChunkSize(len: nat): (n: nat)
    ensures n >= 1
  {
    if len == 0 then 1 else ChunkSizeAsWritten(len)
  }

  /**
   * Chunks of the intended size are consecutive, non-empty, at most
   * `ChunkSize` long and together give back the entries in order; fewer than
   * twenty entries make one chunk, and from twenty on there are at least
   * twenty chunks. For a non-empty list the size is the source's.
   */
  lemma {:induction false} ChunkSizeSound<T>(s: seq<T>)
    ensures |s| >= 1 ==> ChunkSize(|s|) == ChunkSizeAsWritten(|s|) && ChunkSize(|s|) <= |s|
    ensures ZipWriting.Flatten(ZipWriting.Chunks(s, ChunkSize(|s|))) == s
    ensures |s| == 0 ==> ZipWriting.Chunks(s, ChunkSize(|s|)) == []
    ensures 1 <= |s| < IntermediateZipThreads ==> ZipWriting.Chunks(s, ChunkSize(|s|)) == [s]
    ensures |s| >= IntermediateZipThreads ==> ChunkSize(|s|) * IntermediateZipThreads <= |s|
  {
    ZipWriting.FlattenChunks(s, ChunkSize(|s|));
  }

  // ----- writing -----

  /** What `open_handle` hands on: a directory, a large file still to copy, or a file's one-entry archive. */
  datatype Handle =
    | DirectoryHandle(name: EntryName)
    | LargeFileHandle(name: EntryName, source: Path, options: ZipOptions.FileOptions, copies: bool)
    | ImmediateFile(archive: seq<ZipWriting.LogEntry>)

  predicate Usable(h: Handle) {
    match h
    case DirectoryHandle(name) => !IsEmpty(name)
    case LargeFileHandle(name, _, _, _) => !IsEmpty(name)
    case ImmediateFile(archive) => |archive| == 1
  }

  /** The record a handle stands for once it is written. */
  function Resolve(h: Result<Handle, MedusaZipError>, env: ZipWriting.Env): Result<ZipWriting.LogEntry, MedusaZipError>
    requires h.Ok? ==> Usable(h.value)
  {
    match h
    case Err(x) => Err(x)
    case Ok(DirectoryHandle(name)) => Ok(ZipWriting.DirectoryRecord(IntoString(name), env.options))
    case Ok(LargeFileHandle(name, source, o, copies)) =>
      if copies then Ok(ZipWriting.FileRecord(IntoString(name), source, o)) else Err(ZipLibrary)
    case Ok(ImmediateFile(archive)) => Ok(archive[0])
  }

  /**
   * `open_handle` with the per-file options set before the size is looked
   * at: small files are read into a one-entry archive at once, large ones
   * are handed on to be copied by the intermediate archive. Either way the
   * handle resolves to the entry's record.
   */
  method OpenHandle(e: ZipPlan.ZipEntrySpecification, env: ZipWriting.Env) returns (h: Result<Handle, MedusaZipError>)
    requires ZipWriting.Named(e)
    ensures h.Ok? ==> Usable(h.value)
    ensures h.Ok? && h.value.DirectoryHandle? <==> e.Directory?
    ensures h.Err? ==> h.error.InputRead?
    ensures Resolve(h, env) == Record(e, env)
  {
    match e
    case Directory(d) =>
      return Ok(DirectoryHandle(d));
    case File(f) =>
      if f.source !in env.fs {
        return Err(InputRead(SourceNotFound(f.source)));
      }
      var file := env.fs[f.source];
      if file.NoMetadata? {
        return Err(InputRead(SourceNotFound(f.source)));
      }
      var m := file.metadata;
      var o := ZipOptions.SetZipOptionsForFile(ZipOptions.FileInitializers(env.mtime), env.options, m, env.now);
      if o.Err? {
        return Err(InputRead(InitZipOptions(o.error)));
      }
      if m.len > ImmediateFileMaxSize {
        return Ok(LargeFileHandle(f.name, f.source, o.value, file.Readable?));
      }
      if file.ReadFails? {
        return Err(InputRead(ImmediateZip(f.source)));
      }
      return Ok(ImmediateFile([ZipWriting.FileRecord(IntoString(f.name), f.source, o.value)]));
  }

  /** One more entry of a chunk: its record extends the run, or its error ends it. */
  lemma IntermediateStep(chunk: seq<ZipPlan.ZipEntrySpecification>, i: nat, env: ZipWriting.Env)
    requires ZipWriting.AllNamed(chunk) && i < |chunk|
    ensures var rec := Record(chunk[i], env);
      && (rec.Err? ==> RunIntermediate(chunk[i..], env) == ZipWriting.Outcome([], Some(rec.error)))
      && (rec.Ok? ==> RunIntermediate(chunk[i..], env).log == [rec.value] + RunIntermediate(chunk[i + 1..], env).log)
      && (rec.Ok? ==> RunIntermediate(chunk[i..], env).failure == RunIntermediate(chunk[i + 1..], env).failure)
  {
    assert chunk[i..][0] == chunk[i] && chunk[i..][1..] == chunk[i + 1..];
  }

  /** One handle written into an intermediate archive: its record, or the failure to copy a large file. */
  method WriteHandle(h: Handle, out: ZipWriting.ZipOutput, env: ZipWriting.Env) returns (failure: Option<MedusaZipError>)
    requires Usable(h)
    modifies out
    ensures Resolve(Ok(h), env).Ok? ==> failure.None? && out.entries == old(out.entries) + [Resolve(Ok(h), env).value]
    ensures Resolve(Ok(h), env).Err? ==> failure == Some(Resolve(Ok(h), env).error) && out.entries == old(out.entries)
  {
    match h {
    case DirectoryHandle(name) =>
      out.AddDirectory(IntoString(name), env.options);
    case LargeFileHandle(name, source, o, copies) =>
      if !copies {
        return Some(ZipLibrary);
      }
      out.AddFile(IntoString(name), source, o);
    case ImmediateFile(archive) =>
      assert archive == [archive[0]];
      out.MergeArchive(archive);
    }
    return None;
  }

  /** Entry `i` of a chunk opened and written: the run from `i` goes on from `i + 1`, or stops with the error. */
  method IntermediateEntry(chunk: seq<ZipPlan.ZipEntrySpecification>, i: nat, out: ZipWriting.ZipOutput, env: ZipWriting.Env)
    returns (failure: Option<MedusaZipError>)
    requires ZipWriting.AllNamed(chunk) && i < |chunk|
    modifies out
    ensures failure.Some? ==> RunIntermediate(chunk[i..], env).failure == failure
    ensures failure.None? ==> RunIntermediate(chunk[i..], env).failure == RunIntermediate(chunk[i + 1..], env).failure
    ensures failure.None? ==>
      old(out.entries) + RunIntermediate(chunk[i..], env).log == out.entries + RunIntermediate(chunk[i + 1..], env).log
  {
    IntermediateStep(chunk, i, env);
    ghost var rest := RunIntermediate(chunk[i + 1..], env);
    var h := OpenHandle(chunk[i], env);
    if h.Err? {
      return Some(h.error);
    }
    failure := WriteHandle(h.value, out, env);
    if failure.None? {
      assert old(out.entries) + ([Record(chunk[i], env).value] + rest.log) == out.entries + rest.log;
    }
  }

  /**
   * `zip_intermediate`: the handles of one chunk written, in order, into a
   * fresh archive; the archive when every entry succeeds, else the first
   * failure.
   */
  method ZipIntermediate(chunk: seq<ZipPlan.ZipEntrySpecification>, env: ZipWriting.Env)
    returns (r: Result<seq<ZipWriting.LogEntry>, MedusaZipError>)
    requires ZipWriting.AllNamed(chunk)
    ensures r == IntermediateArchive(chunk, env)
  {
    var out := new ZipWriting.ZipOutput();
    ghost var run := RunIntermediate(chunk, env);
    for i := 0 to |chunk|
      invariant run.log == out.entries + RunIntermediate(chunk[i..], env).log
      invariant run.failure == RunIntermediate(chunk[i..], env).failure
    {
      var failed := IntermediateEntry(chunk, i, out, env);
      if failed.Some? {
        return Err(failed.value);
      }
    }
    assert chunk[|chunk|..] == [];
    assert RunIntermediate(chunk[|chunk|..], env) == ZipWriting.Outcome([], None);
    assert out.entries + [] == out.entries;
    return Ok(out.entries);
  }

  lemma {:induction false} ParallelRunSucceeds(chunks: seq<seq<ZipPlan.ZipEntrySpecification>>, archives: seq<seq<ZipWriting.LogEntry>>, env: ZipWriting.Env)
    requires forall k :: 0 <= k < |chunks| ==> ZipWriting.AllNamed(chunks[k])
    requires |archives| == |chunks|
    requires forall k :: 0 <= k < |chunks| ==> IntermediateArchive(chunks[k], env) == Ok(archives[k])
    ensures ParallelRun(chunks, env) == ZipWriting.Outcome(ZipWriting.Flatten(archives), None)
  {
    if |chunks| > 0 {
      ParallelRunSucceeds(chunks[1..], archives[1..], env);
    }
  }

  lemma {:induction false} ParallelRunFails(chunks: seq<seq<ZipPlan.ZipEntrySpecification>>, j: nat, env: ZipWriting.Env)
    requires forall k :: 0 <= k < |chunks| ==> ZipWriting.AllNamed(chunks[k])
    requires j < |chunks| && IntermediateArchive(chunks[j], env).Err?
    requires forall k :: 0 <= k < j ==> IntermediateArchive(chunks[k], env).Ok?
    ensures ParallelRun(chunks, env) == ZipWriting.Outcome([], Some(IntermediateArchive(chunks[j], env).error))
  {
    if j > 0 {
      ParallelRunFails(chunks[1..], j - 1, env);
    }
  }

  predicate ChunksNamed(entries: seq<ZipPlan.ZipEntrySpecification>) {
    forall k :: 0 <= k < |ZipWriting.Chunks(entries, ChunkSize(|entries|))| ==>
      ZipWriting.AllNamed(ZipWriting.Chunks(entries, ChunkSize(|entries|))[k])
  }

  /**
   * `zip_parallel`: all intermediate archives are built first; if one fails
   * nothing is merged, otherwise they are merged into `out` in chunk order.
   */
  method ZipParallel(entries: seq<ZipPlan.ZipEntrySpecification>, out: ZipWriting.ZipOutput, env: ZipWriting.Env)
    returns (failure: Option<MedusaZipError>)
    requires ZipWriting.AllNamed(entries)
    modifies out
    ensures ChunksNamed(entries)
    ensures out.entries == old(out.entries) + ParallelRun(ZipWriting.Chunks(entries, ChunkSize(|entries|)), env).log
    ensures failure == ParallelRun(ZipWriting.Chunks(entries, ChunkSize(|entries|)), env).failure
  {
    var size := ChunkSize(|entries|);
    ZipWriting.ChunksNamed(entries, size);
    var chunks := ZipWriting.Chunks(entries, size);
    var archives: seq<seq<ZipWriting.LogEntry>> := [];
    for j := 0 to |chunks|
      invariant |archives| == j
      invariant out.entries == old(out.entries)
      invariant forall k :: 0 <= k < j ==> IntermediateArchive(chunks[k], env) == Ok(archives[k])
    {
      var archive := ZipIntermediate(chunks[j], env);
      if archive.Err? {
        ParallelRunFails(chunks, j, env);
        return Some(archive.error);
      }
      archives := archives + [archive.value];
    }
    ParallelRunSucceeds(chunks, archives, env);
    ghost var start := out.entries;
    for j := 0 to |archives|
      invariant out.entries + ZipWriting.Flatten(archives[j..]) == start + ZipWriting.Flatten(archives)
    {
      assert archives[j..][1..] == archives[j + 1..];
      Merging.Associative(out.entries, archives[j], ZipWriting.Flatten(archives[j + 1..]));
      out.MergeArchive(archives[j]);
    }
    assert archives[|archives|..] == [];
    return None;
  }

  /**
   * With per-file options applied to every file, the parallel path succeeds
   * exactly when the synchronous one does and then writes the same records;
   * when it fails it writes nothing, and reports the first failing entry.
   */
  lemma ParallelMatchesSync(entries: seq<ZipPlan.ZipEntrySpecification>, env: ZipWriting.Env)
    requires ZipWriting.AllNamed(entries)
    ensures ChunksNamed(entries)
    ensures var p, s := ParallelRun(ZipWriting.Chunks(entries, ChunkSize(|entries|)), env), ZipWriting.RunSync(entries, env);
      && (p.failure.None? <==> s.failure.None?)
      && (p.failure.None? ==> p.log == s.log)
      && (p.failure.Some? ==> p.log == [])
      && p.failure == RunIntermediate(entries, env).failure
  {
    ZipWriting.ChunksNamed(entries, ChunkSize(|entries|));
    ChunkSizeSound(entries);
    ParallelRunIsRun(ZipWriting.Chunks(entries, ChunkSize(|entries|)), env);
    RunMatchesSync(entries, env);
  }

  // ----- the whole archive -----

  /** The writing path; the older library writes synchronously unless asked otherwise. */
  const DefaultParallelism: ZipWriting.Parallelism := ZipWriting.Synchronous

  datatype ZipOutputOptions = ZipOutputOptions(mtimeBehavior: ModifiedTimeBehavior, compression: CompressionOptions)

  /** What writing depends on: the shared options, the behaviour in its current form, the clock and the filesystem. */
  function WritingEnv(b: ModifiedTimeBehavior, s: CompressionStrategy, fs: map<Path, ZipWriting.SourceFile>, now: ZipOptions.ZipDateTime): ZipWriting.Env {
    ZipWriting.Env(SharedOptions(b, s, now), Current(b), now, fs)
  }

  function FailureFromShared(f: Option<ZipWriting.MedusaZipError>): Option<MedusaZipError> {
    if f.Some? then Some(FromShared(f.value)) else None
  }

  /**
   * `MedusaZip::zip`: checks the compression options, plans the entries and
   * writes them into `out` by the chosen path. Bad compression options or
   * inconsistent input write nothing. Otherwise both paths succeed exactly
   * when the synchronous run of the plan does, and then write exactly its
   * records; on failure the synchronous path leaves the records before it
   * and the file it had begun, the parallel one leaves the output untouched.
   */
  method Zip(inputFiles: seq<FileSource>, options: ZipOutputOptions, mods: ZipPlan.EntryModifications,
             parallelism: ZipWriting.Parallelism, fs: map<Path, ZipWriting.SourceFile>, now: ZipOptions.ZipDateTime,
             out: ZipWriting.ZipOutput)
    returns (r: Option<MedusaZipError>, ghost sorted: seq<FileSource>)
    requires ZipPlan.AllValid(inputFiles)
    modifies out
    ensures FromOptions(options.compression).Err? ==>
      r == Some(ParseZipOptions(FromOptions(options.compression).error)) && out.entries == old(out.entries)
    ensures FromOptions(options.compression).Ok? ==>
      multiset(sorted) == multiset(inputFiles) && Sorting.SortedBy(sorted, SourceLess) && ZipPlan.AllValid(sorted)
    ensures FromOptions(options.compression).Ok? && ZipPlan.HasDuplicateNames(inputFiles) ==>
      && r.Some? && r.value.InputConsistency? && ZipPlan.DuplicateReported(inputFiles, r.value.consistency)
      && out.entries == old(out.entries)
    ensures FromOptions(options.compression).Ok? && !ZipPlan.HasDuplicateNames(inputFiles) && ZipPlan.Plan(sorted, mods).Err? ==>
      r == Some(InputConsistency(ZipPlan.Plan(sorted, mods).error)) && out.entries == old(out.entries)
    ensures FromOptions(options.compression).Ok? && !ZipPlan.HasDuplicateNames(inputFiles) && ZipPlan.Plan(sorted, mods).Ok? ==>
      ZipWriting.AllNamed(ZipPlan.Plan(sorted, mods).value)
    ensures FromOptions(options.compression).Ok? && !ZipPlan.HasDuplicateNames(inputFiles) && ZipPlan.Plan(sorted, mods).Ok? ==>
      var run := ZipWriting.RunSync(ZipPlan.Plan(sorted, mods).value,
                                    WritingEnv(options.mtimeBehavior, FromOptions(options.compression).value, fs, now));
      && (r.None? <==> run.failure.None?)
      && (r.None? ==> out.entries == old(out.entries) + run.log)
      && (parallelism.Synchronous? ==>
            && r == FailureFromShared(run.failure)
            && out.entries == old(out.entries) + ZipWriting.WrittenSync(ZipPlan.Plan(sorted, mods).value,
                 WritingEnv(options.mtimeBehavior, FromOptions(options.compression).value, fs, now)))
      && (parallelism.ParallelMerge? && r.Some? ==> out.entries == old(out.entries))
  {
    var strategy := FromOptions(options.compression);
    if strategy.Err? {
      return Some(ParseZipOptions(strategy.error)), inputFiles;
    }
    var plan;
    plan, sorted := ZipPlan.FromFileSpecs(inputFiles, mods);
    if plan.Err? {
      r := Some(InputConsistency(plan.error));
      return;
    }
    ZipWriting.PlanEntriesNamed(sorted, mods);
    var shared := StaticOptions([MtimeStatic(options.mtimeBehavior), CompressionStatic(strategy.value)], ZipOptions.DefaultOptions, now);
    var env := ZipWriting.Env(shared, Current(options.mtimeBehavior), now, fs);
    match parallelism {
    case Synchronous =>
      var failure := ZipWriting.ZipSynchronous(plan.value, out, env);
      ZipWriting.WrittenSyncExtendsRun(plan.value, env);
      r := FailureFromShared(failure);
    case ParallelMerge =>
      r := ZipParallel(plan.value, out, env);
      ParallelMatchesSync(plan.value, env);
    }
  }
}
