/**
 * Per-entry zip options (lib/src/zip.rs): modification times, permissions,
 * storing small files uncompressed, the zip64 flag for large files, and the
 * compression strategy with its level ranges.
 */
module ZipOptions {
  import opened Wrappers

  /** A date and time as a zip entry records it. */
  datatype ZipDateTime = ZipDateTime(year: nat, month: nat, day: nat, hour: nat, minute: nat, second: nat)

  /** The earliest time a zip entry can record: 1980-01-01 at 00:00:00. */
  const MinimumZipTime: ZipDateTime := ZipDateTime(1980, 1, 1, 0, 0, 0)

  /** Files up to this many bytes are stored without compression. */
  const SmallFileMaxSize: nat := 1000

  /** Files larger than this many bytes need zip64 extensions (the zip library's `ZIP64_BYTES_THR`). */
  const Zip64BytesThreshold: nat := 0xFFFF_FFFF

  /** Compression methods of the zip library. */
  datatype ZipMethod = ZipStored | ZipDeflated | ZipBzip2 | ZipZstd

  /** A modification time option: never set (the zip library's default) or set to a time. */
  datatype ZipTime = LibraryDefaultTime | At(time: ZipDateTime)

  /** The zip library's per-entry `FileOptions`. */
  datatype FileOptions = FileOptions(
    compression: ZipMethod,
    level: Option<int>,
    mtime: ZipTime,
    permissions: Option<nat>,
    largeFile: bool)

  /** `FileOptions::default()`: deflate, no level, no time, no permissions, no zip64. */
  const DefaultOptions: FileOptions := FileOptions(ZipDeflated, None, LibraryDefaultTime, None, false)

  /** What a source file's modification time converts to. */
  datatype SourceTime =
    | TimeUnavailable             // the platform cannot report it
    | TimeOutOfRange              // before 1980 or after 2107
    | SourceTime(time: ZipDateTime)

  /** The metadata of an opened source file. */
  datatype Metadata = Metadata(len: nat, modified: SourceTime, mode: nat)

  datatype InitializeError = Io | InvalidDateTime

  // ----- modification time -----

  datatype ModifiedTimeBehavior =
    | Reproducible
    | CurrentTime
    | PreserveSourceTime
    | Explicit(time: ZipDateTime)

  const DefaultModifiedTimeBehavior: ModifiedTimeBehavior := Reproducible

  /**
   * The time an entry gets when no file is at hand (directories): a source
   * time cannot be read, so `PreserveSourceTime` falls back to the time the
   * program started, `now`.
   */
  function StaticMtime(b: ModifiedTimeBehavior, now: ZipDateTime): ZipDateTime {
    match b
    case Reproducible => MinimumZipTime
    case CurrentTime => now
    case PreserveSourceTime => now  // as CurrentTime
    case Explicit(t) => t
  }

  function SetStaticMtime(b: ModifiedTimeBehavior, o: FileOptions, now: ZipDateTime): FileOptions {
    o.(mtime := At(StaticMtime(b, now)))
  }

  /** The time a file entry gets, read from its metadata when the source time is preserved. */
  function SetMtimeForFile(b: ModifiedTimeBehavior, o: FileOptions, m: Metadata, now: ZipDateTime): Result<FileOptions, InitializeError> {
    match b
    case Reproducible => Ok(o.(mtime := At(MinimumZipTime)))
    case CurrentTime => Ok(o.(mtime := At(now)))
    case PreserveSourceTime =>
      (match m.modified
       case TimeUnavailable => Err(Io)
       case TimeOutOfRange => Err(InvalidDateTime)
       case SourceTime(t) => Ok(o.(mtime := At(t))))
    case Explicit(t) => Ok(o.(mtime := At(t)))
  }

  /**
   * Only `PreserveSourceTime` looks at the file: every other behaviour gives a
   * file the same time as a directory, and `Reproducible` gives the minimum
   * zip time whatever the file and the clock say.
   */
  lemma MtimeForFileMatchesStatic(b: ModifiedTimeBehavior, o: FileOptions, m: Metadata, now: ZipDateTime)
    ensures !b.PreserveSourceTime? ==> SetMtimeForFile(b, o, m, now) == Ok(SetStaticMtime(b, o, now))
    ensures b == Reproducible ==> SetStaticMtime(b, o, now).mtime == At(MinimumZipTime)
    ensures StaticMtime(PreserveSourceTime, now) == StaticMtime(CurrentTime, now)
    ensures b.PreserveSourceTime? ==>
      (SetMtimeForFile(b, o, m, now).Ok? <==> m.modified.SourceTime?)
      && (m.modified.SourceTime? ==> SetMtimeForFile(b, o, m, now).value.mtime == At(m.modified.time))
      && (m.modified == TimeUnavailable ==> SetMtimeForFile(b, o, m, now) == Err(Io))
      && (m.modified == TimeOutOfRange ==> SetMtimeForFile(b, o, m, now) == Err(InvalidDateTime))
  {
  }

  // ----- the per-file initializers -----

  /** The steps that adjust options for one file, given its metadata. */
  datatype FileInitializer =
    | MtimeForFile(behavior: ModifiedTimeBehavior)
    | PreservePerms
    | SmallFile
    | LargeFile

  function ApplyForFile(init: FileInitializer, o: FileOptions, m: Metadata, now: ZipDateTime): Result<FileOptions, InitializeError> {
    match init
    case MtimeForFile(b) => SetMtimeForFile(b, o, m, now)
    case PreservePerms => Ok(o.(permissions := Some(m.mode)))
    case SmallFile =>
      if m.len <= SmallFileMaxSize then Ok(o.(compression := ZipStored, level := None)) else Ok(o)
    case LargeFile => Ok(o.(largeFile := m.len > Zip64BytesThreshold))
  }

  /** The initializers applied in order; the first failure ends the run. */
  function ApplyAllForFile(inits: seq<FileInitializer>, o: FileOptions, m: Metadata, now: ZipDateTime): Result<FileOptions, InitializeError> {
    if |inits| == 0 then Ok(o)
    else
      var first := ApplyForFile(inits[0], o, m, now);
      if first.Err? then first else ApplyAllForFile(inits[1..], first.value, m, now)
  }

  /** The initializer list every file goes through: time, permissions, small file, large file. */
  function FileInitializers(b: ModifiedTimeBehavior): seq<FileInitializer> {
    [MtimeForFile(b), PreservePerms, SmallFile, LargeFile]
  }

  /** `ZipOptionsInitializers::set_zip_options_for_file`: the loop over the initializers. */
  method SetZipOptionsForFile(inits: seq<FileInitializer>, options: FileOptions, m: Metadata, now: ZipDateTime)
    returns (r: Result<FileOptions, InitializeError>)
    ensures r == ApplyAllForFile(inits, options, m, now)
  {
    var o := options;
    var i := 0;
    while i < |inits|
      invariant 0 <= i <= |inits|
      invariant ApplyAllForFile(inits[i..], o, m, now) == ApplyAllForFile(inits, options, m, now)
    {
      var next := ApplyForFile(inits[i], o, m, now);
      assert inits[i..][1..] == inits[i + 1..];
      if next.Err? {
        return Err(next.error);
      }
      o := next.value;
      i := i + 1;
    }
    r := Ok(o);
  }

  /**
   * What the standard initializers do to a file's options: they fail only when
   * the source time cannot be read; otherwise the entry gets the behaviour's
   * time, the file's mode, no compression when the file is at most 1000 bytes
   * (the incoming method and level otherwise), and the zip64 flag exactly when
   * it is larger than the 32-bit limit.
   */
  lemma FileInitializersEffect(b: ModifiedTimeBehavior, o: FileOptions, m: Metadata, now: ZipDateTime)
    ensures var r := ApplyAllForFile(FileInitializers(b), o, m, now);
      && (r.Ok? <==> SetMtimeForFile(b, o, m, now).Ok?)
      && (r.Err? ==> r == Err(SetMtimeForFile(b, o, m, now).error))
      && (r.Ok? ==>
        && r.value.mtime == SetMtimeForFile(b, o, m, now).value.mtime
        && r.value.permissions == Some(m.mode)
        && r.value.largeFile == (m.len > Zip64BytesThreshold)
        && (m.len <= SmallFileMaxSize ==> r.value.compression == ZipStored && r.value.level == None)
        && (m.len > SmallFileMaxSize ==> r.value.compression == o.compression && r.value.level == o.level))
  {
    var inits := FileInitializers(b);
    var first := SetMtimeForFile(b, o, m, now);
    assert inits[1..] == [PreservePerms, SmallFile, LargeFile];
    if first.Ok? {
      var o1 := first.value;
      var o2 := o1.(permissions := Some(m.mode));
      assert ApplyAllForFile(inits, o, m, now) == ApplyAllForFile([PreservePerms, SmallFile, LargeFile], o1, m, now);
      assert [PreservePerms, SmallFile, LargeFile][1..] == [SmallFile, LargeFile];
      assert ApplyAllForFile(inits, o, m, now) == ApplyAllForFile([SmallFile, LargeFile], o2, m, now);
      var o3 := if m.len <= SmallFileMaxSize then o2.(compression := ZipStored, level := None) else o2;
      assert [SmallFile, LargeFile][1..] == [LargeFile];
      assert ApplyAllForFile(inits, o, m, now) == ApplyAllForFile([LargeFile], o3, m, now);
      var o4 := o3.(largeFile := m.len > Zip64BytesThreshold);
      assert [LargeFile][1..] == [];
      assert ApplyAllForFile([LargeFile], o3, m, now) == ApplyAllForFile([], o4, m, now);
      assert ApplyAllForFile(inits, o, m, now) == Ok(o4);
    }
  }

  // ----- compression -----

  /** The compression methods offered by the command line. */
  datatype CompressionMethod = MethodStored | MethodDeflated

  const DefaultCompressionMethod: CompressionMethod := MethodDeflated

  /** A signed 8-bit compression level as the command line parses it. */
  type I8 = x: int | -128 <= x <= 127

  /** A compression method with its checked level. */
  datatype CompressionStrategy = Stored | Deflated(level: Option<nat>)

  /** The default strategy: deflate at level 6. */
  const DefaultCompressionStrategy: CompressionStrategy := Deflated(Some(6))

  /** Levels deflate accepts, inclusive. */
  const DeflateMin: int := 0
  const DeflateMax: int := 9

  datatype ParseCompressionOptionsError =
    | CompressionLevelWithStored(level: int)
    | InvalidCompressionLevel(kind: CompressionMethod, level: int, min: int, max: int)

  /** `CompressionStrategy::from_method_and_level`. */
  function FromMethodAndLevel(kind: CompressionMethod, level: Option<I8>): Result<CompressionStrategy, ParseCompressionOptionsError> {
    match kind
    case MethodStored =>
      if level.None? then Ok(Stored) else Err(CompressionLevelWithStored(level.value))
    case MethodDeflated =>
      if level.None? then Ok(Deflated(None))
      else if DeflateMin <= level.value <= DeflateMax then Ok(Deflated(Some(level.value as nat)))
      else Err(InvalidCompressionLevel(kind, level.value, DeflateMin, DeflateMax))
  }

  /**
   * A method and level are accepted exactly when "stored" comes without a
   * level and a deflate level lies in 0..=9; an accepted strategy keeps the
   * method and the level, and a rejection names the offending level.
   */
  lemma FromMethodAndLevelAccepts(kind: CompressionMethod, level: Option<I8>)
    ensures FromMethodAndLevel(kind, level).Ok? <==>
      (kind == MethodStored && level.None?)
      || (kind == MethodDeflated && (level.None? || 0 <= level.value <= 9))
    ensures FromMethodAndLevel(kind, level).Ok? ==>
      (FromMethodAndLevel(kind, level).value.Stored? <==> kind == MethodStored)
      && (kind == MethodDeflated ==>
          (FromMethodAndLevel(kind, level).value.level.Some? <==> level.Some?)
          && (level.Some? ==> FromMethodAndLevel(kind, level).value.level.value == level.value))
    ensures FromMethodAndLevel(kind, level).Err? ==> level.Some? && FromMethodAndLevel(kind, level).error.level == level.value
  {
  }

  /** The options a strategy sets: stored entries never carry a level. */
  function SetStaticCompression(s: CompressionStrategy, o: FileOptions): FileOptions {
    match s
    case Stored => o.(compression := ZipStored, level := None)
    case Deflated(l) => o.(compression := ZipDeflated, level := if l.Some? then Some(l.value as int) else None)
  }

  // ----- the static initializers -----

  /** The steps that set options shared by all entries, before any file is read. */
  datatype StaticInitializer =
    | MtimeStatic(behavior: ModifiedTimeBehavior)
    | CompressionStatic(strategy: CompressionStrategy)

  function ApplyStatic(init: StaticInitializer, o: FileOptions, now: ZipDateTime): FileOptions {
    match init
    case MtimeStatic(b) => SetStaticMtime(b, o, now)
    case CompressionStatic(s) => SetStaticCompression(s, o)
  }

  function ApplyAllStatic(inits: seq<StaticInitializer>, o: FileOptions, now: ZipDateTime): FileOptions {
    if |inits| == 0 then o else ApplyAllStatic(inits[1..], ApplyStatic(inits[0], o, now), now)
  }

  /** The loop in `MedusaZip::zip` that folds the static initializers over the options. */
  method StaticOptions(inits: seq<StaticInitializer>, options: FileOptions, now: ZipDateTime) returns (o: FileOptions)
    ensures o == ApplyAllStatic(inits, options, now)
  {
    o := options;
    var i := 0;
    while i < |inits|
      invariant 0 <= i <= |inits|
      invariant ApplyAllStatic(inits[i..], o, now) == ApplyAllStatic(inits, options, now)
    {
      assert inits[i..][1..] == inits[i + 1..];
      o := ApplyStatic(inits[i], o, now);
      i := i + 1;
    }
  }

  /**
   * The options shared by every entry of an archive: the behaviour's static
   * time and the strategy's method and level, over the library defaults.
   */
  lemma SharedOptionsEffect(b: ModifiedTimeBehavior, s: CompressionStrategy, now: ZipDateTime)
    ensures var o := ApplyAllStatic([MtimeStatic(b), CompressionStatic(s)], DefaultOptions, now);
      && o.mtime == At(StaticMtime(b, now))
      && (o.compression == ZipStored <==> s.Stored?)
      && (s.Stored? ==> o.level == None)
      && (s.Deflated? ==>
          o.compression == ZipDeflated && (o.level.Some? <==> s.level.Some?)
          && (s.level.Some? ==> o.level.value == s.level.value))
      && o.permissions == None && !o.largeFile
  {
    var inits := [MtimeStatic(b), CompressionStatic(s)];
    var o1 := SetStaticMtime(b, DefaultOptions, now);
    assert inits[1..] == [CompressionStatic(s)];
    assert [CompressionStatic(s)][1..] == [];
    assert ApplyAllStatic(inits, DefaultOptions, now) == ApplyAllStatic([CompressionStatic(s)], o1, now);
    assert ApplyAllStatic([CompressionStatic(s)], o1, now) == ApplyAllStatic([], SetStaticCompression(s, o1), now);
  }
}
