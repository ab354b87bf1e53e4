/**
 * The command-line forms of the archive options (cli/src/zip.rs) and their
 * conversions into and out of the library's forms.
 */
module CliZip {
  import opened Wrappers
  import opened ZipOptions
  import ZipPlan
  import ZipWriting

  datatype AutomaticModifiedTimeStrategy = AutoReproducible | AutoCurrentTime | AutoPreserveSourceTime

  const DefaultAutomaticStrategy: AutomaticModifiedTimeStrategy := AutoReproducible

  /** The two modification-time flags: a strategy, and a timestamp that takes its place when given. */
  datatype CliModifiedTimeBehavior = CliModifiedTimeBehavior(automatic: AutomaticModifiedTimeStrategy, explicit: Option<ZipDateTime>)

  /** `From<ModifiedTimeBehavior> for lib_zip::ModifiedTimeBehavior`. */
  function MtimeFromCli(x: CliModifiedTimeBehavior): ModifiedTimeBehavior {
    match x.explicit
    case Some(t) => Explicit(t)
    case None =>
      match x.automatic
      case AutoReproducible => Reproducible
      case AutoCurrentTime => CurrentTime
      case AutoPreserveSourceTime => PreserveSourceTime
  }

  /**
   * A timestamp decides the behaviour whatever the strategy says; without
   * one, distinct strategies give distinct behaviours, and every behaviour
   * of the library can be asked for.
   */
  lemma MtimeConversion(x: CliModifiedTimeBehavior, y: CliModifiedTimeBehavior, b: ModifiedTimeBehavior)
    ensures x.explicit.Some? ==> MtimeFromCli(x) == Explicit(x.explicit.value)
    ensures x.explicit.Some? && x.explicit == y.explicit ==> MtimeFromCli(x) == MtimeFromCli(y)
    ensures x.explicit.None? ==> !MtimeFromCli(x).Explicit?
    ensures x.explicit.None? && y.explicit.None? ==> (MtimeFromCli(x) == MtimeFromCli(y) <==> x.automatic == y.automatic)
    ensures exists z :: MtimeFromCli(z) == b
  {
    var z := match b
      case Reproducible => CliModifiedTimeBehavior(AutoReproducible, None)
      case CurrentTime => CliModifiedTimeBehavior(AutoCurrentTime, None)
      case PreserveSourceTime => CliModifiedTimeBehavior(AutoPreserveSourceTime, None)
      case Explicit(t) => CliModifiedTimeBehavior(DefaultAutomaticStrategy, Some(t));
    assert MtimeFromCli(z) == b;
  }

  datatype CliCompressionMethod = CliStored | CliDeflated

  const DefaultCliCompressionMethod: CliCompressionMethod := CliDeflated

  /** `From<CompressionMethod> for lib_zip::CompressionMethod`. */
  function MethodFromCli(m: CliCompressionMethod): (r: CompressionMethod)
    ensures r == MethodStored <==> m == CliStored
    ensures r == MethodDeflated <==> m == CliDeflated
  {
    match m
    case CliStored => MethodStored
    case CliDeflated => MethodDeflated
  }

  datatype CliZipOutputOptions = CliZipOutputOptions(
    mtimeBehavior: CliModifiedTimeBehavior,
    compressionMethod: CliCompressionMethod,
    compressionLevel: Option<I8>)

  /**
   * `TryFrom<ZipOutputOptions> for lib_zip::ZipOutputOptions`: it fails
   * exactly when the method and level are refused (a level with "stored", a
   * deflate level outside 0..=9), and otherwise carries both options over.
   */
  function ZipOutputOptionsFromCli(x: CliZipOutputOptions): (r: Result<ZipWriting.ZipOutputOptions, ParseCompressionOptionsError>)
    ensures r.Ok? <==>
      (x.compressionMethod == CliStored && x.compressionLevel.None?)
      || (x.compressionMethod == CliDeflated && (x.compressionLevel.None? || 0 <= x.compressionLevel.value <= 9))
    ensures r.Ok? <==> FromMethodAndLevel(MethodFromCli(x.compressionMethod), x.compressionLevel).Ok?
    ensures r.Ok? ==> r.value.mtimeBehavior == MtimeFromCli(x.mtimeBehavior)
    ensures r.Ok? ==> r.value.compression == FromMethodAndLevel(MethodFromCli(x.compressionMethod), x.compressionLevel).value
    ensures r.Err? ==> x.compressionLevel.Some? && r.error.level == x.compressionLevel.value
  {
    var kind := MethodFromCli(x.compressionMethod);
    FromMethodAndLevelAccepts(kind, x.compressionLevel);
    match FromMethodAndLevel(kind, x.compressionLevel)
    case Err(e) => Err(e)
    case Ok(compression) => Ok(ZipWriting.ZipOutputOptions(MtimeFromCli(x.mtimeBehavior), compression))
  }

  datatype CliEntryModifications = CliEntryModifications(silentExternalPrefix: Option<string>, ownPrefix: Option<string>)

  /** `From<lib_zip::EntryModifications> for EntryModifications`. */
  function ModificationsToCli(m: ZipPlan.EntryModifications): CliEntryModifications {
    CliEntryModifications(m.silentExternalPrefix, m.ownPrefix)
  }

  /** `From<EntryModifications> for lib_zip::EntryModifications`. */
  function ModificationsFromCli(m: CliEntryModifications): ZipPlan.EntryModifications {
    ZipPlan.EntryModifications(m.silentExternalPrefix, m.ownPrefix)
  }

  /** The two conversions of the entry modifications undo each other. */
  lemma ModificationsRoundTrip(m: ZipPlan.EntryModifications, c: CliEntryModifications)
    ensures ModificationsFromCli(ModificationsToCli(m)) == m
    ensures ModificationsToCli(ModificationsFromCli(c)) == c
  {
  }

  datatype CliParallelism = CliSynchronous | CliParallelMerge

  const DefaultCliParallelism: CliParallelism := CliParallelMerge

  /** `From<lib_zip::Parallelism> for Parallelism`. */
  function ParallelismToCli(p: ZipWriting.Parallelism): CliParallelism {
    match p
    case Synchronous => CliSynchronous
    case ParallelMerge => CliParallelMerge
  }

  /** `From<Parallelism> for lib_zip::Parallelism`. */
  function ParallelismFromCli(p: CliParallelism): ZipWriting.Parallelism {
    match p
    case CliSynchronous => ZipWriting.Synchronous
    case CliParallelMerge => ZipWriting.ParallelMerge
  }

  /** The two conversions of the parallelism undo each other. */
  lemma ParallelismRoundTrip(p: ZipWriting.Parallelism, c: CliParallelism)
    ensures ParallelismFromCli(ParallelismToCli(p)) == p
    ensures ParallelismToCli(ParallelismFromCli(c)) == c
  {
  }

  /** The command line's defaults convert to the library's defaults. */
  lemma DefaultsAgree()
    ensures MtimeFromCli(CliModifiedTimeBehavior(DefaultAutomaticStrategy, None)) == DefaultModifiedTimeBehavior
    ensures MethodFromCli(DefaultCliCompressionMethod) == DefaultCompressionMethod
    ensures ParallelismFromCli(DefaultCliParallelism) == ZipWriting.DefaultParallelism
  {
  }
}
