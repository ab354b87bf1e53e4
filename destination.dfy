/**
 * Opening the output file (lib/src/destination.rs,
 * `DestinationBehavior::initialize`).
 *
 * The file is seen through an abstract state: missing, present with its
 * bytes (and, when those bytes are a zip archive, its records), or
 * impossible to open for any other reason. Each policy opens the file in
 * its own way and hands back a writer that either appends to the archive
 * already there or starts a new one.
 */
module Destination {
  import opened Wrappers
  import ZipWriting

  type Byte = bv8

  datatype FileState =
    | Missing
    | Present(bytes: seq<Byte>, archive: Option<seq<ZipWriting.LogEntry>>)
    | Unopenable

  datatype DestinationBehavior = AlwaysTruncate | AppendOrFail | OptimisticallyAppend | AppendToNonZip

  const DefaultBehavior: DestinationBehavior := AlwaysTruncate

  datatype DestinationError = Io | Zip

  /**
   * A zip writer as initialized: the bytes it leaves in front of what it
   * writes, the records it starts from, and whether it was opened with
   * `new_append`.
   */
  datatype Writer = Writer(kept: seq<Byte>, entries: seq<ZipWriting.LogEntry>, withAppend: bool)

  /** The file once opened, and the position of the handle in it. */
  datatype Opened = Opened(state: FileState, position: nat)

  /** The `match self` of `initialize`: the file as opened and the append flag, or the error. */
  function OpenFor(b: DestinationBehavior, s: FileState): (r: Result<(Opened, bool), DestinationError>)
    ensures r.Ok? ==> r.value.0.state.Present? && r.value.0.position <= |r.value.0.state.bytes|
    ensures r.Err? <==> s.Unopenable? || (s.Missing? && b != AlwaysTruncate && b != OptimisticallyAppend)
  {
    match b
    case AlwaysTruncate =>
      if s.Unopenable? then Err(Io) else Ok((Opened(Present([], Some([])), 0), false))
    case AppendOrFail =>
      if !s.Present? then Err(Io) else Ok((Opened(s, 0), true))
    case OptimisticallyAppend =>
      (match s
       case Missing => Ok((Opened(Present([], Some([])), 0), false))
       case Present(_, _) => Ok((Opened(s, 0), true))
       case Unopenable => Err(Io))
    case AppendToNonZip =>
      if !s.Present? then Err(Io) else Ok((Opened(s, |s.bytes|), false))
  }

  /** The writer over an opened file: `new_append` reads the archive, `new` writes from the position. */
  function WriterFor(o: Opened, withAppend: bool): Result<Writer, DestinationError>
    requires o.state.Present? && o.position <= |o.state.bytes|
  {
    if withAppend then
      if o.state.archive.None? then Err(Zip) else Ok(Writer(o.state.bytes, o.state.archive.value, true))
    else Ok(Writer(o.state.bytes[..o.position], [], false))
  }

  /** The whole of `initialize`: the file afterwards and the writer or error. */
  function Initialized(b: DestinationBehavior, s: FileState): (FileState, Result<Writer, DestinationError>) {
    match OpenFor(b, s)
    case Err(e) => (s, Err(e))
    case Ok((o, withAppend)) => (o.state, WriterFor(o, withAppend))
  }

  /** `AlwaysTruncate` creates the file or empties it, and starts a new archive. */
  lemma AlwaysTruncateStartsOver(s: FileState)
    requires !s.Unopenable?
    ensures Initialized(AlwaysTruncate, s) == (Present([], Some([])), Ok(Writer([], [], false)))
  {
  }

  /** `AppendOrFail` needs an existing zip file, keeps it, and appends to its archive. */
  lemma AppendOrFailNeedsArchive(s: FileState)
    ensures Initialized(AppendOrFail, s).1.Ok? <==> s.Present? && s.archive.Some?
    ensures Initialized(AppendOrFail, s).0 == s
    ensures s.Missing? ==> Initialized(AppendOrFail, s).1 == Err(Io)
    ensures Initialized(AppendOrFail, s).1.Ok? ==> Initialized(AppendOrFail, s).1.value == Writer(s.bytes, s.archive.value, true)
  {
  }

  /** `OptimisticallyAppend` creates a missing file with a new archive, appends to an existing one, and fails otherwise. */
  lemma OptimisticallyAppendBranches(s: FileState)
    ensures s.Missing? ==> Initialized(OptimisticallyAppend, s) == (Present([], Some([])), Ok(Writer([], [], false)))
    ensures s.Present? ==> Initialized(OptimisticallyAppend, s) == Initialized(AppendOrFail, s)
    ensures s.Unopenable? ==> Initialized(OptimisticallyAppend, s) == (s, Err(Io))
  {
  }

  /** `AppendToNonZip` needs an existing file, keeps all its bytes in front, and writes a new archive after them. */
  lemma AppendToNonZipKeepsBytes(s: FileState)
    ensures Initialized(AppendToNonZip, s).1.Ok? <==> s.Present?
    ensures Initialized(AppendToNonZip, s).0 == s
    ensures s.Present? ==> Initialized(AppendToNonZip, s).1 == Ok(Writer(s.bytes, [], false))
  {
    if s.Present? {
      assert s.bytes[..|s.bytes|] == s.bytes;
    }
  }

  /** The writer appends exactly for `AppendOrFail`, and for `OptimisticallyAppend` on a file that exists. */
  lemma AppendFlag(b: DestinationBehavior, s: FileState)
    requires Initialized(b, s).1.Ok?
    ensures Initialized(b, s).1.value.withAppend <==> b == AppendOrFail || (b == OptimisticallyAppend && s.Present?)
  {
  }

  /** A failure leaves the file as it was. */
  lemma FailureLeavesFile(b: DestinationBehavior, s: FileState)
    requires Initialized(b, s).1.Err?
    ensures Initialized(b, s).0 == s
  {
  }

  /** A path that exists on disk. */
  class DestinationFile {
    var state: FileState

    constructor (s: FileState)
      ensures state == s
    {
      state := s;
    }
  }

  /** `DestinationBehavior::initialize` on the file at the destination path. */
  method Initialize(b: DestinationBehavior, file: DestinationFile) returns (r: Result<Writer, DestinationError>)
    modifies file
    ensures (file.state, r) == Initialized(b, old(file.state))
  {
    var s := file.state;
    var o: Opened;
    var withAppend: bool;
    match b {
      case AlwaysTruncate =>
        if s.Unopenable? {
          return Err(Io);
        }
        o, withAppend := Opened(Present([], Some([])), 0), false;
      case AppendOrFail =>
        if !s.Present? {
          return Err(Io);
        }
        o, withAppend := Opened(s, 0), true;
      case OptimisticallyAppend =>
        if s.Missing? {
          o, withAppend := Opened(Present([], Some([])), 0), false;
        } else if s.Present? {
          o, withAppend := Opened(s, 0), true;
        } else {
          return Err(Io);
        }
      case AppendToNonZip =>
        if !s.Present? {
          return Err(Io);
        }
        o, withAppend := Opened(s, |s.bytes|), false;
    }
    file.state := o.state;
    if withAppend {
      if o.state.archive.None? {
        return Err(Zip);
      }
      r := Ok(Writer(o.state.bytes, o.state.archive.value, true));
    } else {
      r := Ok(Writer(o.state.bytes[..o.position], [], false));
    }
  }
}
