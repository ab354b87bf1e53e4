/**
 * File-system paths (`PathBuf`) as an absolute flag and a list of non-empty
 * components; repeated and trailing separators in the text are not kept.
 * Only the operations the crawler and the archive writers use are modelled.
 */
module Paths {
  import Text

  datatype Path = Path(absolute: bool, parts: seq<string>)

  /** `PathBuf::from("")`. */
  function EmptyPath(): Path { Path(false, []) }

  /** The path as text, components separated by '/'. */
  function Display(p: Path): string {
    (if p.absolute then "/" else "") + Text.Join(p.parts)
  }

  /** `PathBuf::from(s)`: the non-empty pieces of `s` between separators. */
  function Parse(s: string): Path {
    Path(|s| > 0 && s[0] == '/', NonEmptyParts(Text.Pieces(s)))
  }

  function NonEmptyParts(ps: seq<string>): seq<string> {
    if |ps| == 0 then []
    else (if ps[0] == "" then [] else [ps[0]]) + NonEmptyParts(ps[1..])
  }

  /** `base.join(child)`: an absolute child replaces the base, a relative one extends it. */
  function JoinPath(base: Path, child: Path): Path {
    if child.absolute then child else Path(base.absolute, base.parts + child.parts)
  }

  /** `p.join(name)` for a single file name, as a directory listing yields it. */
  function Child(p: Path, name: string): Path {
    JoinPath(p, Path(false, [name]))
  }

  /** `p.parent()`, for a path that has a last component. */
  function Parent(p: Path): Path
    requires |p.parts| > 0
  {
    Path(p.absolute, p.parts[..|p.parts| - 1])
  }

  /**
   * `p.strip_prefix(".")` when it succeeds (a relative path whose first
   * component is "."), otherwise `p` unchanged, as the crawler uses it.
   * `Path::components` folds every "." after the first one away, so all
   * the leading "." components go.
   */
  function StripCurDir(p: Path): (r: Path)
    ensures r.absolute == p.absolute
    ensures !p.absolute && |p.parts| > 0 && p.parts[0] == "." ==> r.parts == DropCurDirs(p.parts)
    ensures p.absolute || |p.parts| == 0 || p.parts[0] != "." ==> r == p
  {
    if !p.absolute && |p.parts| > 0 && p.parts[0] == "." then Path(false, DropCurDirs(p.parts)) else p
  }

  /** The parts after the leading run of "." components. */
  function DropCurDirs(parts: seq<string>): (r: seq<string>)
    ensures |r| <= |parts| && r == parts[|parts| - |r|..]
    ensures forall k :: 0 <= k < |parts| - |r| ==> parts[k] == "."
    ensures |r| > 0 ==> r[0] != "."
  {
    if |parts| > 0 && parts[0] == "." then DropCurDirs(parts[1..]) else parts
  }
}
