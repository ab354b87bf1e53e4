/**
 * Archive entry names (lib/src/lib.rs): a validated relative name together with
 * the character ranges of its '/'-separated components, the ordering used to sort
 * entries, and prefixing.
 */
module EntryNames {
  import opened Wrappers
  import opened Text
  import opened Paths

  datatype NameFormatError =
    | NameIsEmpty
    | NameStartsWithSlash(name: string)
    | NameStartsWithDotSlash(name: string)
    | NameEndsWithSlash(name: string)
    | NameHasDoubleSlash(name: string)

  /** A half-open range `begin..end` of positions in the name. */
  datatype Span = Span(begin: nat, end: nat)

  datatype EntryName = EntryName(name: string, components: seq<Span>)

  /** `EntryName::empty()`: the empty name has no components at all. */
  function Empty(): EntryName { EntryName("", []) }

  predicate IsEmpty(e: EntryName) { |e.name| == 0 }

  // ----- split_indices -----

  /** Where the component that is open after reading `s[..i]` begins. */
  function LastStart(s: string, i: nat): nat
    requires i <= |s|
  {
    if i == 0 then 0 else if s[i - 1] == '/' then i else LastStart(s, i - 1)
  }

  /** The components closed by a '/' within `s[..i]`. */
  function ClosedSpans(s: string, i: nat): seq<Span>
    requires i <= |s|
  {
    if i == 0 then []
    else if s[i - 1] == '/' then ClosedSpans(s, i - 1) + [Span(LastStart(s, i - 1), i - 1)]
    else ClosedSpans(s, i - 1)
  }

  /** The component ranges of `s`: every '/' closes one, and the end of `s` closes the last. */
  function Spans(s: string): seq<Span> {
    ClosedSpans(s, |s|) + [Span(LastStart(s, |s|), |s|)]
  }

  /** The text a span covers, or "" for a span outside the string. */
  function Slice(s: string, sp: Span): string {
    if sp.begin <= sp.end <= |s| then s[sp.begin..sp.end] else ""
  }

  function Texts(s: string, spans: seq<Span>): seq<string> {
    seq(|spans|, k requires 0 <= k < |spans| => Slice(s, spans[k]))
  }

  predicate InRange(s: string, spans: seq<Span>) {
    forall k :: 0 <= k < |spans| ==> spans[k].begin <= spans[k].end <= |s|
  }

  /** The loop of `split_indices`: one range per '/'-separated piece. */
  method SplitIndices(s: string) returns (spans: seq<Span>)
    ensures spans == Spans(s)
    ensures InRange(s, spans) && Texts(s, spans) == Pieces(s)
    ensures |spans| == Count(s, '/') + 1
  {
    var prevBegin := 0;
    spans := [];
    var i := 0;
    while i < |s|
      invariant 0 <= i <= |s|
      invariant prevBegin == LastStart(s, i)
      invariant spans == ClosedSpans(s, i)
    {
      if s[i] == '/' {
        spans := spans + [Span(prevBegin, i)];
        prevBegin := i + 1;
      }
      i := i + 1;
    }
    spans := spans + [Span(prevBegin, |s|)];
    SpansArePieces(s);
    PiecesCount(s);
  }

  /** The ranges after reading `s[..i]`: the closed ones and the open one. */
  function OpenSpans(s: string, i: nat): seq<Span>
    requires i <= |s|
  {
    ClosedSpans(s, i) + [Span(LastStart(s, i), i)]
  }

  lemma {:induction false} SpansBounded(s: string, i: nat)
    requires i <= |s|
    ensures LastStart(s, i) <= i
    ensures forall k :: 0 <= k < |ClosedSpans(s, i)| ==>
      ClosedSpans(s, i)[k].begin <= ClosedSpans(s, i)[k].end < LastStart(s, i)
  {
    if i > 0 {
      SpansBounded(s, i - 1);
    }
  }

  lemma TextsSnoc(s: string, spans: seq<Span>, x: Span)
    ensures Texts(s, spans + [x]) == Texts(s, spans) + [Slice(s, x)]
  {
  }

  /** Reading one more character: a '/' closes the open component and opens an empty one. */
  lemma SpansUpToSlash(s: string, i: nat)
    requires 0 < i <= |s| && s[i - 1] == '/'
    requires Texts(s, OpenSpans(s, i - 1)) == Pieces(s[..i - 1])
    ensures Texts(s, OpenSpans(s, i)) == Pieces(s[..i])
  {
    var t := s[..i - 1];
    assert s[..i] == t + ['/'];
    PiecesSnoc(t, '/');
    var closed := ClosedSpans(s, i - 1);
    var l := LastStart(s, i - 1);
    var before := closed + [Span(l, i - 1)];
    assert OpenSpans(s, i - 1) == before;
    assert ClosedSpans(s, i) == before && LastStart(s, i) == i;
    assert OpenSpans(s, i) == before + [Span(i, i)];
    TextsSnoc(s, before, Span(i, i));
    assert Slice(s, Span(i, i)) == "";
    assert Texts(s, OpenSpans(s, i)) == Pieces(t) + [""];
  }

  /** Reading one more character other than '/' extends the open component. */
  lemma SpansUpToChar(s: string, i: nat)
    requires 0 < i <= |s| && s[i - 1] != '/'
    requires Texts(s, OpenSpans(s, i - 1)) == Pieces(s[..i - 1])
    ensures Texts(s, OpenSpans(s, i)) == Pieces(s[..i])
  {
    SpansBounded(s, i - 1);
    var c := s[i - 1];
    var t := s[..i - 1];
    assert s[..i] == t + [c];
    PiecesSnoc(t, c);
    var closed := ClosedSpans(s, i - 1);
    var l := LastStart(s, i - 1);
    TextsSnoc(s, closed, Span(l, i - 1));
    assert OpenSpans(s, i) == closed + [Span(l, i)];
    TextsSnoc(s, closed, Span(l, i));
    assert s[l..i] == s[l..i - 1] + [c];
    assert Texts(s, closed) == Pieces(t)[..|Pieces(t)| - 1];
  }

  lemma {:induction false} SpansUpTo(s: string, i: nat)
    requires i <= |s|
    ensures Texts(s, OpenSpans(s, i)) == Pieces(s[..i])
  {
    if i > 0 {
      SpansUpTo(s, i - 1);
      if s[i - 1] == '/' {
        SpansUpToSlash(s, i);
      } else {
        SpansUpToChar(s, i);
      }
    }
  }

  /** The ranges `split_indices` computes cover exactly the pieces `split('/')` yields. */
  lemma SpansArePieces(s: string)
    ensures InRange(s, Spans(s)) && Texts(s, Spans(s)) == Pieces(s)
  {
    SpansUpTo(s, |s|);
    SpansBounded(s, |s|);
    assert s[..|s|] == s;
  }

  // ----- validate -----

  predicate StartsWithDotSlash(s: string) {
    |s| >= 2 && s[0] == '.' && s[1] == '/'
  }

  predicate HasDoubleSlash(s: string) {
    exists i :: 0 <= i < |s| - 1 && s[i] == '/' && s[i + 1] == '/'
  }

  /** `EntryName::validate`: the first failing check, in this order, decides the error. */
  function Validate(name: string): Result<EntryName, NameFormatError> {
    if |name| == 0 then Err(NameIsEmpty)
    else if name[0] == '/' then Err(NameStartsWithSlash(name))
    else if StartsWithDotSlash(name) then Err(NameStartsWithDotSlash(name))
    else if name[|name| - 1] == '/' then Err(NameEndsWithSlash(name))
    else if HasDoubleSlash(name) then Err(NameHasDoubleSlash(name))
    else Ok(EntryName(name, Spans(name)))
  }

  /**
   * The component lists of acceptable names: at least one component, none of
   * them empty, and no leading "." component followed by more.
   */
  predicate GoodComponents(ps: seq<string>) {
    |ps| >= 1
    && (forall k :: 0 <= k < |ps| ==> ps[k] != "")
    && !(|ps| >= 2 && ps[0] == ".")
  }

  /** A name as `validate` builds it: the invariant of every name that reaches an archive. */
  predicate Valid(e: EntryName) {
    Validate(e.name) == Ok(e)
  }

  /**
   * A name built by `validate`, `add_prefix` or `empty`: its ranges are those
   * `split_indices` computes, whether or not the name would pass validation.
   */
  predicate Consistent(e: EntryName) {
    e == Empty() || e.components == Spans(e.name)
  }

  lemma HasDoubleSlashSnoc(t: string, c: char)
    ensures HasDoubleSlash(t + [c]) <==> HasDoubleSlash(t) || (|t| > 0 && t[|t| - 1] == '/' && c == '/')
  {
    var s := t + [c];
    if HasDoubleSlash(s) {
      var i :| 0 <= i < |s| - 1 && s[i] == '/' && s[i + 1] == '/';
      if i < |t| - 1 { assert t[i] == '/' && t[i + 1] == '/'; }
    }
    if HasDoubleSlash(t) {
      var i :| 0 <= i < |t| - 1 && t[i] == '/' && t[i + 1] == '/';
      assert s[i] == '/' && s[i + 1] == '/';
    }
    if |t| > 0 && t[|t| - 1] == '/' && c == '/' {
      assert s[|t| - 1] == '/' && s[|t|] == '/';
    }
  }

  /** No piece but possibly the last is empty. */
  predicate InnerPiecesNonEmpty(ps: seq<string>) {
    forall k :: 0 <= k < |ps| - 1 ==> ps[k] != ""
  }

  /** Which pieces of `s` are empty, read off its separators. */
  predicate EmptinessFacts(s: string) {
    var ps := Pieces(s);
    && (InnerPiecesNonEmpty(ps) <==> !(|s| > 0 && s[0] == '/') && !HasDoubleSlash(s))
    && (ps[|ps| - 1] == "" <==> |s| == 0 || s[|s| - 1] == '/')
  }

  /** Which pieces are empty, read off the separators of the string. */
  lemma PiecesEmptiness(s: string)
    ensures var ps := Pieces(s);
      (forall k :: 0 <= k < |ps| - 1 ==> ps[k] != "") <==> !(|s| > 0 && s[0] == '/') && !HasDoubleSlash(s)
    ensures var ps := Pieces(s);
      ps[|ps| - 1] == "" <==> |s| == 0 || s[|s| - 1] == '/'
  {
    EmptinessHolds(s);
    var ps := Pieces(s);
    assert InnerPiecesNonEmpty(ps) <==> !(|s| > 0 && s[0] == '/') && !HasDoubleSlash(s);
  }

  lemma {:induction false} EmptinessHolds(s: string)
    ensures EmptinessFacts(s)
  {
    if |s| > 0 {
      var t, c := s[..|s| - 1], s[|s| - 1];
      EmptinessHolds(t);
      assert s == t + [c];
      if c == '/' {
        EmptinessSlash(t);
      } else {
        EmptinessChar(t, c);
      }
    }
  }

  /** A trailing '/' adds an empty last piece; the old last piece becomes inner. */
  lemma {:induction false} EmptinessSlash(t: string)
    requires EmptinessFacts(t)
    ensures EmptinessFacts(t + ['/'])
  {
    var s := t + ['/'];
    PiecesSnoc(t, '/');
    HasDoubleSlashSnoc(t, '/');
    var ps, qs := Pieces(t), Pieces(s);
    assert qs == ps + [""];
    assert forall k :: 0 <= k < |ps| ==> qs[k] == ps[k];
    assert InnerPiecesNonEmpty(qs) <==> InnerPiecesNonEmpty(ps) && ps[|ps| - 1] != "";
    if |t| == 0 {
      assert qs[0] == "";
    } else {
      assert s[0] == t[0];
    }
  }

  /** Any other character extends the last piece, which is then not empty. */
  lemma {:induction false} EmptinessChar(t: string, c: char)
    requires c != '/' && EmptinessFacts(t)
    ensures EmptinessFacts(t + [c])
  {
    var s := t + [c];
    PiecesSnoc(t, c);
    HasDoubleSlashSnoc(t, c);
    var ps, qs := Pieces(t), Pieces(s);
    assert InnerPiecesNonEmpty(qs) <==> InnerPiecesNonEmpty(ps) by {
      assert forall k :: 0 <= k < |qs| - 1 ==> qs[k] == ps[k];
    }
    if |t| > 0 { assert s[0] == t[0]; }
  }

  /** A leading "./" is a leading "." piece followed by more pieces. */
  lemma DotSlashPieces(s: string)
    ensures StartsWithDotSlash(s) <==> |Pieces(s)| >= 2 && Pieces(s)[0] == "."
  {
    if StartsWithDotSlash(s) {
      assert s == "." + "/" + s[2..];
      PiecesConcat(".", s[2..]);
      PiecesOfPlain(".");
    }
    var ps := Pieces(s);
    if |ps| >= 2 && ps[0] == "." {
      JoinPieces(s);
      JoinFront(ps);
      assert s == "." + "/" + Join(ps[1..]);
    }
  }

  /**
   * `validate` accepts exactly the names whose pieces are good, and then
   * records them as its components.
   */
  lemma ValidateAccepts(name: string)
    ensures Validate(name).Ok? <==> GoodComponents(Pieces(name))
    ensures Validate(name).Ok? ==> Valid(Validate(name).value) && AllComponents(Validate(name).value) == Pieces(name)
  {
    PiecesEmptiness(name);
    DotSlashPieces(name);
    SpansArePieces(name);
  }

  /** Every rejection but the empty one carries the rejected name. */
  lemma ValidateErrors(name: string)
    ensures Validate(name) == Err(NameIsEmpty) <==> name == ""
    ensures Validate(name).Err? && name != "" ==> Validate(name).error.name == name
    ensures Validate(name).Ok? ==> Validate(name).value.name == name
  {
  }

  // ----- components -----

  /** `all_components`: the text of every component range, in order. */
  function AllComponents(e: EntryName): seq<string> {
    Texts(e.name, e.components)
  }

  /** The components of a consistent name: none for the empty name, else the pieces of its text. */
  lemma ConsistentComponents(e: EntryName)
    requires Consistent(e)
    ensures AllComponents(e) == if e == Empty() then [] else Pieces(e.name)
    ensures e != Empty() ==> |AllComponents(e)| == Count(e.name, '/') + 1
  {
    if e != Empty() {
      SpansArePieces(e.name);
      PiecesCount(e.name);
    }
  }

  /** A valid name's components are non-empty, hold no '/', and join back into the name. */
  lemma ValidComponents(e: EntryName)
    requires Valid(e)
    ensures GoodComponents(AllComponents(e)) && AllNoSlash(AllComponents(e))
    ensures Join(AllComponents(e)) == e.name
  {
    ValidateAccepts(e.name);
    PiecesHaveNoSlash(e.name);
    JoinPieces(e.name);
  }

  /** `parent_components`: every component but the last; the source panics on a name without components. */
  function ParentComponents(e: EntryName): (r: seq<string>)
    requires |e.components| >= 1
    ensures |r| == |e.components| - 1
    ensures AllComponents(e) == r + [AllComponents(e)[|e.components| - 1]]
  {
    AllComponents(e)[..|e.components| - 1]
  }

  /** Joining good components gives a name that `validate` accepts with exactly those components. */
  lemma ValidateJoin(ps: seq<string>)
    requires GoodComponents(ps) && AllNoSlash(ps)
    ensures Validate(Join(ps)).Ok?
    ensures AllComponents(Validate(Join(ps)).value) == ps
  {
    PiecesJoin(ps);
    ValidateAccepts(Join(ps));
  }

  /** `into_string`: the name's text; the source panics on the empty name. */
  function IntoString(e: EntryName): (r: string)
    requires !IsEmpty(e)
    ensures |r| > 0 && r == e.name
  {
    e.name
  }

  // ----- add_prefix -----

  /** `add_prefix`: the updated name; an empty prefix leaves the name as it is. */
  function AddPrefix(e: EntryName, prefix: EntryName): EntryName {
    if IsEmpty(prefix) then e
    else
      var n := prefix.name + "/" + e.name;
      EntryName(n, Spans(n))
  }

  /** Prefixing puts the prefix's components before the name's own. */
  lemma AddPrefixComponents(e: EntryName, prefix: EntryName)
    requires Valid(e) && (Valid(prefix) || prefix == Empty())
    ensures Consistent(AddPrefix(e, prefix))
    ensures AllComponents(AddPrefix(e, prefix)) == AllComponents(prefix) + AllComponents(e)
  {
    ValidateAccepts(e.name);
    if !IsEmpty(prefix) {
      ValidateAccepts(prefix.name);
      var n := prefix.name + "/" + e.name;
      PiecesConcat(prefix.name, e.name);
      SpansArePieces(n);
    }
  }

  /** Prefixing keeps a name valid unless the prefix is the single component ".". */
  lemma AddPrefixValid(e: EntryName, prefix: EntryName)
    requires Valid(e) && Valid(prefix)
    ensures Valid(AddPrefix(e, prefix)) <==> prefix.name != "."
  {
    ValidateAccepts(e.name);
    ValidateAccepts(prefix.name);
    var n := prefix.name + "/" + e.name;
    PiecesConcat(prefix.name, e.name);
    ValidateAccepts(n);
    var pp := Pieces(prefix.name);
    var ep := Pieces(e.name);
    assert Pieces(n) == pp + ep;
    assert (pp + ep)[0] == pp[0];
    if pp[0] == "." {
      JoinPieces(prefix.name);
    }
    if prefix.name == "." {
      PiecesOfPlain(".");
    }
  }

  // ----- ordering -----

  datatype Ordering = Less | Equal | Greater

  /** `Ord for EntryName`: lexicographic comparison of the component lists. */
  function Compare(a: EntryName, b: EntryName): Ordering {
    if ListLess(AllComponents(a), AllComponents(b)) then Less
    else if ListLess(AllComponents(b), AllComponents(a)) then Greater
    else Equal
  }

  /** Consistent names are identified by their components. */
  lemma ComponentsDetermineName(a: EntryName, b: EntryName)
    requires Consistent(a) && Consistent(b)
    requires AllComponents(a) == AllComponents(b)
    ensures a == b
  {
    ConsistentComponents(a);
    ConsistentComponents(b);
    if a != Empty() && b != Empty() {
      JoinPieces(a.name);
      JoinPieces(b.name);
    }
  }

  /** `Compare` is a total order on consistent names: `Equal` exactly for equal names, and antisymmetric. */
  lemma CompareIsTotalOrder(a: EntryName, b: EntryName, c: EntryName)
    requires Consistent(a) && Consistent(b) && Consistent(c)
    ensures Compare(a, b) == Equal <==> a == b
    ensures Compare(a, b) == Less <==> Compare(b, a) == Greater
    ensures Compare(a, b) == Less && Compare(b, c) == Less ==> Compare(a, c) == Less
  {
    var ka, kb, kc := AllComponents(a), AllComponents(b), AllComponents(c);
    ListLessTotal(ka, kb);
    ListLessIrreflexive(ka);
    if ListLess(ka, kb) { ListLessAsymmetric(ka, kb); }
    if ListLess(kb, ka) { ListLessAsymmetric(kb, ka); }
    if ka == kb { ComponentsDetermineName(a, b); }
    if ListLess(ka, kb) && ListLess(kb, kc) { ListLessTransitive(ka, kb, kc); ListLessAsymmetric(ka, kc); }
  }

  lemma PiecesOfTwo(a: string, b: string)
    requires NoSlash(a) && NoSlash(b)
    ensures Pieces(a + "/" + b) == [a, b]
  {
    PiecesConcat(a, b);
    PiecesOfPlain(a);
    PiecesOfPlain(b);
  }

  lemma ExamplePiecesSplit()
    ensures Pieces("a/b") == ["a", "b"]
  {
    assert "a/b" == "a" + "/" + "b";
    assert NoSlash("a") && NoSlash("b");
    PiecesOfTwo("a", "b");
  }

  lemma ExamplePiecesPlain()
    ensures Pieces("a-b") == ["a-b"]
  {
    assert "a-b"[0] == 'a' && "a-b"[1] == '-' && "a-b"[2] == 'b';
    assert NoSlash("a-b");
    PiecesOfPlain("a-b");
  }

  lemma ExampleOrders()
    ensures ListLess(["a", "b"], ["a-b"])
    ensures StrLess("a-b", "a/b")
  {
    assert StrLess("a", "a-b") by {
      assert "a-b"[1..] == "-b" && "a"[1..] == "";
      assert StrLess("", "-b");
    }
    assert StrLess("a-b", "a/b") by {
      assert "a-b"[1..] == "-b" && "a/b"[1..] == "/b";
      assert StrLess("-b", "/b");
    }
  }

  /**
   * Comparing by components is not comparing the text: "a/b" sorts before
   * "a-b" although '-' comes before '/'.
   */
  lemma ComponentOrderDiffersFromText()
    ensures Validate("a/b").Ok? && Validate("a-b").Ok?
    ensures Compare(Validate("a/b").value, Validate("a-b").value) == Less
    ensures StrLess("a-b", "a/b")
  {
    ExamplePiecesSplit();
    ExamplePiecesPlain();
    ExampleOrders();
    ValidateAccepts("a/b");
    ValidateAccepts("a-b");
  }

  // ----- file sources -----

  /** `FileSource`: an entry name and the file that provides its contents. */
  datatype FileSource = FileSource(name: EntryName, source: Path)

  /** `Ord for FileSource`: by name only, ignoring the source path. */
  predicate SourceLess(a: FileSource, b: FileSource) {
    Compare(a.name, b.name) == Less
  }
}
