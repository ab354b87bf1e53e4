/**
 * Turning a list of files into the ordered list of entries to write
 * (lib/src/zip.rs, `calculate_new_rightmost_components`,
 * `EntrySpecificationList::sort_and_deduplicate` and `from_file_specs`):
 * files sorted by name, each preceded by the directory entries it needs that
 * were not already written, all below an optional prefix.
 */
module ZipPlan {
  import opened Wrappers
  import opened Text
  import opened Paths
  import opened EntryNames
  import Sorting

  datatype EntryModifications = EntryModifications(silentExternalPrefix: Option<string>, ownPrefix: Option<string>)

  datatype InputConsistencyError =
    | DuplicateName(name: EntryName, first: Path, second: Path)
    | NameFormat(error: NameFormatError)

  datatype ZipEntrySpecification = File(file: FileSource) | Directory(directory: EntryName)

  // ----- calculate_new_rightmost_components -----

  /** The length of the longest common prefix of `prev` and `cur`. */
  function SharedPrefixLength<T(==)>(prev: seq<T>, cur: seq<T>): (n: nat)
    ensures n <= |prev| && n <= |cur| && prev[..n] == cur[..n]
    ensures n < |prev| && n < |cur| ==> prev[n] != cur[n]
  {
    if |prev| == 0 || |cur| == 0 || prev[0] != cur[0] then 0
    else
      var n := 1 + SharedPrefixLength(prev[1..], cur[1..]);
      assert prev[..n] == [prev[0]] + prev[1..][..n - 1];
      assert cur[..n] == [cur[0]] + cur[1..][..n - 1];
      n
  }

  lemma SharedPrefixMaximal<T>(prev: seq<T>, cur: seq<T>, m: nat)
    requires m <= |prev| && m <= |cur| && prev[..m] == cur[..m]
    ensures m <= SharedPrefixLength(prev, cur)
  {
  }

  /** The prefixes of `cur` longer than the part it shares with `prev`, shortest first. */
  function NewRightmost<T(==)>(prev: seq<T>, cur: seq<T>): seq<seq<T>> {
    var n := SharedPrefixLength(prev, cur);
    seq(|cur| - n, k requires 0 <= k < |cur| - n => cur[..n + k + 1])
  }

  /**
   * The new directories are exactly the non-empty prefixes of `cur` that are
   * not prefixes of `prev`, each one component longer than the one before.
   */
  lemma NewRightmostAreNewPrefixes<T>(prev: seq<T>, cur: seq<T>, d: seq<T>)
    ensures d in NewRightmost(prev, cur) <==>
      1 <= |d| <= |cur| && d == cur[..|d|] && !(|d| <= |prev| && d == prev[..|d|])
    ensures var r := NewRightmost(prev, cur);
      forall k :: 0 <= k < |r| - 1 ==> |r[k + 1]| == |r[k]| + 1 && r[k] == r[k + 1][..|r[k]|]
  {
    var n := SharedPrefixLength(prev, cur);
    var r := NewRightmost(prev, cur);
    if d in r {
      var k :| 0 <= k < |r| && r[k] == d;
      if |d| <= |prev| && d == prev[..|d|] {
        SharedPrefixMaximal(prev, cur, |d|);
      }
    }
    if 1 <= |d| <= |cur| && d == cur[..|d|] && !(|d| <= |prev| && d == prev[..|d|]) {
      assert r[|d| - n - 1] == d;
    }
  }

  /** `calculate_new_rightmost_components`: count the shared components, then list the longer prefixes. */
  method CalculateNewRightmostComponents<T(==)>(prev: seq<T>, cur: seq<T>) returns (dirs: seq<seq<T>>)
    ensures dirs == NewRightmost(prev, cur)
  {
    var limit := if |prev| < |cur| then |prev| else |cur|;
    var shared := 0;
    while shared < limit && prev[shared] == cur[shared]
      invariant 0 <= shared <= limit
      invariant prev[..shared] == cur[..shared]
    {
      assert prev[..shared + 1] == prev[..shared] + [prev[shared]];
      assert cur[..shared + 1] == cur[..shared] + [cur[shared]];
      shared := shared + 1;
    }
    SharedPrefixMaximal(prev, cur, shared);
    dirs := [];
    var last := shared;
    while last < |cur|
      invariant shared <= last <= |cur|
      invariant dirs == seq(last - shared, k requires 0 <= k < last - shared => cur[..shared + k + 1])
    {
      dirs := dirs + [cur[..last + 1]];
      last := last + 1;
    }
  }

  // ----- sort_and_deduplicate -----

  /** Two files sharing a name anywhere in the list. */
  predicate HasDuplicateNames(s: seq<FileSource>) {
    exists i, j :: 0 <= i < j < |s| && s[i].name == s[j].name
  }

  predicate AllValid(s: seq<FileSource>) {
    forall i :: 0 <= i < |s| ==> Valid(s[i].name)
  }

  /** Names strictly increase along the list. */
  predicate StrictlySorted(s: seq<FileSource>) {
    forall i, j :: 0 <= i < j < |s| ==> SourceLess(s[i], s[j])
  }

  lemma ValidNameShape(e: EntryName)
    requires Valid(e)
    ensures e != Empty() && !IsEmpty(e) && e.components == Spans(e.name) && |e.components| >= 1
    ensures Consistent(e)
  {
  }

  lemma SourceLessIsStrictWeakOrder()
    ensures Sorting.StrictWeakOrder(SourceLess)
  {
    forall x: FileSource, y: FileSource | SourceLess(x, y) ensures !SourceLess(y, x) {
      ListLessAsymmetric(AllComponents(x.name), AllComponents(y.name));
    }
    forall x: FileSource, y: FileSource, z: FileSource | !SourceLess(y, x) && !SourceLess(z, y)
      ensures !SourceLess(z, x)
    {
      var kx, ky, kz := AllComponents(x.name), AllComponents(y.name), AllComponents(z.name);
      if ListLess(kz, kx) {
        ListLessTotal(ky, kx);
        ListLessTotal(kz, ky);
        if ListLess(kx, ky) { ListLessTransitive(kz, kx, ky); }
      }
    }
  }

  lemma ValidSurvivesPermutation(a: seq<FileSource>, b: seq<FileSource>)
    requires multiset(a) == multiset(b) && AllValid(a)
    ensures AllValid(b)
  {
    forall i | 0 <= i < |b| ensures Valid(b[i].name) {
      assert b[i] in multiset(a);
      var j :| 0 <= j < |a| && a[j] == b[i];
    }
  }

  /** Dropping the last file keeps the list valid and sorted. */
  lemma SortedInit(s: seq<FileSource>)
    requires AllValid(s) && Sorting.SortedBy(s, SourceLess) && |s| >= 1
    ensures AllValid(s[..|s| - 1]) && Sorting.SortedBy(s[..|s| - 1], SourceLess)
  {
  }

  /** Of two distinct valid names, the one not greater is the smaller. */
  lemma DistinctNeighbours(a: FileSource, b: FileSource)
    requires Valid(a.name) && Valid(b.name) && !SourceLess(b, a) && a.name != b.name
    ensures SourceLess(a, b)
  {
    ValidNameShape(a.name);
    ValidNameShape(b.name);
    ListLessTotal(AllComponents(a.name), AllComponents(b.name));
    if AllComponents(a.name) == AllComponents(b.name) {
      ComponentsDetermineName(a.name, b.name);
    }
  }

  /** A file greater than the last of a strictly sorted list extends it strictly sorted. */
  lemma StrictSnoc(init: seq<FileSource>, f: FileSource)
    requires StrictlySorted(init) && |init| >= 1 && SourceLess(init[|init| - 1], f)
    ensures StrictlySorted(init + [f])
  {
    var n := |init|;
    forall i | 0 <= i < n ensures SourceLess(init[i], f) {
      if i < n - 1 {
        ListLessTransitive(AllComponents(init[i].name), AllComponents(init[n - 1].name), AllComponents(f.name));
      }
    }
  }

  /** The inductive step of `StrictFromNeighbours`: the last file extends a strictly sorted prefix. */
  lemma StrictStep(s: seq<FileSource>)
    requires AllValid(s) && Sorting.SortedBy(s, SourceLess) && |s| > 1
    requires StrictlySorted(s[..|s| - 1]) && s[|s| - 2].name != s[|s| - 1].name
    ensures StrictlySorted(s)
  {
    var n := |s| - 1;
    assert Valid(s[n - 1].name) && Valid(s[n].name) && !SourceLess(s[n], s[n - 1]);
    DistinctNeighbours(s[n - 1], s[n]);
    StrictSnoc(s[..n], s[n]);
    assert s[..n] + [s[n]] == s;
  }

  /** In a sorted list of valid names, distinct neighbours make the order strict. */
  lemma {:induction false} StrictFromNeighbours(s: seq<FileSource>)
    requires AllValid(s) && Sorting.SortedBy(s, SourceLess)
    requires forall i :: 0 < i < |s| ==> s[i - 1].name != s[i].name
    ensures StrictlySorted(s)
  {
    if |s| > 1 {
      var init := s[..|s| - 1];
      SortedInit(s);
      assert forall i :: 0 < i < |init| ==> init[i - 1].name != init[i].name;
      StrictFromNeighbours(init);
      StrictStep(s);
    }
  }

  /** A name equal to the one before it (or to the empty name, at the start) breaks strict order. */
  lemma DuplicateNotStrict(s: seq<FileSource>, i: nat)
    requires AllValid(s) && i < |s| && s[i].name == (if i == 0 then Empty() else s[i - 1].name)
    ensures i > 0 && !StrictlySorted(s)
  {
    ValidNameShape(s[i].name);
    ListLessIrreflexive(AllComponents(s[i].name));
  }

  /**
   * `sort_and_deduplicate`: sorts the files by name in place, then reports
   * the first pair of neighbours with equal names, carrying both sources.
   */
  method SortAndDeduplicate(specs: array<FileSource>) returns (r: Result<(), InputConsistencyError>)
    requires AllValid(specs[..])
    modifies specs
    ensures multiset(specs[..]) == multiset(old(specs[..]))
    ensures Sorting.SortedBy(specs[..], SourceLess)
    ensures r.Ok? <==> StrictlySorted(specs[..])
    ensures r.Err? ==> exists i :: (0 < i < specs.Length && specs[i - 1].name == specs[i].name
                                    && r.error == DuplicateName(specs[i].name, specs[i - 1].source, specs[i].source))
  {
    SourceLessIsStrictWeakOrder();
    Sorting.InsertionSort(specs, SourceLess);
    ValidSurvivesPermutation(old(specs[..]), specs[..]);
    r := FindDuplicate(specs[..]);
  }

  /** The scan over sorted entries: the first pair of neighbours with the same name, if any. */
  method FindDuplicate(s: seq<FileSource>) returns (r: Result<(), InputConsistencyError>)
    requires AllValid(s) && Sorting.SortedBy(s, SourceLess)
    ensures r.Ok? <==> StrictlySorted(s)
    ensures r.Err? ==> exists i :: (0 < i < |s| && s[i - 1].name == s[i].name
                                    && r.error == DuplicateName(s[i].name, s[i - 1].source, s[i].source))
  {
    var prevName := Empty();
    var prevPath := EmptyPath();
    for i := 0 to |s|
      invariant forall k :: 0 < k < i ==> s[k - 1].name != s[k].name
      invariant prevName == if i == 0 then Empty() else s[i - 1].name
      invariant prevPath == if i == 0 then EmptyPath() else s[i - 1].source
    {
      if s[i].name == prevName {
        DuplicateNotStrict(s, i);
        return Err(DuplicateName(s[i].name, prevPath, s[i].source));
      }
      prevName := s[i].name;
      prevPath := s[i].source;
    }
    StrictFromNeighbours(s);
    r := Ok(());
  }

  /** Sorting moves files around but cannot create or remove a shared name. */
  lemma {:induction false} TwoPositions(s: seq<FileSource>, x: FileSource)
    requires multiset(s)[x] >= 2
    ensures exists i, j :: 0 <= i < j < |s| && s[i] == x && s[j] == x
  {
    assert s == [s[0]] + s[1..];
    assert multiset(s) == multiset([s[0]]) + multiset(s[1..]);
    if s[0] == x {
      assert x in multiset(s[1..]);
      var j :| 0 <= j < |s[1..]| && s[1..][j] == x;
      assert s[0] == x && s[j + 1] == x;
    } else {
      TwoPositions(s[1..], x);
      var i, j :| 0 <= i < j < |s[1..]| && s[1..][i] == x && s[1..][j] == x;
      assert s[i + 1] == x && s[j + 1] == x;
    }
  }

  /** Two positions of a permutation come from two different positions of the original. */
  lemma TwoElements(a: seq<FileSource>, b: seq<FileSource>, p: nat, q: nat)
    requires multiset(a) == multiset(b) && p < q < |b|
    ensures exists i, j :: 0 <= i < |a| && 0 <= j < |a| && i != j && a[i] == b[p] && a[j] == b[q]
  {
    if b[p] == b[q] {
      assert multiset(b) == multiset(b[..q]) + multiset(b[q..]) by { assert b == b[..q] + b[q..]; }
      assert b[p] in multiset(b[..q]) by { assert b[..q][p] == b[p]; }
      assert b[q] in multiset(b[q..]) by { assert b[q..][0] == b[q]; }
      TwoPositions(a, b[p]);
    } else {
      assert b[p] in multiset(a) && b[q] in multiset(a);
      var i :| 0 <= i < |a| && a[i] == b[p];
      var j :| 0 <= j < |a| && a[j] == b[q];
    }
  }

  lemma DuplicatesSurvivePermutation(a: seq<FileSource>, b: seq<FileSource>)
    requires multiset(a) == multiset(b)
    ensures HasDuplicateNames(a) ==> HasDuplicateNames(b)
  {
    if HasDuplicateNames(a) {
      var i, j :| 0 <= i < j < |a| && a[i].name == a[j].name;
      if a[i] == a[j] {
        assert multiset(a) == multiset(a[..j]) + multiset(a[j..]) by { assert a == a[..j] + a[j..]; }
        assert a[i] in multiset(a[..j]) by { assert a[..j][i] == a[i]; }
        assert a[j] in multiset(a[j..]) by { assert a[j..][0] == a[j]; }
        TwoPositions(b, a[i]);
      } else {
        assert a[i] in multiset(b) && a[j] in multiset(b);
        var p :| 0 <= p < |b| && b[p] == a[i];
        var q :| 0 <= q < |b| && b[q] == a[j];
        if p < q { assert b[p].name == b[q].name; } else { assert b[q].name == b[p].name; }
      }
    }
  }

  /** A strictly sorted list repeats no name, and a sorted list that repeats none is strictly sorted. */
  lemma StrictlySortedMeansDistinct(s: seq<FileSource>)
    requires AllValid(s) && Sorting.SortedBy(s, SourceLess)
    ensures StrictlySorted(s) <==> !HasDuplicateNames(s)
  {
    if !HasDuplicateNames(s) {
      forall i | 0 < i < |s| ensures s[i - 1].name != s[i].name {
      }
      StrictFromNeighbours(s);
    }
  }

  // ----- directory layout of from_file_specs -----

  /** One written entry before the prefix is applied: a directory's components, or a file. */
  datatype Item = DirItem(components: seq<string>) | FileItem(file: FileSource)

  /** The directory components of a file's name (`parent_components`). */
  function Dirs(f: FileSource): seq<string> {
    if |f.name.components| >= 1 then ParentComponents(f.name) else []
  }

  function DirItems(ds: seq<seq<string>>): seq<Item> {
    seq(|ds|, k requires 0 <= k < |ds| => DirItem(ds[k]))
  }

  /**
   * The loop over the sorted files: the directories the file needs that the
   * previous file did not, then the file itself.
   */
  function Layout(s: seq<FileSource>): seq<Item> {
    if |s| == 0 then []
    else Layout(s[..|s| - 1]) + Step(LastDirs(s[..|s| - 1]), s[|s| - 1])
  }

  /** The directory components of the last file, or none before the first file. */
  function LastDirs(s: seq<FileSource>): seq<string> {
    if |s| == 0 then [] else Dirs(s[|s| - 1])
  }

  /** The entries written for file `f` when the previous file had directories `prev`. */
  function Step(prev: seq<string>, f: FileSource): seq<Item> {
    DirItems(NewRightmost(prev, Dirs(f))) + [FileItem(f)]
  }

  /** The files of a list of items, in order. */
  function Files(items: seq<Item>): seq<FileSource> {
    if |items| == 0 then []
    else
      var last := items[|items| - 1];
      Files(items[..|items| - 1]) + (if last.FileItem? then [last.file] else [])
  }

  lemma {:induction false} FilesAppend(a: seq<Item>, b: seq<Item>)
    ensures Files(a + b) == Files(a) + Files(b)
  {
    if |b| > 0 {
      assert (a + b)[..|a + b| - 1] == a + b[..|b| - 1];
      FilesAppend(a, b[..|b| - 1]);
    } else {
      assert a + b == a;
    }
  }

  lemma {:induction false} FilesOfDirItems(ds: seq<seq<string>>)
    ensures Files(DirItems(ds)) == []
  {
    if |ds| > 0 {
      assert DirItems(ds)[..|ds| - 1] == DirItems(ds[..|ds| - 1]);
      FilesOfDirItems(ds[..|ds| - 1]);
    }
  }

  lemma FilesOfStep(prev: seq<string>, f: FileSource)
    ensures Files(Step(prev, f)) == [f]
  {
    var ds := NewRightmost(prev, Dirs(f));
    FilesAppend(DirItems(ds), [FileItem(f)]);
    FilesOfDirItems(ds);
    assert Files([FileItem(f)]) == Files([]) + [f];
  }

  /** The inductive step of `LayoutFiles`: the last file's step adds exactly that file. */
  lemma LayoutFilesStep(s: seq<FileSource>)
    requires |s| > 0 && Files(Layout(s[..|s| - 1])) == s[..|s| - 1]
    ensures Files(Layout(s)) == s
  {
    var init, f := s[..|s| - 1], s[|s| - 1];
    var step := Step(LastDirs(init), f);
    assert Layout(s) == Layout(init) + step;
    FilesAppend(Layout(init), step);
    FilesOfStep(LastDirs(init), f);
    assert init + [f] == s;
  }

  /** Every file is written exactly once, in the sorted order. */
  lemma {:induction false} LayoutFiles(s: seq<FileSource>)
    ensures Files(Layout(s)) == s
  {
    if |s| > 0 {
      LayoutFiles(s[..|s| - 1]);
      LayoutFilesStep(s);
    }
  }

  /** Each file comes after an entry for every directory that contains it. */
  predicate ParentsFirst(items: seq<Item>) {
    forall j, m :: 0 <= j < |items| && items[j].FileItem? && 1 <= m <= |Dirs(items[j].file)| ==>
      DirItem(Dirs(items[j].file)[..m]) in items[..j]
  }

  /** `items` holds an entry for every directory containing a file with directories `d`. */
  predicate HasParents(items: seq<Item>, d: seq<string>) {
    forall m :: 1 <= m <= |d| ==> DirItem(d[..m]) in items
  }

  lemma {:induction false} StepHasParents(items: seq<Item>, prev: seq<string>, d: seq<string>)
    requires HasParents(items, prev)
    ensures HasParents(items + DirItems(NewRightmost(prev, d)), d)
  {
    var sh := SharedPrefixLength(prev, d);
    var ds := DirItems(NewRightmost(prev, d));
    forall m | 1 <= m <= |d| ensures DirItem(d[..m]) in items + ds {
      if m <= sh {
        assert d[..m] == prev[..m];
        assert DirItem(prev[..m]) in items;
      } else {
        assert ds[m - sh - 1] == DirItem(d[..m]);
      }
    }
  }

  lemma ParentsFirstSnoc(items: seq<Item>, ds: seq<seq<string>>, f: FileSource)
    requires ParentsFirst(items) && HasParents(items + DirItems(ds), Dirs(f))
    ensures ParentsFirst(items + DirItems(ds) + [FileItem(f)])
  {
    var all := items + DirItems(ds) + [FileItem(f)];
    forall j, m | 0 <= j < |all| && all[j].FileItem? && 1 <= m <= |Dirs(all[j].file)|
      ensures DirItem(Dirs(all[j].file)[..m]) in all[..j]
    {
      if j < |items| {
        assert all[j] == items[j] && items[..j] == all[..j];
      } else {
        assert j == |all| - 1 && all[..j] == items + DirItems(ds);
      }
    }
  }

  lemma {:induction false} LayoutParentsFirst(s: seq<FileSource>)
    ensures ParentsFirst(Layout(s))
    ensures HasParents(Layout(s), LastDirs(s))
  {
    if |s| > 0 {
      var init := s[..|s| - 1];
      var f := s[|s| - 1];
      LayoutParentsFirst(init);
      StepHasParents(Layout(init), LastDirs(init), Dirs(f));
      ParentsFirstSnoc(Layout(init), NewRightmost(LastDirs(init), Dirs(f)), f);
      var L' := Layout(s);
      assert L' == Layout(init) + DirItems(NewRightmost(LastDirs(init), Dirs(f))) + [FileItem(f)];
      assert HasParents(L', Dirs(f)) by {
        forall m | 1 <= m <= |Dirs(f)| ensures DirItem(Dirs(f)[..m]) in L' {
          assert DirItem(Dirs(f)[..m]) in L'[..|L'| - 1];
        }
      }
    }
  }

  /** A non-empty prefix of the directory components of `f`. */
  predicate IsDirPrefix(c: seq<string>, f: FileSource) {
    1 <= |c| <= |Dirs(f)| && c == Dirs(f)[..|c|]
  }

  /** Every directory entry is written at most once. */
  predicate DirsDistinct(items: seq<Item>) {
    forall i, j :: 0 <= i < j < |items| && items[i].DirItem? && items[j].DirItem? ==>
      items[i].components != items[j].components
  }

  /** Every directory entry is a containing directory of one of the files. */
  predicate DirsFromFiles(items: seq<Item>, s: seq<FileSource>) {
    forall i :: 0 <= i < |items| && items[i].DirItem? ==>
      exists t :: 0 <= t < |s| && IsDirPrefix(items[i].components, s[t])
  }

  lemma KeyShape(f: FileSource)
    requires Valid(f.name)
    ensures var k := AllComponents(f.name); |k| >= 1 && k == Dirs(f) + [k[|k| - 1]]
  {
    ValidNameShape(f.name);
  }

  /** Between two keys that extend a directory, every key in sorted order extends it too. */
  lemma ConvexKeys(dt: seq<string>, dp: seq<string>, df: seq<string>, xt: string, xp: string, xf: string, m: nat)
    requires 1 <= m <= |df| && m <= |dt| && df[..m] == dt[..m]
    requires !ListLess(dp + [xp], dt + [xt]) && !ListLess(df + [xf], dp + [xp])
    ensures m <= SharedPrefixLength(dp, df)
  {
    var c := df[..m];
    assert (dt + [xt])[..m] == c;
    assert (df + [xf])[..m] == c;
    ListBetweenExtends(c, dt + [xt], dp + [xp], df + [xf]);
    assert dp[..m] == (dp + [xp])[..m];
    SharedPrefixMaximal(dp, df, m);
  }

  /**
   * In sorted order, a directory shared by an earlier file and the current
   * one is also shared by the file just before the current one.
   */
  lemma ConvexDirs(ft: FileSource, fp: FileSource, ff: FileSource, m: nat)
    requires Valid(ft.name) && Valid(fp.name) && Valid(ff.name)
    requires !SourceLess(fp, ft) && !SourceLess(ff, fp)
    requires 1 <= m <= |Dirs(ff)| && IsDirPrefix(Dirs(ff)[..m], ft)
    ensures m <= SharedPrefixLength(Dirs(fp), Dirs(ff))
  {
    KeyShape(ft);
    KeyShape(fp);
    KeyShape(ff);
    var kt, kp, kf := AllComponents(ft.name), AllComponents(fp.name), AllComponents(ff.name);
    ConvexKeys(Dirs(ft), Dirs(fp), Dirs(ff), kt[|kt| - 1], kp[|kp| - 1], kf[|kf| - 1], m);
  }

  lemma DirsFromFilesStep(items: seq<Item>, s: seq<FileSource>, prev: seq<string>, f: FileSource)
    requires DirsFromFiles(items, s)
    ensures DirsFromFiles(items + Step(prev, f), s + [f])
  {
    var all := items + Step(prev, f);
    var sh := SharedPrefixLength(prev, Dirs(f));
    forall i | 0 <= i < |all| && all[i].DirItem?
      ensures exists t :: 0 <= t < |s + [f]| && IsDirPrefix(all[i].components, (s + [f])[t])
    {
      if i < |items| {
        var t :| 0 <= t < |s| && IsDirPrefix(items[i].components, s[t]);
        assert (s + [f])[t] == s[t] && all[i] == items[i];
      } else {
        assert all[i].components == Dirs(f)[..sh + (i - |items|) + 1];
        assert IsDirPrefix(all[i].components, (s + [f])[|s|]);
      }
    }
  }

  /** The directories the current file adds were not containing directories of any earlier file. */
  predicate NewDirsUnseen(s: seq<FileSource>, prev: seq<string>, d: seq<string>) {
    forall t, m :: 0 <= t < |s| && SharedPrefixLength(prev, d) < m <= |d| ==> !IsDirPrefix(d[..m], s[t])
  }

  lemma {:induction false} DirsDistinctStep(items: seq<Item>, s: seq<FileSource>, prev: seq<string>, f: FileSource)
    requires DirsDistinct(items) && DirsFromFiles(items, s) && NewDirsUnseen(s, prev, Dirs(f))
    ensures DirsDistinct(items + Step(prev, f))
  {
    var all := items + Step(prev, f);
    var sh := SharedPrefixLength(prev, Dirs(f));
    forall i, j | 0 <= i < j < |all| && all[i].DirItem? && all[j].DirItem?
      ensures all[i].components != all[j].components
    {
      if j < |items| {
        assert all[i] == items[i] && all[j] == items[j];
      } else if i >= |items| {
        assert |all[i].components| == sh + (i - |items|) + 1;
        assert |all[j].components| == sh + (j - |items|) + 1;
      } else {
        var m := sh + (j - |items|) + 1;
        assert all[j].components == Dirs(f)[..m];
        assert all[i] == items[i];
        var t :| 0 <= t < |s| && IsDirPrefix(items[i].components, s[t]);
      }
    }
  }

  /** A directory the current file adds is no containing directory of an earlier file `ft`. */
  lemma UnseenAt(ft: FileSource, fp: FileSource, ff: FileSource, m: nat)
    requires Valid(ft.name) && Valid(fp.name) && Valid(ff.name)
    requires ft == fp || !SourceLess(fp, ft)
    requires !SourceLess(ff, fp)
    requires SharedPrefixLength(Dirs(fp), Dirs(ff)) < m <= |Dirs(ff)|
    ensures !IsDirPrefix(Dirs(ff)[..m], ft)
  {
    if IsDirPrefix(Dirs(ff)[..m], ft) {
      if ft == fp {
        SharedPrefixMaximal(Dirs(fp), Dirs(ff), m);
      } else {
        ConvexDirs(ft, fp, ff, m);
      }
    }
  }

  /**
   * `NewDirsUnseen` for the file `s[k]` placed after the first `k` files of
   * `s`, none of which is greater than `s[k - 1]`.
   */
  lemma NewDirsUnseenAfter(s: seq<FileSource>, k: nat)
    requires 0 < k < |s|
    requires forall t :: 0 <= t < k ==> Valid(s[t].name) && (s[t] == s[k - 1] || !SourceLess(s[k - 1], s[t]))
    requires Valid(s[k].name) && !SourceLess(s[k], s[k - 1])
    ensures NewDirsUnseen(s[..k], LastDirs(s[..k]), Dirs(s[k]))
  {
    LastDirsOfPrefix(s, k);
    var fp, ff := s[k - 1], s[k];
    forall t, m | 0 <= t < k && SharedPrefixLength(Dirs(fp), Dirs(ff)) < m <= |Dirs(ff)|
      ensures !IsDirPrefix(Dirs(ff)[..m], s[..k][t])
    {
      assert s[..k][t] == s[t];
      UnseenAt(s[t], fp, ff, m);
    }
  }

  lemma LastDirsOfPrefix(s: seq<FileSource>, k: nat)
    requires 0 < k <= |s|
    ensures LastDirs(s[..k]) == Dirs(s[k - 1])
  {
    assert s[..k][k - 1] == s[k - 1];
  }

  /** In sorted order no file before `s[k]` is greater than `s[k - 1]`, nor is `s[k]` less than it. */
  lemma SortedBeforeLast(s: seq<FileSource>, k: nat)
    requires AllValid(s) && Sorting.SortedBy(s, SourceLess) && 0 < k < |s|
    ensures forall t :: 0 <= t < k ==> Valid(s[t].name) && (s[t] == s[k - 1] || !SourceLess(s[k - 1], s[t]))
    ensures Valid(s[k].name) && !SourceLess(s[k], s[k - 1])
  {
    forall t | 0 <= t < k
      ensures Valid(s[t].name) && (s[t] == s[k - 1] || !SourceLess(s[k - 1], s[t]))
    {
      if t < k - 1 {
        assert !SourceLess(s[k - 1], s[t]);
      }
    }
  }

  lemma NewDirsUnseenSorted(s: seq<FileSource>)
    requires AllValid(s) && Sorting.SortedBy(s, SourceLess) && |s| >= 1
    ensures NewDirsUnseen(s[..|s| - 1], LastDirs(s[..|s| - 1]), Dirs(s[|s| - 1]))
  {
    var k := |s| - 1;
    if k > 0 {
      SortedBeforeLast(s, k);
      NewDirsUnseenAfter(s, k);
    } else {
      assert |s[..k]| == 0;
    }
  }

  /** For sorted files with distinct names no directory entry is written twice. */
  lemma {:induction false} LayoutDirsDistinct(s: seq<FileSource>)
    requires AllValid(s) && Sorting.SortedBy(s, SourceLess)
    ensures DirsDistinct(Layout(s))
    ensures DirsFromFiles(Layout(s), s)
  {
    if |s| > 0 {
      var init := s[..|s| - 1];
      var f := s[|s| - 1];
      SortedInit(s);
      LayoutDirsDistinct(init);
      NewDirsUnseenSorted(s);
      DirsFromFilesStep(Layout(init), init, LastDirs(init), f);
      DirsDistinctStep(Layout(init), init, LastDirs(init), f);
      assert init + [f] == s;
    }
  }

  // ----- names of the planned entries -----

  /** Component lists that `validate` accepts once joined. */
  predicate Good(ps: seq<string>) {
    GoodComponents(ps) && AllNoSlash(ps)
  }

  /** The name made from joined components (`join("/")` followed by `validate`). */
  function DirName(ps: seq<string>): EntryName {
    var n := Join(ps);
    EntryName(n, Spans(n))
  }

  lemma DirNameComponents(ps: seq<string>)
    requires |ps| >= 1 && AllNoSlash(ps)
    ensures AllComponents(DirName(ps)) == ps
  {
    PiecesJoin(ps);
    SpansArePieces(Join(ps));
  }

  lemma DirNameValid(ps: seq<string>)
    requires Good(ps)
    ensures Validate(Join(ps)) == Ok(DirName(ps)) && Valid(DirName(ps))
    ensures AllComponents(DirName(ps)) == ps && !IsEmpty(DirName(ps))
  {
    ValidateJoin(ps);
    DirNameComponents(ps);
  }

  lemma ValidIsDirName(e: EntryName)
    requires Valid(e)
    ensures Good(AllComponents(e)) && e == DirName(AllComponents(e))
  {
    ValidComponents(e);
  }

  lemma GoodPrefix(ps: seq<string>, m: nat)
    requires Good(ps) && 1 <= m <= |ps|
    ensures Good(ps[..m])
  {
  }

  lemma DirPrefixGood(c: seq<string>, f: FileSource)
    requires Valid(f.name) && IsDirPrefix(c, f)
    ensures Good(c)
  {
    KeyShape(f);
    ValidComponents(f.name);
    var k := AllComponents(f.name);
    assert c == k[..|c|];
    GoodPrefix(k, |c|);
  }

  /** Different component lists make different names. */
  lemma DirNameInjective(xs: seq<string>, ys: seq<string>)
    requires |xs| >= 1 && AllNoSlash(xs) && |ys| >= 1 && AllNoSlash(ys) && xs != ys
    ensures DirName(xs) != DirName(ys)
  {
    DirNameComponents(xs);
    DirNameComponents(ys);
  }

  // ----- the prefix directories -----

  /** A prefix given as components: none, or the good components of a valid name. */
  predicate PrefixParts(ps: seq<string>) {
    ps == [] || Good(ps)
  }

  /** The optional prefix's `validate` followed by `all_components`. */
  function PrefixComponents(p: Option<string>): (r: Result<seq<string>, NameFormatError>)
    ensures r.Ok? ==> PrefixParts(r.value)
    ensures r.Err? <==> p.Some? && Validate(p.value).Err?
  {
    match p
    case None => Ok([])
    case Some(name) =>
      match Validate(name)
      case Err(e) => Err(e)
      case Ok(n) =>
        ValidComponents(n);
        Ok(AllComponents(n))
  }

  /** The name every entry is placed under: none for no components. */
  function CachedPrefix(all: seq<string>): Result<EntryName, NameFormatError> {
    if |all| == 0 then Ok(Empty()) else Validate(Join(all))
  }

  /**
   * The combined prefix is rejected exactly when the silent prefix is "."
   * and an own prefix follows it.
   */
  lemma CombinedPrefix(silent: seq<string>, own: seq<string>)
    requires PrefixParts(silent) && PrefixParts(own)
    ensures CachedPrefix(silent + own).Err? <==> silent == ["."] && |own| >= 1
    ensures !(silent == ["."] && |own| >= 1) ==> PrefixParts(silent + own)
    ensures CachedPrefix(silent + own).Ok? ==>
      CachedPrefix(silent + own).value == if silent + own == [] then Empty() else DirName(silent + own)
  {
    var all := silent + own;
    if silent == ["."] && |own| >= 1 {
      PiecesJoin(all);
      ValidateAccepts(Join(all));
    } else if all != [] {
      if silent == [] { assert all == own; }
      assert Good(all);
      DirNameValid(all);
    }
  }

  /** One directory entry for each own-prefix component, below the silent prefix. */
  function OwnPrefixDirectories(silent: seq<string>, own: seq<string>): seq<ZipEntrySpecification> {
    seq(|own|, k requires 0 <= k < |own| => Directory(DirName(silent + own[..k + 1])))
  }

  lemma OwnPrefixSnoc(silent: seq<string>, own: seq<string>)
    requires |own| >= 1
    ensures OwnPrefixDirectories(silent, own) ==
      OwnPrefixDirectories(silent, own[..|own| - 1]) + [Directory(DirName(silent + own))]
  {
    var init := own[..|own| - 1];
    forall k | 0 <= k < |init|
      ensures OwnPrefixDirectories(silent, init)[k] == OwnPrefixDirectories(silent, own)[k]
    {
      assert init[..k + 1] == own[..k + 1];
    }
    assert own[..|own|] == own;
  }

  /**
   * The own-prefix loop as written: it validates each intermediate directory
   * and panics (`None`) on the first that fails.
   */
  function OwnPrefixDirectoriesAsWritten(silent: seq<string>, own: seq<string>): Option<seq<ZipEntrySpecification>> {
    if |own| == 0 then Some([])
    else
      match OwnPrefixDirectoriesAsWritten(silent, own[..|own| - 1])
      case None => None
      case Some(done) =>
        match Validate(Join(silent + own))
        case Err(_) => None
        case Ok(d) => Some(done + [Directory(d)])
  }

  lemma DotJoinRejected(own: seq<string>)
    requires PrefixParts(own) && |own| >= 1
    ensures Validate(Join(["."] + own)).Err?
  {
    PiecesJoin(["."] + own);
    ValidateAccepts(Join(["."] + own));
  }

  /** The loop as written panics exactly where the combined prefix is rejected, and otherwise agrees. */
  lemma {:induction false} AsWrittenPanicsOnDotPrefix(silent: seq<string>, own: seq<string>)
    requires PrefixParts(silent) && PrefixParts(own)
    ensures OwnPrefixDirectoriesAsWritten(silent, own).None? <==> silent == ["."] && |own| >= 1
    ensures OwnPrefixDirectoriesAsWritten(silent, own).Some? ==>
      OwnPrefixDirectoriesAsWritten(silent, own).value == OwnPrefixDirectories(silent, own)
  {
    if |own| > 0 {
      var init := own[..|own| - 1];
      assert PrefixParts(init) by {
        if init != [] { GoodPrefix(own, |init|); }
      }
      AsWrittenPanicsOnDotPrefix(silent, init);
      var before := OwnPrefixDirectoriesAsWritten(silent, init);
      var v := Validate(Join(silent + own));
      assert OwnPrefixDirectoriesAsWritten(silent, own) ==
        if before.None? || v.Err? then None else Some(before.value + [Directory(v.value)]);
      if silent == ["."] {
        DotJoinRejected(own);
      } else {
        AsWrittenStep(silent, own);
      }
    }
  }

  lemma AsWrittenStep(silent: seq<string>, own: seq<string>)
    requires PrefixParts(silent) && PrefixParts(own) && |own| >= 1 && silent != ["."]
    ensures Validate(Join(silent + own)) == Ok(DirName(silent + own))
    ensures OwnPrefixDirectories(silent, own) ==
      OwnPrefixDirectories(silent, own[..|own| - 1]) + [Directory(DirName(silent + own))]
  {
    CombinedPrefix(silent, own);
    DirNameValid(silent + own);
    OwnPrefixSnoc(silent, own);
  }

  /** "." and "a" are each accepted as a prefix, yet together the loop as written panics. */
  lemma DotPrefixPanics()
    ensures PrefixComponents(Some(".")) == Ok(["."])
    ensures PrefixComponents(Some("a")) == Ok(["a"])
    ensures OwnPrefixDirectoriesAsWritten(["."], ["a"]) == None
  {
    PiecesOfPlain(".");
    PiecesOfPlain("a");
    ValidateAccepts(".");
    ValidateAccepts("a");
    AsWrittenPanicsOnDotPrefix(["."], ["a"]);
  }

  // ----- from_file_specs -----

  /** An item written below the prefix `cached`. */
  function RenderItem(it: Item, cached: EntryName): ZipEntrySpecification {
    match it
    case DirItem(c) => Directory(AddPrefix(DirName(c), cached))
    case FileItem(f) => File(FileSource(AddPrefix(f.name, cached), f.source))
  }

  function Render(items: seq<Item>, cached: EntryName): seq<ZipEntrySpecification> {
    seq(|items|, k requires 0 <= k < |items| => RenderItem(items[k], cached))
  }

  /**
   * The entries planned for sorted, distinct files: the prefix is checked
   * whole before any directory of it is emitted (see `AsWrittenPanicsOnDotPrefix`
   * for the order of the source).
   */
  function Plan(sorted: seq<FileSource>, mods: EntryModifications): Result<seq<ZipEntrySpecification>, InputConsistencyError> {
    match PrefixComponents(mods.silentExternalPrefix)
    case Err(e) => Err(NameFormat(e))
    case Ok(silent) =>
      match PrefixComponents(mods.ownPrefix)
      case Err(e) => Err(NameFormat(e))
      case Ok(own) =>
        match CachedPrefix(silent + own)
        case Err(e) => Err(NameFormat(e))
        case Ok(cached) => Ok(OwnPrefixDirectories(silent, own) + Render(Layout(sorted), cached))
  }

  // ----- what the plan contains -----

  /** The name given to prefix components: the empty name for none. */
  function PrefixName(pre: seq<string>): EntryName {
    if pre == [] then Empty() else DirName(pre)
  }

  /** An item placed below the prefix components `pre`, with its name built from components. */
  function Placed(it: Item, pre: seq<string>): ZipEntrySpecification {
    match it
    case DirItem(c) => Directory(DirName(pre + c))
    case FileItem(f) => File(FileSource(DirName(pre + AllComponents(f.name)), f.source))
  }

  function PlaceAll(items: seq<Item>, pre: seq<string>): seq<ZipEntrySpecification> {
    seq(|items|, k requires 0 <= k < |items| => Placed(items[k], pre))
  }

  /** Items whose directories are good component lists and whose files have valid names. */
  predicate WellFormedItems(items: seq<Item>) {
    forall k :: 0 <= k < |items| ==>
      (items[k].DirItem? ==> Good(items[k].components)) && (items[k].FileItem? ==> Valid(items[k].file.name))
  }

  lemma AddPrefixDirName(c: seq<string>, pre: seq<string>)
    requires |c| >= 1 && PrefixParts(pre)
    ensures AddPrefix(DirName(c), PrefixName(pre)) == DirName(pre + c)
  {
    if pre == [] {
      assert pre + c == c;
    } else {
      DirNameValid(pre);
      JoinAppend(pre, c);
    }
  }

  /** Prefixing a name by `add_prefix` gives the name of the joined components. */
  lemma RenderPlaced(items: seq<Item>, pre: seq<string>)
    requires WellFormedItems(items) && PrefixParts(pre)
    ensures Render(items, PrefixName(pre)) == PlaceAll(items, pre)
  {
    forall k | 0 <= k < |items| ensures RenderItem(items[k], PrefixName(pre)) == Placed(items[k], pre) {
      match items[k]
      case DirItem(c) =>
        AddPrefixDirName(c, pre);
      case FileItem(f) =>
        ValidIsDirName(f.name);
        AddPrefixDirName(AllComponents(f.name), pre);
    }
  }

  lemma {:induction false} LayoutFilesFrom(s: seq<FileSource>)
    ensures forall k :: 0 <= k < |Layout(s)| && Layout(s)[k].FileItem? ==> Layout(s)[k].file in s
  {
    if |s| > 0 {
      var init := s[..|s| - 1];
      LayoutFilesFrom(init);
      var L := Layout(init);
      var L' := Layout(s);
      assert L' == L + Step(LastDirs(init), s[|s| - 1]);
      forall k | 0 <= k < |L'| && L'[k].FileItem? ensures L'[k].file in s {
        if k < |L| {
          assert L'[k] == L[k];
          assert L[k].file in init;
        }
      }
    }
  }

  lemma LayoutWellFormed(s: seq<FileSource>)
    requires AllValid(s) && Sorting.SortedBy(s, SourceLess)
    ensures WellFormedItems(Layout(s))
  {
    LayoutDirsDistinct(s);
    LayoutFilesFrom(s);
    var L := Layout(s);
    forall k | 0 <= k < |L| ensures (L[k].DirItem? ==> Good(L[k].components)) && (L[k].FileItem? ==> Valid(L[k].file.name)) {
      if L[k].DirItem? {
        var t :| 0 <= t < |s| && IsDirPrefix(L[k].components, s[t]);
        DirPrefixGood(L[k].components, s[t]);
      }
    }
  }

  /** The plan of valid, sorted files: defined exactly when both prefixes validate and do not join into "./...". */
  lemma PlanShape(sorted: seq<FileSource>, mods: EntryModifications)
    requires AllValid(sorted) && Sorting.SortedBy(sorted, SourceLess)
    ensures var silent, own := PrefixComponents(mods.silentExternalPrefix), PrefixComponents(mods.ownPrefix);
      Plan(sorted, mods).Ok? <==> silent.Ok? && own.Ok? && !(silent.value == ["."] && |own.value| >= 1)
    ensures var silent, own := PrefixComponents(mods.silentExternalPrefix), PrefixComponents(mods.ownPrefix);
      Plan(sorted, mods).Ok? ==>
        Plan(sorted, mods).value == OwnPrefixDirectories(silent.value, own.value) + PlaceAll(Layout(sorted), silent.value + own.value)
  {
    var silent, own := PrefixComponents(mods.silentExternalPrefix), PrefixComponents(mods.ownPrefix);
    if silent.Ok? && own.Ok? {
      CombinedPrefix(silent.value, own.value);
      if !(silent.value == ["."] && |own.value| >= 1) {
        LayoutWellFormed(sorted);
        RenderPlaced(Layout(sorted), silent.value + own.value);
      }
    }
  }

  /** The entries of a plan below silent prefix `silent` and own prefix `own`. */
  function Planned(sorted: seq<FileSource>, silent: seq<string>, own: seq<string>): seq<ZipEntrySpecification> {
    PlannedFrom(Layout(sorted), silent, own)
  }

  /** The files among some entries, in order. */
  function EntryFiles(entries: seq<ZipEntrySpecification>): seq<FileSource> {
    if |entries| == 0 then []
    else
      var last := entries[|entries| - 1];
      EntryFiles(entries[..|entries| - 1]) + (if last.File? then [last.file] else [])
  }

  lemma {:induction false} EntryFilesAppend(a: seq<ZipEntrySpecification>, b: seq<ZipEntrySpecification>)
    ensures EntryFiles(a + b) == EntryFiles(a) + EntryFiles(b)
  {
    if |b| > 0 {
      assert (a + b)[..|a + b| - 1] == a + b[..|b| - 1];
      EntryFilesAppend(a, b[..|b| - 1]);
    } else {
      assert a + b == a;
    }
  }

  lemma {:induction false} EntryFilesOwnPrefix(silent: seq<string>, own: seq<string>)
    ensures EntryFiles(OwnPrefixDirectories(silent, own)) == []
  {
    if |own| > 0 {
      var init := own[..|own| - 1];
      OwnPrefixSnoc(silent, own);
      EntryFilesOwnPrefix(silent, init);
      assert (OwnPrefixDirectories(silent, init) + [Directory(DirName(silent + own))])[..|own| - 1] == OwnPrefixDirectories(silent, init);
    }
  }

  /** A file as the plan writes it: renamed below the prefix, same source. */
  function PlacedFile(f: FileSource, pre: seq<string>): FileSource {
    FileSource(DirName(pre + AllComponents(f.name)), f.source)
  }

  function PlacedFiles(fs: seq<FileSource>, pre: seq<string>): seq<FileSource> {
    seq(|fs|, k requires 0 <= k < |fs| => PlacedFile(fs[k], pre))
  }

  lemma {:induction false} EntryFilesPlaced(items: seq<Item>, pre: seq<string>)
    ensures EntryFiles(PlaceAll(items, pre)) == PlacedFiles(Files(items), pre)
  {
    if |items| > 0 {
      var init := items[..|items| - 1];
      assert PlaceAll(items, pre)[..|items| - 1] == PlaceAll(init, pre);
      EntryFilesPlaced(init, pre);
      if items[|items| - 1].FileItem? {
        assert PlacedFiles(Files(init) + [items[|items| - 1].file], pre) ==
          PlacedFiles(Files(init), pre) + [PlacedFile(items[|items| - 1].file, pre)];
      }
    }
  }

  /** Every input file is written once, in sorted order, renamed below the prefix. */
  lemma PlannedFiles(sorted: seq<FileSource>, silent: seq<string>, own: seq<string>)
    ensures EntryFiles(Planned(sorted, silent, own)) == PlacedFiles(sorted, silent + own)
  {
    EntryFilesAppend(OwnPrefixDirectories(silent, own), PlaceAll(Layout(sorted), silent + own));
    EntryFilesOwnPrefix(silent, own);
    EntryFilesPlaced(Layout(sorted), silent + own);
    LayoutFiles(sorted);
  }

  /**
   * Before each file come entries for all of its containing directories
   * below the silent prefix, which is outside the archive's own tree.
   */
  predicate EntriesParentsFirst(entries: seq<ZipEntrySpecification>, depth: nat) {
    forall j, m :: 0 <= j < |entries| && entries[j].File? && depth < m < |AllComponents(entries[j].file.name)| ==>
      Directory(DirName(AllComponents(entries[j].file.name)[..m])) in entries[..j]
  }

  /** No directory entry appears twice. */
  predicate EntriesDirectoriesDistinct(entries: seq<ZipEntrySpecification>) {
    forall i, j :: 0 <= i < j < |entries| && entries[i].Directory? && entries[j].Directory? ==>
      entries[i].directory != entries[j].directory
  }

  /** The entries below the prefixes for an arbitrary item list. */
  function PlannedFrom(items: seq<Item>, silent: seq<string>, own: seq<string>): seq<ZipEntrySpecification> {
    OwnPrefixDirectories(silent, own) + PlaceAll(items, silent + own)
  }

  lemma OwnPrefixIsPrefix(silent: seq<string>, own: seq<string>, k: nat)
    requires k < |own|
    ensures silent + own[..k + 1] == (silent + own)[..|silent| + k + 1]
  {
  }

  /** Entry `|own| + i` of the plan is item `i` placed below the prefix. */
  lemma PlacedAt(items: seq<Item>, silent: seq<string>, own: seq<string>, i: nat)
    requires i < |items|
    ensures PlannedFrom(items, silent, own)[|own| + i] == Placed(items[i], silent + own)
  {
    var D := OwnPrefixDirectories(silent, own);
    var P := PlaceAll(items, silent + own);
    assert |D| == |own|;
    assert (D + P)[|own| + i] == P[i];
  }

  lemma ParentAt(items: seq<Item>, silent: seq<string>, own: seq<string>, j: nat, m: nat)
    requires j < |items| && items[j].FileItem? && Valid(items[j].file.name)
    requires var K := AllComponents(items[j].file.name);
      |silent| < m < |silent| + |own| + |K|
    requires m > |silent| + |own| ==> DirItem(Dirs(items[j].file)[..m - |silent| - |own|]) in items[..j]
    ensures var K := AllComponents(items[j].file.name);
      Directory(DirName((silent + own + K)[..m])) in PlannedFrom(items, silent, own)[..|own| + j]
  {
    var E := PlannedFrom(items, silent, own);
    var C := silent + own;
    var f := items[j].file;
    var K := AllComponents(f.name);
    KeyShape(f);
    if m <= |C| {
      var k := m - |silent| - 1;
      OwnPrefixIsPrefix(silent, own, k);
      assert (C + K)[..m] == C[..m];
      assert E[k] == Directory(DirName(silent + own[..k + 1]));
    } else {
      var m' := m - |C|;
      var i :| 0 <= i < j && items[i] == DirItem(Dirs(f)[..m']);
      assert (C + K)[..m] == C + Dirs(f)[..m'];
      PlacedAt(items, silent, own, i);
    }
  }

  lemma FileComponentsAt(items: seq<Item>, silent: seq<string>, own: seq<string>, j: nat)
    requires j < |items| && items[j].FileItem? && Valid(items[j].file.name) && PrefixParts(silent + own)
    ensures var E := PlannedFrom(items, silent, own);
      E[|own| + j].File? &&
      AllComponents(E[|own| + j].file.name) == silent + own + AllComponents(items[j].file.name)
  {
    var f := items[j].file;
    var K := AllComponents(f.name);
    var C := silent + own;
    ValidComponents(f.name);
    ValidNameShape(f.name);
    PlacedAt(items, silent, own, j);
    assert Placed(items[j], C) == File(FileSource(DirName(C + K), f.source));
    assert AllNoSlash(C) by {
      if C != [] {
        assert Good(C);
      }
    }
    assert AllNoSlash(C + K) by {
      forall k | 0 <= k < |C + K| ensures NoSlash((C + K)[k]) {
        if k < |C| { assert (C + K)[k] == C[k]; } else { assert (C + K)[k] == K[k - |C|]; }
      }
    }
    DirNameComponents(C + K);
  }

  /** A file entry of the plan comes from a file item. */
  lemma FileEntryIndex(items: seq<Item>, silent: seq<string>, own: seq<string>, j: nat)
    requires j < |own| + |items| && PlannedFrom(items, silent, own)[j].File?
    ensures j >= |own| && items[j - |own|].FileItem?
  {
    EntryAt(items, silent, own, j);
  }

  /** Every containing directory of the file item at `i` comes before it. */
  predicate ParentsBefore(items: seq<Item>, i: nat)
    requires i < |items| && items[i].FileItem?
  {
    forall k :: 1 <= k <= |Dirs(items[i].file)| ==> DirItem(Dirs(items[i].file)[..k]) in items[..i]
  }

  /** The containing directories of the file placed at entry `j` from item `i` come before it. */
  lemma PlacedFileParents(items: seq<Item>, silent: seq<string>, own: seq<string>, i: nat, j: nat, m: nat)
    requires i < |items| && j == |own| + i && items[i].FileItem? && Valid(items[i].file.name)
    requires ParentsBefore(items, i) && PrefixParts(silent + own)
    requires var E := PlannedFrom(items, silent, own);
      |silent| < m < |AllComponents(E[j].file.name)|
    ensures var E := PlannedFrom(items, silent, own);
      Directory(DirName(AllComponents(E[j].file.name)[..m])) in E[..j]
  {
    var f := items[i].file;
    FileComponentsAt(items, silent, own, i);
    var C := silent + own;
    if m > |C| {
      KeyShape(f);
      assert DirItem(Dirs(f)[..m - |C|]) in items[..i];
    }
    ParentAt(items, silent, own, i, m);
  }

  /** Item `i` is a file item. */
  predicate FileAt(items: seq<Item>, i: int) {
    0 <= i < |items| && items[i].FileItem?
  }

  /** The file item at `i` has a valid name and its containing directories come before it. */
  predicate FileFacts(items: seq<Item>, i: int)
    requires FileAt(items, i)
  {
    Valid(items[i].file.name) && ParentsBefore(items, i)
  }

  /** What `WellFormedItems` and `ParentsFirst` say about file items, one index at a time. */
  lemma AllFileFacts(items: seq<Item>)
    requires WellFormedItems(items) && ParentsFirst(items)
    ensures forall i :: FileAt(items, i) ==> FileFacts(items, i)
  {
  }

  lemma ParentsFirstPlacedFrom(items: seq<Item>, silent: seq<string>, own: seq<string>)
    requires forall i :: FileAt(items, i) ==> FileFacts(items, i)
    requires PrefixParts(silent + own)
    ensures EntriesParentsFirst(PlannedFrom(items, silent, own), |silent|)
  {
    var E := PlannedFrom(items, silent, own);
    forall j, m | 0 <= j < |E| && E[j].File? && |silent| < m < |AllComponents(E[j].file.name)|
      ensures Directory(DirName(AllComponents(E[j].file.name)[..m])) in E[..j]
    {
      FileEntryIndex(items, silent, own, j);
      assert FileAt(items, j - |own|);
      PlacedFileParents(items, silent, own, j - |own|, j, m);
    }
  }

  lemma ParentsFirstPlaced(items: seq<Item>, silent: seq<string>, own: seq<string>)
    requires WellFormedItems(items) && ParentsFirst(items)
    requires PrefixParts(silent + own)
    ensures EntriesParentsFirst(PlannedFrom(items, silent, own), |silent|)
  {
    AllFileFacts(items);
    ParentsFirstPlacedFrom(items, silent, own);
  }

  /** Every file is preceded by the directories containing it below the silent prefix. */
  lemma PlannedParentsFirst(sorted: seq<FileSource>, silent: seq<string>, own: seq<string>)
    requires AllValid(sorted) && Sorting.SortedBy(sorted, SourceLess)
    requires PrefixParts(silent + own)
    ensures EntriesParentsFirst(Planned(sorted, silent, own), |silent|)
  {
    LayoutWellFormed(sorted);
    LayoutParentsFirst(sorted);
    ParentsFirstPlaced(Layout(sorted), silent, own);
  }

  /** The name of the `k`th planned entry is built from these components. */
  function EntryComponentsAt(items: seq<Item>, silent: seq<string>, own: seq<string>, k: nat): seq<string>
    requires k < |own| + |items|
  {
    if k < |own| then silent + own[..k + 1]
    else if items[k - |own|].DirItem? then silent + own + items[k - |own|].components
    else silent + own + AllComponents(items[k - |own|].file.name)
  }

  lemma EntryAt(items: seq<Item>, silent: seq<string>, own: seq<string>, k: nat)
    requires k < |own| + |items|
    ensures var E := PlannedFrom(items, silent, own);
      (if E[k].File? then E[k].file.name else E[k].directory) == DirName(EntryComponentsAt(items, silent, own, k))
    ensures var E := PlannedFrom(items, silent, own);
      E[k].Directory? <==> k < |own| || items[k - |own|].DirItem?
  {
  }

  lemma DistinctAt(items: seq<Item>, silent: seq<string>, own: seq<string>, i: nat, j: nat)
    requires i < j < |own| + |items| && PrefixParts(silent) && PrefixParts(own)
    requires i >= |own| ==> items[i - |own|].DirItem? && Good(items[i - |own|].components)
    requires j >= |own| ==> items[j - |own|].DirItem? && Good(items[j - |own|].components)
    requires i >= |own| ==> items[i - |own|].components != items[j - |own|].components
    ensures DirName(EntryComponentsAt(items, silent, own, i)) != DirName(EntryComponentsAt(items, silent, own, j))
  {
    var C := silent + own;
    var xi, xj := EntryComponentsAt(items, silent, own, i), EntryComponentsAt(items, silent, own, j);
    if i >= |own| {
      assert xi[|C|..] == items[i - |own|].components && xj[|C|..] == items[j - |own|].components;
    } else if j >= |own| {
      assert |xi| <= |C| < |xj|;
    } else {
      assert |xi| < |xj|;
    }
    assert AllNoSlash(xi) && AllNoSlash(xj);
    DirNameInjective(xi, xj);
  }

  lemma DistinctPlaced(items: seq<Item>, silent: seq<string>, own: seq<string>)
    requires WellFormedItems(items) && DirsDistinct(items)
    requires PrefixParts(silent) && PrefixParts(own)
    ensures EntriesDirectoriesDistinct(PlannedFrom(items, silent, own))
  {
    var E := PlannedFrom(items, silent, own);
    forall i, j | 0 <= i < j < |E| && E[i].Directory? && E[j].Directory?
      ensures E[i].directory != E[j].directory
    {
      EntryAt(items, silent, own, i);
      EntryAt(items, silent, own, j);
      DistinctAt(items, silent, own, i, j);
    }
  }

  /** No directory is planned twice. */
  lemma PlannedDirectoriesDistinct(sorted: seq<FileSource>, silent: seq<string>, own: seq<string>)
    requires AllValid(sorted) && Sorting.SortedBy(sorted, SourceLess)
    requires PrefixParts(silent) && PrefixParts(own)
    ensures EntriesDirectoriesDistinct(Planned(sorted, silent, own))
  {
    LayoutWellFormed(sorted);
    LayoutDirsDistinct(sorted);
    DistinctPlaced(Layout(sorted), silent, own);
  }

  /** The components of an item are good: a directory's list, or a file's name. */
  predicate ItemGood(it: Item) {
    if it.DirItem? then Good(it.components) else Good(AllComponents(it.file.name))
  }

  lemma ValidAt(items: seq<Item>, silent: seq<string>, own: seq<string>, k: nat)
    requires k < |own| + |items| && (k >= |own| ==> ItemGood(items[k - |own|]))
    requires PrefixParts(silent + own) && silent + own != ["."]
    ensures Valid(DirName(EntryComponentsAt(items, silent, own, k)))
  {
    var C := silent + own;
    var x := EntryComponentsAt(items, silent, own, k);
    if k < |own| {
      GoodPrefix(C, |silent| + k + 1);
      OwnPrefixIsPrefix(silent, own, k);
    } else {
      var it := items[k - |own|];
      var c := if it.DirItem? then it.components else AllComponents(it.file.name);
      assert Good(c) && x == C + c;
    }
    DirNameValid(x);
  }

  lemma ValidPlaced(items: seq<Item>, silent: seq<string>, own: seq<string>)
    requires WellFormedItems(items)
    requires PrefixParts(silent + own) && silent + own != ["."]
    ensures var E := PlannedFrom(items, silent, own);
      forall k :: 0 <= k < |E| ==> Valid(if E[k].File? then E[k].file.name else E[k].directory)
  {
    var E := PlannedFrom(items, silent, own);
    forall k | 0 <= k < |E| ensures Valid(if E[k].File? then E[k].file.name else E[k].directory) {
      EntryAt(items, silent, own, k);
      if k >= |own| {
        var it := items[k - |own|];
        if it.FileItem? { ValidComponents(it.file.name); }
      }
      ValidAt(items, silent, own, k);
    }
  }

  /** With a prefix other than the single component ".", every planned name is one `validate` accepts. */
  lemma PlannedNamesValid(sorted: seq<FileSource>, silent: seq<string>, own: seq<string>)
    requires AllValid(sorted) && Sorting.SortedBy(sorted, SourceLess)
    requires PrefixParts(silent) && PrefixParts(own) && PrefixParts(silent + own) && silent + own != ["."]
    ensures var E := Planned(sorted, silent, own);
      forall k :: 0 <= k < |E| ==> Valid(if E[k].File? then E[k].file.name else E[k].directory)
  {
    LayoutWellFormed(sorted);
    ValidPlaced(Layout(sorted), silent, own);
  }

  /** What every successful plan promises about the entries it lists. */
  lemma PlanProperties(sorted: seq<FileSource>, mods: EntryModifications)
    requires AllValid(sorted) && Sorting.SortedBy(sorted, SourceLess)
    ensures var silent, own := PrefixComponents(mods.silentExternalPrefix), PrefixComponents(mods.ownPrefix);
      Plan(sorted, mods).Ok? <==> silent.Ok? && own.Ok? && !(silent.value == ["."] && |own.value| >= 1)
    ensures var silent, own := PrefixComponents(mods.silentExternalPrefix), PrefixComponents(mods.ownPrefix);
      Plan(sorted, mods).Ok? ==>
        var E := Plan(sorted, mods).value;
        EntryFiles(E) == PlacedFiles(sorted, silent.value + own.value)
        && EntriesParentsFirst(E, |silent.value|)
        && EntriesDirectoriesDistinct(E)
        && (silent.value + own.value != ["."] ==>
              forall k :: 0 <= k < |E| ==> Valid(if E[k].File? then E[k].file.name else E[k].directory))
  {
    PlanShape(sorted, mods);
    var silent, own := PrefixComponents(mods.silentExternalPrefix), PrefixComponents(mods.ownPrefix);
    if Plan(sorted, mods).Ok? {
      CombinedPrefix(silent.value, own.value);
      PlannedFiles(sorted, silent.value, own.value);
      PlannedParentsFirst(sorted, silent.value, own.value);
      PlannedDirectoriesDistinct(sorted, silent.value, own.value);
      if silent.value + own.value != ["."] {
        PlannedNamesValid(sorted, silent.value, own.value);
      }
    }
  }

  /** A prefix "." alone is accepted, yet names below it start with "./", which `validate` rejects. */
  lemma DotPrefixNames()
    ensures var e := DirName(["a"]);
      Valid(e) && Valid(DirName(["."])) && !Valid(AddPrefix(e, DirName(["."])))
  {
    assert Good(["a"]) && Good(["."]);
    DirNameValid(["a"]);
    DirNameValid(["."]);
    AddPrefixValid(DirName(["a"]), DirName(["."]));
  }

  lemma RenderAppend(a: seq<Item>, b: seq<Item>, cached: EntryName)
    ensures Render(a + b, cached) == Render(a, cached) + Render(b, cached)
  {
  }

  lemma LayoutStepRender(sorted: seq<FileSource>, i: nat, cached: EntryName)
    requires i < |sorted|
    ensures Render(Layout(sorted[..i + 1]), cached) ==
      Render(Layout(sorted[..i]), cached)
      + Render(DirItems(NewRightmost(LastDirs(sorted[..i]), Dirs(sorted[i]))), cached)
      + [RenderItem(FileItem(sorted[i]), cached)]
  {
    var s := sorted[..i + 1];
    assert s[..|s| - 1] == sorted[..i] && s[|s| - 1] == sorted[i];
    var ds := DirItems(NewRightmost(LastDirs(sorted[..i]), Dirs(sorted[i])));
    assert Layout(s) == Layout(sorted[..i]) + (ds + [FileItem(sorted[i])]);
    RenderAppend(Layout(sorted[..i]), ds + [FileItem(sorted[i])], cached);
    RenderAppend(ds, [FileItem(sorted[i])], cached);
  }

  lemma DirItemsSnoc(ds: seq<seq<string>>, j: nat, cached: EntryName)
    requires j < |ds|
    ensures Render(DirItems(ds[..j + 1]), cached) == Render(DirItems(ds[..j]), cached) + [RenderItem(DirItem(ds[j]), cached)]
  {
    assert DirItems(ds[..j + 1]) == DirItems(ds[..j]) + [DirItem(ds[j])];
    RenderAppend(DirItems(ds[..j]), [DirItem(ds[j])], cached);
  }

  /**
   * `from_file_specs`: sorts and checks the files, then emits the prefix
   * directories and, file by file, the directories it newly needs and the
   * file itself, all below the combined prefix.
   */
  method FromFileSpecs(specs: seq<FileSource>, mods: EntryModifications)
    returns (r: Result<seq<ZipEntrySpecification>, InputConsistencyError>, ghost sorted: seq<FileSource>)
    requires AllValid(specs)
    ensures multiset(sorted) == multiset(specs) && Sorting.SortedBy(sorted, SourceLess) && AllValid(sorted)
    ensures (r.Err? && r.error.DuplicateName?) <==> HasDuplicateNames(specs)
    ensures r.Err? && r.error.DuplicateName? ==> DuplicateReported(specs, r.error)
    ensures !HasDuplicateNames(specs) ==> r == Plan(sorted, mods)
  {
    var arr, dedup := SortedCopy(specs);
    sorted := arr[..];
    if dedup.Err? {
      r := Err(dedup.error);
      return;
    }
    var silent := PrefixComponents(mods.silentExternalPrefix);
    if silent.Err? {
      r := Err(NameFormat(silent.error));
      return;
    }
    var own := PrefixComponents(mods.ownPrefix);
    if own.Err? {
      r := Err(NameFormat(own.error));
      return;
    }
    var cachedPrefix := CachedPrefix(silent.value + own.value);
    if cachedPrefix.Err? {
      r := Err(NameFormat(cachedPrefix.error));
      return;
    }
    CombinedPrefix(silent.value, own.value);
    var cached := cachedPrefix.value;

    var prefixDirs := EmitPrefixDirectories(silent.value, own.value);
    var fileEntries := EmitFileEntries(arr, cached);
    r := Ok(prefixDirs + fileEntries);
  }

  /** A reported pair of equal neighbours in the sorted copy names two different input positions. */
  predicate DuplicateReported(specs: seq<FileSource>, e: InputConsistencyError) {
    e.DuplicateName? &&
    exists i, j :: (0 <= i < |specs| && 0 <= j < |specs| && i != j
                    && specs[i].name == e.name && specs[j].name == e.name
                    && specs[i].source == e.first && specs[j].source == e.second)
  }

  lemma SortedFacts(specs: seq<FileSource>, sorted: seq<FileSource>)
    requires AllValid(specs) && multiset(sorted) == multiset(specs) && Sorting.SortedBy(sorted, SourceLess)
    ensures AllValid(sorted)
    ensures StrictlySorted(sorted) <==> !HasDuplicateNames(specs)
  {
    ValidSurvivesPermutation(specs, sorted);
    StrictlySortedMeansDistinct(sorted);
    DuplicatesSurvivePermutation(specs, sorted);
    DuplicatesSurvivePermutation(sorted, specs);
  }

  lemma DuplicateWitness(specs: seq<FileSource>, arr: array<FileSource>, e: InputConsistencyError)
    requires multiset(arr[..]) == multiset(specs)
    requires exists i :: (0 < i < arr.Length && arr[i - 1].name == arr[i].name
                          && e == DuplicateName(arr[i].name, arr[i - 1].source, arr[i].source))
    ensures DuplicateReported(specs, e)
  {
    var i :| 0 < i < arr.Length && arr[i - 1].name == arr[i].name
      && e == DuplicateName(arr[i].name, arr[i - 1].source, arr[i].source);
    TwoElements(specs, arr[..], i - 1, i);
  }

  /** The input sorted into a fresh array, and the outcome of the duplicate check on it. */
  method SortedCopy(specs: seq<FileSource>) returns (arr: array<FileSource>, dedup: Result<(), InputConsistencyError>)
    requires AllValid(specs)
    ensures fresh(arr)
    ensures multiset(arr[..]) == multiset(specs) && Sorting.SortedBy(arr[..], SourceLess) && AllValid(arr[..])
    ensures dedup.Err? <==> HasDuplicateNames(specs)
    ensures dedup.Err? ==> DuplicateReported(specs, dedup.error)
  {
    arr := new FileSource[|specs|](k requires 0 <= k < |specs| => specs[k]);
    assert arr[..] == specs;
    dedup := SortAndDeduplicate(arr);
    SortedFacts(specs, arr[..]);
    if dedup.Err? {
      DuplicateWitness(specs, arr, dedup.error);
    }
  }

  /** One more component of the own prefix still joins to a name that validates. */
  lemma PrefixDirectoryValid(silent: seq<string>, own: seq<string>, k: nat)
    requires PrefixParts(silent + own) && k < |own|
    ensures Validate(Join(silent + own[..k + 1])) == Ok(DirName(silent + own[..k + 1]))
  {
    OwnPrefixIsPrefix(silent, own, k);
    GoodPrefix(silent + own, |silent| + k + 1);
    DirNameValid(silent + own[..k + 1]);
  }

  /** One more component of the own prefix adds its directory to the prefix directories. */
  lemma PrefixDirectoryStep(silent: seq<string>, own: seq<string>, k: nat)
    requires k < |own|
    ensures OwnPrefixDirectories(silent, own[..k + 1]) ==
      OwnPrefixDirectories(silent, own[..k]) + [Directory(DirName(silent + own[..k + 1]))]
  {
    assert own[..k + 1][..k] == own[..k];
    OwnPrefixSnoc(silent, own[..k + 1]);
  }

  /** The own-prefix loop of `from_file_specs`, on a prefix already known to be accepted. */
  method EmitPrefixDirectories(silent: seq<string>, own: seq<string>) returns (ret: seq<ZipEntrySpecification>)
    requires PrefixParts(silent) && PrefixParts(own) && PrefixParts(silent + own)
    ensures ret == OwnPrefixDirectories(silent, own)
  {
    ret := [];
    var curPrefix := silent;
    var k := 0;
    while k < |own|
      invariant 0 <= k <= |own|
      invariant curPrefix == silent + own[..k]
      invariant ret == OwnPrefixDirectories(silent, own[..k])
    {
      curPrefix := curPrefix + [own[k]];
      assert curPrefix == silent + own[..k + 1];
      PrefixDirectoryValid(silent, own, k);
      PrefixDirectoryStep(silent, own, k);
      var dir := Validate(Join(curPrefix));
      ret := ret + [Directory(dir.value)];
      k := k + 1;
    }
    assert own[..k] == own;
  }

  /** The directories one file newly needs, each validated and prefixed. */
  method EmitNewDirectories(prevDirs: seq<string>, f: FileSource, cached: EntryName) returns (ret: seq<ZipEntrySpecification>)
    requires Valid(f.name)
    ensures ret == Render(DirItems(NewRightmost(prevDirs, Dirs(f))), cached)
  {
    ValidNameShape(f.name);
    var curDirs := ParentComponents(f.name);
    var newDirs := CalculateNewRightmostComponents(prevDirs, curDirs);
    ret := [];
    var j := 0;
    while j < |newDirs|
      invariant 0 <= j <= |newDirs|
      invariant ret == Render(DirItems(newDirs[..j]), cached)
    {
      NewRightmostAreNewPrefixes(prevDirs, curDirs, newDirs[j]);
      DirPrefixGood(newDirs[j], f);
      DirNameValid(newDirs[j]);
      var dir := Validate(Join(newDirs[j]));
      ret := ret + [Directory(AddPrefix(dir.value, cached))];
      DirItemsSnoc(newDirs, j, cached);
      j := j + 1;
    }
    assert newDirs[..j] == newDirs;
  }

  /** The loop over the sorted files of `from_file_specs`. */
  method EmitFileEntries(files: array<FileSource>, cached: EntryName) returns (ret: seq<ZipEntrySpecification>)
    requires AllValid(files[..])
    ensures ret == Render(Layout(files[..]), cached)
  {
    var sorted := files[..];
    ret := [];
    var prevDirs: seq<string> := [];
    var i := 0;
    while i < files.Length
      invariant 0 <= i <= files.Length
      invariant prevDirs == LastDirs(sorted[..i])
      invariant ret == Render(Layout(sorted[..i]), cached)
    {
      ret, prevDirs := EmitFileEntry(sorted, i, prevDirs, ret, cached);
      i := i + 1;
    }
    assert sorted[..i] == sorted;
  }

  /** One turn of the loop in `EmitFileEntries`: the new directories, then the file itself. */
  method EmitFileEntry(sorted: seq<FileSource>, i: nat, prevDirs: seq<string>, acc: seq<ZipEntrySpecification>, cached: EntryName)
    returns (ret: seq<ZipEntrySpecification>, dirs: seq<string>)
    requires AllValid(sorted) && i < |sorted|
    requires prevDirs == LastDirs(sorted[..i])
    requires acc == Render(Layout(sorted[..i]), cached)
    ensures dirs == LastDirs(sorted[..i + 1])
    ensures ret == Render(Layout(sorted[..i + 1]), cached)
  {
    var f := sorted[i];
    assert Valid(f.name);
    var newDirs := EmitNewDirectories(prevDirs, f, cached);
    ret := acc + newDirs + [File(FileSource(AddPrefix(f.name, cached), f.source))];
    LayoutStepRender(sorted, i, cached);
    assert sorted[..i + 1][..i] == sorted[..i];
    ValidNameShape(f.name);
    dirs := ParentComponents(f.name);
  }
}
