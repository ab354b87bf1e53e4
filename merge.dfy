/**
 * Merging existing zip archives into one output (lib/src/merge.rs,
 * `MedusaMerge::merge`).
 *
 * A merge is a list of groups, each an optional prefix and a list of source
 * archives. The producer turns the groups into a stream of items, adding
 * the directories of each group's prefix that the previous group's prefix
 * did not already have, then one merge item per source; the consumer
 * applies the items to the output in the order received. The channel
 * between them is abstracted away: the model is the stream itself and the
 * records the consumer writes.
 */
module Merging {
  import opened Wrappers
  import opened Text
  import opened Paths
  import opened EntryNames
  import opened ZipOptions
  import opened ZipPlan
  import opened ZipWriting

  datatype MergeGroup = MergeGroup(prefix: Option<EntryName>, sources: seq<Path>)

  /** An item of the stream; a merge item names the archive it stands for. */
  datatype MergeItem = AddDirectory(name: EntryName) | MergeZip(source: Path)

  /**
   * Opening a source (`MedusaMergeError::Io`) or reading it as a zip archive
   * (`MedusaMergeError::Zip`) failed; both are this one value. Failures of
   * the output writer's own calls are not represented.
   */
  datatype MergeError = SourceUnreadable(source: Path)

  /** Prefixes are entry names, so they have passed `validate`. */
  predicate ValidGroups(groups: seq<MergeGroup>) {
    forall k :: 0 <= k < |groups| ==> (groups[k].prefix.Some? ==> Valid(groups[k].prefix.value))
  }

  /** A group's prefix as components; no prefix has none. */
  function GroupComponents(g: MergeGroup): seq<string> {
    if g.prefix.Some? then AllComponents(g.prefix.value) else []
  }

  /** The components the producer remembers after the groups: only the last group's. */
  function LastPrefix(groups: seq<MergeGroup>): seq<string> {
    if |groups| == 0 then [] else GroupComponents(groups[|groups| - 1])
  }

  function DirectoryItems(ds: seq<seq<string>>): seq<MergeItem> {
    seq(|ds|, k requires 0 <= k < |ds| => AddDirectory(DirName(ds[k])))
  }

  function SourceItems(sources: seq<Path>): seq<MergeItem> {
    seq(|sources|, k requires 0 <= k < |sources| => MergeZip(sources[k]))
  }

  /** One group after a group with prefix components `prev`. */
  function GroupItems(prev: seq<string>, g: MergeGroup): seq<MergeItem> {
    DirectoryItems(NewRightmost(prev, GroupComponents(g))) + SourceItems(g.sources)
  }

  /** The producer loop: every group in order, each against the one before it. */
  function MergeItems(groups: seq<MergeGroup>): seq<MergeItem> {
    if |groups| == 0 then []
    else
      var init := groups[..|groups| - 1];
      MergeItems(init) + GroupItems(LastPrefix(init), groups[|groups| - 1])
  }

  // ----- sources -----

  function Sources(items: seq<MergeItem>): seq<Path> {
    if |items| == 0 then []
    else Sources(items[..|items| - 1]) + (if items[|items| - 1].MergeZip? then [items[|items| - 1].source] else [])
  }

  function AllSources(groups: seq<MergeGroup>): seq<Path> {
    if |groups| == 0 then [] else AllSources(groups[..|groups| - 1]) + groups[|groups| - 1].sources
  }

  lemma {:induction false} SourcesAppend(a: seq<MergeItem>, b: seq<MergeItem>)
    ensures Sources(a + b) == Sources(a) + Sources(b)
    decreases |b|
  {
    if |b| == 0 {
      assert a + b == a;
    } else {
      var b' := b[..|b| - 1];
      assert (a + b)[..|a + b| - 1] == a + b';
      SourcesAppend(a, b');
    }
  }

  lemma {:induction false} SourcesOfDirectories(ds: seq<seq<string>>)
    ensures Sources(DirectoryItems(ds)) == []
  {
    if |ds| > 0 {
      assert DirectoryItems(ds)[..|ds| - 1] == DirectoryItems(ds[..|ds| - 1]);
      SourcesOfDirectories(ds[..|ds| - 1]);
    }
  }

  lemma {:induction false} SourcesOfSources(sources: seq<Path>)
    ensures Sources(SourceItems(sources)) == sources
  {
    if |sources| > 0 {
      var init := sources[..|sources| - 1];
      assert SourceItems(sources)[..|sources| - 1] == SourceItems(init);
      SourcesOfSources(init);
    }
  }

  /** Each source becomes exactly one merge item, in group order and then source order. */
  lemma {:induction false} MergeSourcesInOrder(groups: seq<MergeGroup>)
    ensures Sources(MergeItems(groups)) == AllSources(groups)
  {
    if |groups| > 0 {
      var init, g := groups[..|groups| - 1], groups[|groups| - 1];
      MergeSourcesInOrder(init);
      var ds := NewRightmost(LastPrefix(init), GroupComponents(g));
      SourcesAppend(MergeItems(init), GroupItems(LastPrefix(init), g));
      SourcesAppend(DirectoryItems(ds), SourceItems(g.sources));
      SourcesOfDirectories(ds);
      SourcesOfSources(g.sources);
    }
  }

  // ----- directories -----

  /** A group without a prefix adds no directory. */
  lemma NoPrefixNoDirectories(prev: seq<string>, g: MergeGroup)
    requires g.prefix.None?
    ensures GroupItems(prev, g) == SourceItems(g.sources)
  {
    assert NewRightmost(prev, GroupComponents(g)) == [];
  }

  /**
   * After a group without a prefix, the next group adds every directory of
   * its prefix again, outermost first.
   */
  lemma AfterNoPrefixAllDirectories(groups: seq<MergeGroup>, g: MergeGroup)
    requires |groups| >= 1 && groups[|groups| - 1].prefix.None?
    ensures var c := GroupComponents(g);
      MergeItems(groups + [g]) ==
        MergeItems(groups) + DirectoryItems(AllPrefixes(c)) + SourceItems(g.sources)
  {
    assert (groups + [g])[..|groups|] == groups;
    var c := GroupComponents(g);
    assert SharedPrefixLength([], c) == 0;
  }

  /** Every non-empty prefix of `p` has had its directory added among `items`. */
  predicate HasDirectories(items: seq<MergeItem>, p: seq<string>) {
    forall m :: 1 <= m <= |p| ==> AddDirectory(DirName(p[..m])) in items
  }

  lemma DirectoriesStep(items: seq<MergeItem>, prev: seq<string>, cur: seq<string>)
    requires HasDirectories(items, prev)
    ensures HasDirectories(items + DirectoryItems(NewRightmost(prev, cur)), cur)
  {
    var ds := NewRightmost(prev, cur);
    forall m | 1 <= m <= |cur| ensures AddDirectory(DirName(cur[..m])) in items + DirectoryItems(ds) {
      var d := cur[..m];
      NewRightmostAreNewPrefixes(prev, cur, d);
      if d in ds {
        var k :| 0 <= k < |ds| && ds[k] == d;
        assert DirectoryItems(ds)[k] == AddDirectory(DirName(d));
      } else {
        assert AddDirectory(DirName(prev[..m])) in items;
      }
    }
  }

  lemma HasDirectoriesExtend(items: seq<MergeItem>, more: seq<MergeItem>, p: seq<string>)
    requires HasDirectories(items, p)
    ensures HasDirectories(items + more, p)
  {
    forall m | 1 <= m <= |p| ensures AddDirectory(DirName(p[..m])) in items + more {
      assert AddDirectory(DirName(p[..m])) in items;
    }
  }

  /** After one more group the items hold every directory of that group's prefix. */
  lemma GroupItemsDirectories(items: seq<MergeItem>, prev: seq<string>, g: MergeGroup)
    requires HasDirectories(items, prev)
    ensures HasDirectories(items + GroupItems(prev, g), GroupComponents(g))
  {
    var ds := NewRightmost(prev, GroupComponents(g));
    DirectoriesStep(items, prev, GroupComponents(g));
    HasDirectoriesExtend(items + DirectoryItems(ds), SourceItems(g.sources), GroupComponents(g));
    assert items + GroupItems(prev, g) == items + DirectoryItems(ds) + SourceItems(g.sources);
  }

  lemma {:induction false} MergeHasLastDirectories(groups: seq<MergeGroup>)
    ensures HasDirectories(MergeItems(groups), LastPrefix(groups))
  {
    if |groups| > 0 {
      var init, g := groups[..|groups| - 1], groups[|groups| - 1];
      MergeHasLastDirectories(init);
      GroupItemsDirectories(MergeItems(init), LastPrefix(init), g);
      assert MergeItems(groups) == MergeItems(init) + GroupItems(LastPrefix(init), g);
    }
  }

  lemma {:induction false} MergeItemsPrefix(groups: seq<MergeGroup>, j: nat)
    requires j <= |groups|
    ensures MergeItems(groups[..j]) <= MergeItems(groups)
    decreases |groups| - j
  {
    if j < |groups| {
      var init := groups[..|groups| - 1];
      assert init[..j] == groups[..j];
      MergeItemsPrefix(init, j);
    } else {
      assert groups[..j] == groups;
    }
  }

  /**
   * The items of group `i` are the directories of its prefix that are new
   * against the previous group, then its sources; when its first source is
   * merged, every directory of its prefix has already been added, so each
   * source lands under an existing directory.
   */
  lemma DirectoriesBeforeSources(groups: seq<MergeGroup>, i: nat)
    requires i < |groups|
    ensures var before := MergeItems(groups[..i]) + DirectoryItems(NewRightmost(LastPrefix(groups[..i]), GroupComponents(groups[i])));
      && HasDirectories(before, GroupComponents(groups[i]))
      && before + SourceItems(groups[i].sources) <= MergeItems(groups)
  {
    var g := groups[i];
    MergeStep(groups, i);
    MergeHasLastDirectories(groups[..i]);
    DirectoriesStep(MergeItems(groups[..i]), LastPrefix(groups[..i]), GroupComponents(g));
    MergeItemsPrefix(groups, i + 1);
  }

  lemma MergeStep(groups: seq<MergeGroup>, i: nat)
    requires i < |groups|
    ensures MergeItems(groups[..i + 1]) == MergeItems(groups[..i]) + GroupItems(LastPrefix(groups[..i]), groups[i])
    ensures LastPrefix(groups[..i + 1]) == GroupComponents(groups[i])
  {
    var upto := groups[..i + 1];
    assert upto[..|upto| - 1] == groups[..i] && upto[|upto| - 1] == groups[i];
  }

  /** Every non-empty prefix of `c`, shortest first. */
  function AllPrefixes(c: seq<string>): seq<seq<string>> {
    seq(|c|, k requires 0 <= k < |c| => c[..k + 1])
  }

  lemma SharedPrefixWithSelf(c: seq<string>)
    ensures SharedPrefixLength(c, c) == |c|
  {
    if |c| > 0 {
      SharedPrefixWithSelf(c[1..]);
    }
  }

  /** A group after a group with the same prefix adds no directory. */
  lemma SamePrefixAddsNothing(prev: seq<string>, g: MergeGroup)
    requires GroupComponents(g) == prev
    ensures GroupItems(prev, g) == SourceItems(g.sources)
  {
    SharedPrefixWithSelf(prev);
  }

  /** A group whose prefix shares no component with the one before adds every directory of its prefix. */
  lemma UnrelatedGroupItems(prev: seq<string>, e: EntryName)
    requires SharedPrefixLength(prev, AllComponents(e)) == 0
    ensures GroupItems(prev, MergeGroup(Some(e), [])) == DirectoryItems(AllPrefixes(AllComponents(e)))
  {
    assert NewRightmost(prev, AllComponents(e)) == AllPrefixes(AllComponents(e));
    assert SourceItems([]) == [];
  }

  lemma MergeItemsSnoc(groups: seq<MergeGroup>, g: MergeGroup)
    ensures MergeItems(groups + [g]) == MergeItems(groups) + GroupItems(LastPrefix(groups), g)
  {
    assert (groups + [g])[..|groups|] == groups;
  }

  /**
   * Only the previous group is remembered: with prefixes `a`, `b`, `a`
   * whose first components differ, every directory of `a` is added twice.
   */
  lemma {:induction false} RecurringPrefixAddedAgain(a: EntryName, b: EntryName)
    requires Valid(a) && Valid(b) && AllComponents(a)[0] != AllComponents(b)[0]
    ensures var ga, gb := MergeGroup(Some(a), []), MergeGroup(Some(b), []);
      MergeItems([ga, gb, ga]) ==
        DirectoryItems(AllPrefixes(AllComponents(a))) + DirectoryItems(AllPrefixes(AllComponents(b)))
          + DirectoryItems(AllPrefixes(AllComponents(a)))
  {
    var ca, cb := AllComponents(a), AllComponents(b);
    var ga, gb := MergeGroup(Some(a), []), MergeGroup(Some(b), []);
    ValidIsDirName(a);
    ValidIsDirName(b);
    assert SharedPrefixLength([], ca) == 0;
    assert SharedPrefixLength(ca, cb) == 0;
    assert SharedPrefixLength(cb, ca) == 0;
    UnrelatedGroupItems([], a);
    UnrelatedGroupItems(ca, b);
    UnrelatedGroupItems(cb, a);
    var da, db := DirectoryItems(AllPrefixes(ca)), DirectoryItems(AllPrefixes(cb));
    MergeItemsSnoc([], ga);
    assert [] + [ga] == [ga];
    assert MergeItems([ga]) == da;
    MergeItemsSnoc([ga], gb);
    assert [ga] + [gb] == [ga, gb] && LastPrefix([ga]) == ca;
    assert MergeItems([ga, gb]) == da + db;
    MergeItemsSnoc([ga, gb], ga);
    assert [ga, gb] + [ga] == [ga, gb, ga] && LastPrefix([ga, gb]) == cb;
  }

  /** Every directory item is a valid entry name, so the `expect` after `validate` never fails. */
  lemma MergeDirectoriesValid(groups: seq<MergeGroup>)
    requires ValidGroups(groups)
    ensures DirectoriesValid(MergeItems(groups))
  {
    PrefixDirectoriesValid(groups, |groups|);
    assert groups[..|groups|] == groups;
  }

  /** Every directory item names a directory `validate` accepts. */
  predicate DirectoriesValid(items: seq<MergeItem>) {
    forall k :: 0 <= k < |items| && items[k].AddDirectory? ==> Valid(items[k].name)
  }

  lemma DirectoriesValidAppend(a: seq<MergeItem>, b: seq<MergeItem>)
    requires DirectoriesValid(a) && DirectoriesValid(b)
    ensures DirectoriesValid(a + b)
  {
    forall k | 0 <= k < |a + b| && (a + b)[k].AddDirectory?
      ensures Valid((a + b)[k].name)
    {
      if k < |a| {
        assert (a + b)[k] == a[k];
      } else {
        assert (a + b)[k] == b[k - |a|];
      }
    }
  }

  lemma GroupDirectoriesValid(prev: seq<string>, g: MergeGroup)
    requires g.prefix.Some? ==> Valid(g.prefix.value)
    ensures DirectoriesValid(GroupItems(prev, g))
  {
    forall j | 0 <= j < |GroupItems(prev, g)| && GroupItems(prev, g)[j].AddDirectory?
      ensures Valid(GroupItems(prev, g)[j].name)
    {
      NewDirectoryValid(prev, g, j);
    }
  }

  /** The directories of the first `n` groups are all valid, by induction on `n`. */
  lemma {:induction false} PrefixDirectoriesValid(groups: seq<MergeGroup>, n: nat)
    requires ValidGroups(groups) && n <= |groups|
    ensures DirectoriesValid(MergeItems(groups[..n]))
  {
    if n > 0 {
      PrefixDirectoriesValid(groups, n - 1);
      ValidGroupAt(groups, n - 1);
      GroupDirectoriesValid(LastPrefix(groups[..n - 1]), groups[n - 1]);
      MergeStep(groups, n - 1);
      DirectoriesValidAppend(MergeItems(groups[..n - 1]), GroupItems(LastPrefix(groups[..n - 1]), groups[n - 1]));
    }
  }

  /** Every directory a group adds has a name `validate` accepts. */
  lemma NewDirectoryValid(prev: seq<string>, g: MergeGroup, j: nat)
    requires g.prefix.Some? ==> Valid(g.prefix.value)
    requires j < |GroupItems(prev, g)| && GroupItems(prev, g)[j].AddDirectory?
    ensures Valid(GroupItems(prev, g)[j].name)
  {
    var ds := NewRightmost(prev, GroupComponents(g));
    assert j < |ds| && GroupItems(prev, g)[j] == AddDirectory(DirName(ds[j]));
    NewDirectoryValidates(prev, g, ds[j]);
  }

  // ----- the consumer -----

  /**
   * The consumer: a directory item adds a directory record, a merge item
   * appends the records of its archive; a source that cannot be read
   * stops the producer, after the items it already sent.
   */
  function Apply(items: seq<MergeItem>, archives: map<Path, seq<LogEntry>>, options: FileOptions): Outcome<MergeError> {
    if |items| == 0 then Outcome([], None)
    else
      match items[0]
      case AddDirectory(d) =>
        var rest := Apply(items[1..], archives, options);
        Outcome([DirectoryRecord(d.name, options)] + rest.log, rest.failure)
      case MergeZip(src) =>
        if src !in archives then Outcome([], Some(SourceUnreadable(src)))
        else
          var rest := Apply(items[1..], archives, options);
          Outcome(archives[src] + rest.log, rest.failure)
  }

  /** The merge fails exactly when one of its sources cannot be read, and then names the first such source. */
  lemma {:induction false} ApplyFailsOnUnreadable(items: seq<MergeItem>, archives: map<Path, seq<LogEntry>>, options: FileOptions)
    ensures Apply(items, archives, options).failure.None? <==>
      forall k :: 0 <= k < |items| && items[k].MergeZip? ==> items[k].source in archives
    ensures Apply(items, archives, options).failure.Some? ==>
      exists k :: 0 <= k < |items| && items[k] == MergeZip(Apply(items, archives, options).failure.value.source)
        && items[k].source !in archives
        && forall j :: 0 <= j < k && items[j].MergeZip? ==> items[j].source in archives
  {
    if |items| > 0 {
      ApplyFailsOnUnreadable(items[1..], archives, options);
      var r := Apply(items, archives, options);
      if !(items[0].MergeZip? && items[0].source !in archives) {
        if r.failure.None? {
          forall k | 0 <= k < |items| && items[k].MergeZip? ensures items[k].source in archives {
            if k > 0 { assert items[k] == items[1..][k - 1]; }
          }
        } else {
          var k :| 0 <= k < |items[1..]| && items[1..][k] == MergeZip(r.failure.value.source)
            && items[1..][k].source !in archives
            && forall j :: 0 <= j < k && items[1..][j].MergeZip? ==> items[1..][j].source in archives;
          assert items[k + 1] == items[1..][k];
          forall j | 0 <= j < k + 1 && items[j].MergeZip? ensures items[j].source in archives {
            if j > 0 { assert items[j] == items[1..][j - 1]; }
          }
        }
        if r.failure.Some? {
          var k :| 0 <= k < |items| && items[k].MergeZip? && items[k].source !in archives;
          if k > 0 { assert items[k] == items[1..][k - 1]; }
        }
      }
    }
  }

  /** A step of the consumer against a suffix of the items. */
  lemma ApplyStep(items: seq<MergeItem>, i: nat, archives: map<Path, seq<LogEntry>>, options: FileOptions)
    requires i < |items|
    ensures var a, b := Apply(items[i..], archives, options), Apply(items[i + 1..], archives, options);
      && (items[i].AddDirectory? ==> a == Outcome([DirectoryRecord(items[i].name.name, options)] + b.log, b.failure))
      && (items[i].MergeZip? && items[i].source !in archives ==> a == Outcome([], Some(SourceUnreadable(items[i].source))))
      && (items[i].MergeZip? && items[i].source in archives ==> a == Outcome(archives[items[i].source] + b.log, b.failure))
  {
    assert items[i..][0] == items[i] && items[i..][1..] == items[i + 1..];
  }

  /** The options of every directory record: the static mtime rule over the library defaults. */
  function MergeOptions(mtime: ModifiedTimeBehavior, now: ZipDateTime): FileOptions {
    SetStaticMtime(mtime, DefaultOptions, now)
  }

  /** The records of directory items: one directory record per joined prefix. */
  function DirectoryRecords(ds: seq<seq<string>>, options: FileOptions): seq<LogEntry> {
    seq(|ds|, k requires 0 <= k < |ds| => DirectoryRecord(Join(ds[k]), options))
  }

  lemma {:induction false} ApplyDirectories(ds: seq<seq<string>>, archives: map<Path, seq<LogEntry>>, options: FileOptions)
    ensures Apply(DirectoryItems(ds), archives, options) == Outcome(DirectoryRecords(ds, options), None)
  {
    if |ds| > 0 {
      assert DirectoryItems(ds)[1..] == DirectoryItems(ds[1..]);
      ApplyDirectories(ds[1..], archives, options);
      assert DirectoryRecords(ds, options) == [DirectoryRecord(Join(ds[0]), options)] + DirectoryRecords(ds[1..], options);
    }
  }

  lemma DirectoryRecordsSnoc(ds: seq<seq<string>>, j: nat, options: FileOptions)
    requires j < |ds|
    ensures DirectoryRecords(ds[..j + 1], options) == DirectoryRecords(ds[..j], options) + [DirectoryRecord(Join(ds[j]), options)]
  {
    var a, b := DirectoryRecords(ds[..j + 1], options), DirectoryRecords(ds[..j], options) + [DirectoryRecord(Join(ds[j]), options)];
    assert |a| == |b|;
    forall k | 0 <= k < |a| ensures a[k] == b[k] {
      assert ds[..j + 1][k] == ds[k];
      if k < j { assert ds[..j][k] == ds[k]; }
    }
  }

  /** Each new directory of a valid prefix passes `validate`. */
  lemma NewDirectoryValidates(prev: seq<string>, g: MergeGroup, d: seq<string>)
    requires g.prefix.Some? ==> Valid(g.prefix.value)
    requires d in NewRightmost(prev, GroupComponents(g))
    ensures Validate(Join(d)) == Ok(DirName(d)) && !IsEmpty(DirName(d))
  {
    var cur := GroupComponents(g);
    NewRightmostAreNewPrefixes(prev, cur, d);
    ValidIsDirName(g.prefix.value);
    GoodPrefix(cur, |d|);
    DirNameValid(d);
  }

  /** The directory items of a group: `validate` succeeds on each joined prefix, and each is added in order. */
  method AddDirectories(prev: seq<string>, g: MergeGroup, options: FileOptions, ghost archives: map<Path, seq<LogEntry>>,
                        out: ZipOutput)
    requires g.prefix.Some? ==> Valid(g.prefix.value)
    modifies out
    ensures out.entries == old(out.entries) + Apply(DirectoryItems(NewRightmost(prev, GroupComponents(g))), archives, options).log
    ensures Apply(DirectoryItems(NewRightmost(prev, GroupComponents(g))), archives, options).failure.None?
  {
    var cur: seq<string> := if g.prefix.Some? then AllComponents(g.prefix.value) else [];
    var newDirs := CalculateNewRightmostComponents(prev, cur);
    ApplyDirectories(newDirs, archives, options);
    var j := 0;
    while j < |newDirs|
      invariant 0 <= j <= |newDirs|
      invariant out.entries == old(out.entries) + DirectoryRecords(newDirs[..j], options)
    {
      NewDirectoryValidates(prev, g, newDirs[j]);
      var dir := Validate(Join(newDirs[j]));
      out.AddDirectory(IntoString(dir.value), options);
      DirectoryRecordsSnoc(newDirs, j, options);
      j := j + 1;
    }
    assert newDirs[..j] == newDirs;
  }

  /** The merge items of a group, in order, until a source cannot be read. */
  method MergeSources(sources: seq<Path>, archives: map<Path, seq<LogEntry>>, ghost options: FileOptions, out: ZipOutput)
    returns (failure: Option<MergeError>)
    modifies out
    ensures out.entries == old(out.entries) + Apply(SourceItems(sources), archives, options).log
    ensures failure == Apply(SourceItems(sources), archives, options).failure
  {
    ghost var items := SourceItems(sources);
    var s := 0;
    while s < |sources|
      invariant 0 <= s <= |sources|
      invariant old(out.entries) + Apply(items, archives, options).log == out.entries + Apply(items[s..], archives, options).log
      invariant Apply(items, archives, options).failure == Apply(items[s..], archives, options).failure
    {
      var src := sources[s];
      ApplyStep(items, s, archives, options);
      assert items[s] == MergeZip(src);
      if src !in archives {
        return Some(SourceUnreadable(src));
      }
      out.MergeArchive(archives[src]);
      s := s + 1;
    }
    assert items[s..] == [];
    return None;
  }

  /** One group: its new directories, then its sources. */
  method MergeGroupInto(prev: seq<string>, g: MergeGroup, options: FileOptions, archives: map<Path, seq<LogEntry>>,
                        out: ZipOutput) returns (failure: Option<MergeError>)
    requires g.prefix.Some? ==> Valid(g.prefix.value)
    modifies out
    ensures out.entries == old(out.entries) + Apply(GroupItems(prev, g), archives, options).log
    ensures failure == Apply(GroupItems(prev, g), archives, options).failure
  {
    ghost var start := out.entries;
    AddDirectories(prev, g, options, archives, out);
    ghost var mid := out.entries;
    failure := MergeSources(g.sources, archives, options, out);
    GroupOutcome(prev, g, archives, options, start, mid, out.entries);
  }

  /** The records of a group: those of its directories, which cannot fail, then those of its sources. */
  lemma GroupOutcome(prev: seq<string>, g: MergeGroup, archives: map<Path, seq<LogEntry>>, options: FileOptions,
                     start: seq<LogEntry>, mid: seq<LogEntry>, final: seq<LogEntry>)
    requires Apply(DirectoryItems(NewRightmost(prev, GroupComponents(g))), archives, options).failure.None?
    requires mid == start + Apply(DirectoryItems(NewRightmost(prev, GroupComponents(g))), archives, options).log
    requires final == mid + Apply(SourceItems(g.sources), archives, options).log
    ensures final == start + Apply(GroupItems(prev, g), archives, options).log
    ensures Apply(GroupItems(prev, g), archives, options).failure == Apply(SourceItems(g.sources), archives, options).failure
  {
    var ds, ss := DirectoryItems(NewRightmost(prev, GroupComponents(g))), SourceItems(g.sources);
    var rd, rs := Apply(ds, archives, options), Apply(ss, archives, options);
    ApplyAppend(ds, ss, archives, options);
    assert Apply(GroupItems(prev, g), archives, options) == Outcome(rd.log + rs.log, rs.failure);
    Associative(start, rd.log, rs.log);
  }

  lemma ValidGroupAt(groups: seq<MergeGroup>, i: nat)
    requires ValidGroups(groups) && i < |groups|
    ensures groups[i].prefix.Some? ==> Valid(groups[i].prefix.value)
  {
  }

  /** The consumer after one more group, when the groups before it did not fail. */
  lemma ApplyMergeStep(groups: seq<MergeGroup>, i: nat, archives: map<Path, seq<LogEntry>>, options: FileOptions)
    requires i < |groups| && Apply(MergeItems(groups[..i]), archives, options).failure.None?
    ensures var before, step := Apply(MergeItems(groups[..i]), archives, options), Apply(GroupItems(LastPrefix(groups[..i]), groups[i]), archives, options);
      && Apply(MergeItems(groups[..i + 1]), archives, options) == Outcome(before.log + step.log, step.failure)
      && LastPrefix(groups[..i + 1]) == GroupComponents(groups[i])
  {
    MergeStep(groups, i);
    ApplyAppend(MergeItems(groups[..i]), GroupItems(LastPrefix(groups[..i]), groups[i]), archives, options);
  }

  /** The records written after one more group, in terms of the records before it and the group's own. */
  lemma MergeNextLog(groups: seq<MergeGroup>, i: nat, archives: map<Path, seq<LogEntry>>, options: FileOptions,
                     base: seq<LogEntry>, mid: seq<LogEntry>, final: seq<LogEntry>)
    requires i < |groups| && Apply(MergeItems(groups[..i]), archives, options).failure.None?
    requires mid == base + Apply(MergeItems(groups[..i]), archives, options).log
    requires final == mid + Apply(GroupItems(LastPrefix(groups[..i]), groups[i]), archives, options).log
    ensures final == base + Apply(MergeItems(groups[..i + 1]), archives, options).log
    ensures Apply(MergeItems(groups[..i + 1]), archives, options).failure ==
      Apply(GroupItems(LastPrefix(groups[..i]), groups[i]), archives, options).failure
  {
    ApplyMergeStep(groups, i, archives, options);
    var before, step := Apply(MergeItems(groups[..i]), archives, options), Apply(GroupItems(LastPrefix(groups[..i]), groups[i]), archives, options);
    Associative(base, before.log, step.log);
  }

  lemma Associative<T>(a: seq<T>, b: seq<T>, c: seq<T>)
    ensures (a + b) + c == a + (b + c)
  {
  }

  /** Once a prefix of the stream has failed, the whole stream fails the same way. */
  lemma MergeFailureStops(groups: seq<MergeGroup>, i: nat, archives: map<Path, seq<LogEntry>>, options: FileOptions)
    requires i <= |groups| && Apply(MergeItems(groups[..i]), archives, options).failure.Some?
    ensures Apply(MergeItems(groups), archives, options) == Apply(MergeItems(groups[..i]), archives, options)
  {
    MergeItemsPrefix(groups, i);
    var done, all := MergeItems(groups[..i]), MergeItems(groups);
    PrefixSplit(done, all);
    ApplyAppend(done, all[|done|..], archives, options);
  }

  lemma PrefixSplit<T>(a: seq<T>, b: seq<T>)
    requires a <= b
    ensures b == a + b[|a|..]
  {
  }

  lemma {:induction false} ApplyAppend(a: seq<MergeItem>, b: seq<MergeItem>, archives: map<Path, seq<LogEntry>>, options: FileOptions)
    ensures var ra, rb := Apply(a, archives, options), Apply(b, archives, options);
      Apply(a + b, archives, options) == if ra.failure.Some? then ra else Outcome(ra.log + rb.log, rb.failure)
  {
    if |a| > 0 {
      assert (a + b)[0] == a[0] && (a + b)[1..] == a[1..] + b;
      ApplyAppend(a[1..], b, archives, options);
      var r1, rb := Apply(a[1..], archives, options), Apply(b, archives, options);
      match a[0]
      case AddDirectory(d) =>
        var head := [DirectoryRecord(d.name, options)];
        assert head + (r1.log + rb.log) == (head + r1.log) + rb.log;
      case MergeZip(src) =>
        if src in archives {
          assert archives[src] + (r1.log + rb.log) == (archives[src] + r1.log) + rb.log;
        }
    } else {
      assert a + b == b;
    }
  }

  /** One iteration of the producer loop, with the consumer applying what it sends. */
  method MergeNextGroup(groups: seq<MergeGroup>, i: nat, prev: seq<string>, options: FileOptions,
                        archives: map<Path, seq<LogEntry>>, out: ZipOutput, ghost base: seq<LogEntry>)
    returns (failure: Option<MergeError>)
    requires i < |groups| && (groups[i].prefix.Some? ==> Valid(groups[i].prefix.value))
    requires prev == LastPrefix(groups[..i]) && Apply(MergeItems(groups[..i]), archives, options).failure.None?
    requires out.entries == base + Apply(MergeItems(groups[..i]), archives, options).log
    modifies out
    ensures out.entries == base + Apply(MergeItems(groups[..i + 1]), archives, options).log
    ensures Apply(MergeItems(groups[..i + 1]), archives, options).failure == failure
    ensures failure.Some? ==> Apply(MergeItems(groups), archives, options) == Apply(MergeItems(groups[..i + 1]), archives, options)
    ensures LastPrefix(groups[..i + 1]) == GroupComponents(groups[i])
  {
    ghost var mid := out.entries;
    failure := MergeGroupInto(prev, groups[i], options, archives, out);
    MergeNextLog(groups, i, archives, options, base, mid, out.entries);
    MergeStep(groups, i);
    if failure.Some? {
      MergeFailureStops(groups, i + 1, archives, options);
    }
  }

  /**
   * `MedusaMerge::merge`: the output receives the records of the whole
   * stream in order, up to the first source that cannot be read.
   */
  method Merge(groups: seq<MergeGroup>, mtime: ModifiedTimeBehavior, now: ZipDateTime,
               archives: map<Path, seq<LogEntry>>, out: ZipOutput) returns (failure: Option<MergeError>)
    requires ValidGroups(groups)
    modifies out
    ensures out.entries == old(out.entries) + Apply(MergeItems(groups), archives, MergeOptions(mtime, now)).log
    ensures failure == Apply(MergeItems(groups), archives, MergeOptions(mtime, now)).failure
  {
    var options := MergeOptions(mtime, now);
    ghost var base := out.entries;
    var prev: seq<string> := [];
    assert groups[..0] == [];
    for i := 0 to |groups|
      invariant prev == LastPrefix(groups[..i])
      invariant out.entries == base + Apply(MergeItems(groups[..i]), archives, options).log
      invariant Apply(MergeItems(groups[..i]), archives, options).failure.None?
    {
      ValidGroupAt(groups, i);
      failure := MergeNextGroup(groups, i, prev, options, archives, out, base);
      if failure.Some? {
        return;
      }
      prev := GroupComponents(groups[i]);
    }
    assert groups[..|groups|] == groups;
    failure := None;
  }
}
