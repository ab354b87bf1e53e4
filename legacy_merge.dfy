/**
 * The older merge (libmedusa-zip/src/merge.rs, `MedusaMerge::merge`): a
 * group's prefix is added as one directory, without its parents, and the
 * output is finished once every item has been applied.
 */
module LegacyMerging {
  import opened Wrappers
  import opened Paths
  import opened EntryNames
  import opened ZipOptions
  import opened ZipWriting
  import opened Merging

  /** One group: its prefix as a single directory when there is one, then one merge item per source. */
  function LegacyGroupItems(g: MergeGroup): seq<MergeItem> {
    (if g.prefix.Some? then [AddDirectory(g.prefix.value)] else []) + SourceItems(g.sources)
  }

  function LegacyItems(groups: seq<MergeGroup>): seq<MergeItem> {
    if |groups| == 0 then []
    else LegacyItems(groups[..|groups| - 1]) + LegacyGroupItems(groups[|groups| - 1])
  }

  /** The names of the directory items, in order. */
  function Directories(items: seq<MergeItem>): seq<EntryName> {
    if |items| == 0 then []
    else Directories(items[..|items| - 1]) + (if items[|items| - 1].AddDirectory? then [items[|items| - 1].name] else [])
  }

  /** The prefixes the groups carry, in order. */
  function GivenPrefixes(groups: seq<MergeGroup>): seq<EntryName> {
    if |groups| == 0 then []
    else
      var g := groups[|groups| - 1];
      GivenPrefixes(groups[..|groups| - 1]) + (if g.prefix.Some? then [g.prefix.value] else [])
  }

  lemma {:induction false} DirectoriesAppend(a: seq<MergeItem>, b: seq<MergeItem>)
    ensures Directories(a + b) == Directories(a) + Directories(b)
    decreases |b|
  {
    if |b| == 0 {
      assert a + b == a;
    } else {
      var b' := b[..|b| - 1];
      assert (a + b)[..|a + b| - 1] == a + b';
      DirectoriesAppend(a, b');
    }
  }

  lemma {:induction false} DirectoriesOfSources(sources: seq<Path>)
    ensures Directories(SourceItems(sources)) == []
  {
    if |sources| > 0 {
      assert SourceItems(sources)[..|sources| - 1] == SourceItems(sources[..|sources| - 1]);
      DirectoriesOfSources(sources[..|sources| - 1]);
    }
  }

  /**
   * The directories added are exactly the given prefixes, one per group
   * that has one, in group order: no parent directory is ever added.
   */
  lemma {:induction false} LegacyDirectoriesAreGivenPrefixes(groups: seq<MergeGroup>)
    ensures Directories(LegacyItems(groups)) == GivenPrefixes(groups)
  {
    if |groups| > 0 {
      var init, g := groups[..|groups| - 1], groups[|groups| - 1];
      LegacyDirectoriesAreGivenPrefixes(init);
      var head: seq<MergeItem> := if g.prefix.Some? then [AddDirectory(g.prefix.value)] else [];
      DirectoriesAppend(LegacyItems(init), LegacyGroupItems(g));
      DirectoriesAppend(head, SourceItems(g.sources));
      DirectoriesOfSources(g.sources);
      assert Directories(head) == (if g.prefix.Some? then [g.prefix.value] else []) by {
        if g.prefix.Some? {
          assert head[..0] == [];
        }
      }
    }
  }

  /** Each source becomes exactly one merge item, in group order and then source order. */
  lemma {:induction false} LegacySourcesInOrder(groups: seq<MergeGroup>)
    ensures Sources(LegacyItems(groups)) == AllSources(groups)
  {
    if |groups| > 0 {
      var init, g := groups[..|groups| - 1], groups[|groups| - 1];
      LegacySourcesInOrder(init);
      var head: seq<MergeItem> := if g.prefix.Some? then [AddDirectory(g.prefix.value)] else [];
      SourcesAppend(LegacyItems(init), LegacyGroupItems(g));
      SourcesAppend(head, SourceItems(g.sources));
      SourcesOfSources(g.sources);
      assert Sources(head) == [] by {
        if g.prefix.Some? {
          assert head[..0] == [];
        }
      }
    }
  }

  /** A group's directory item comes before every one of its sources. */
  lemma LegacyDirectoryFirst(g: MergeGroup)
    requires g.prefix.Some?
    ensures LegacyGroupItems(g)[0] == AddDirectory(g.prefix.value)
    ensures forall k :: 1 <= k < |LegacyGroupItems(g)| ==> LegacyGroupItems(g)[k] == MergeZip(g.sources[k - 1])
  {
  }

  lemma LegacyStep(groups: seq<MergeGroup>, i: nat, archives: map<Path, seq<LogEntry>>,
                   base: seq<LogEntry>, mid: seq<LogEntry>, final: seq<LogEntry>)
    requires i < |groups| && Apply(LegacyItems(groups[..i]), archives, DefaultOptions).failure.None?
    requires mid == base + Apply(LegacyItems(groups[..i]), archives, DefaultOptions).log
    requires final == mid + Apply(LegacyGroupItems(groups[i]), archives, DefaultOptions).log
    ensures final == base + Apply(LegacyItems(groups[..i + 1]), archives, DefaultOptions).log
    ensures Apply(LegacyItems(groups[..i + 1]), archives, DefaultOptions).failure ==
      Apply(LegacyGroupItems(groups[i]), archives, DefaultOptions).failure
  {
    var upto := groups[..i + 1];
    assert upto[..|upto| - 1] == groups[..i] && upto[|upto| - 1] == groups[i];
    var before, step := Apply(LegacyItems(groups[..i]), archives, DefaultOptions), Apply(LegacyGroupItems(groups[i]), archives, DefaultOptions);
    ApplyAppend(LegacyItems(groups[..i]), LegacyGroupItems(groups[i]), archives, DefaultOptions);
    Associative(base, before.log, step.log);
  }

  lemma {:induction false} LegacyItemsPrefix(groups: seq<MergeGroup>, j: nat)
    requires j <= |groups|
    ensures LegacyItems(groups[..j]) <= LegacyItems(groups)
    decreases |groups| - j
  {
    if j < |groups| {
      var init := groups[..|groups| - 1];
      assert init[..j] == groups[..j];
      LegacyItemsPrefix(init, j);
    } else {
      assert groups[..j] == groups;
    }
  }

  lemma LegacyFailureStops(groups: seq<MergeGroup>, i: nat, archives: map<Path, seq<LogEntry>>)
    requires i <= |groups| && Apply(LegacyItems(groups[..i]), archives, DefaultOptions).failure.Some?
    ensures Apply(LegacyItems(groups), archives, DefaultOptions) == Apply(LegacyItems(groups[..i]), archives, DefaultOptions)
  {
    LegacyItemsPrefix(groups, i);
    var done, all := LegacyItems(groups[..i]), LegacyItems(groups);
    PrefixSplit(done, all);
    ApplyAppend(done, all[|done|..], archives, DefaultOptions);
  }

  /** One group: its directory with the library's default options, then its sources. */
  method LegacyMergeGroup(g: MergeGroup, archives: map<Path, seq<LogEntry>>, out: ZipOutput) returns (failure: Option<MergeError>)
    requires g.prefix.Some? ==> !IsEmpty(g.prefix.value)
    modifies out
    ensures out.entries == old(out.entries) + Apply(LegacyGroupItems(g), archives, DefaultOptions).log
    ensures failure == Apply(LegacyGroupItems(g), archives, DefaultOptions).failure
  {
    var head: seq<MergeItem> := [];
    if g.prefix.Some? {
      head := [AddDirectory(g.prefix.value)];
      out.AddDirectory(IntoString(g.prefix.value), DefaultOptions);
      assert Apply(head, archives, DefaultOptions) == Outcome([DirectoryRecord(g.prefix.value.name, DefaultOptions)], None);
    }
    failure := MergeSources(g.sources, archives, DefaultOptions, out);
    ApplyAppend(head, SourceItems(g.sources), archives, DefaultOptions);
  }

  /**
   * The older `MedusaMerge::merge`: every item applied in order; the
   * finished archive is returned only when every source could be read.
   */
  method LegacyMerge(groups: seq<MergeGroup>, archives: map<Path, seq<LogEntry>>, out: ZipOutput)
    returns (r: Result<seq<LogEntry>, MergeError>)
    requires ValidGroups(groups)
    modifies out
    ensures out.entries == old(out.entries) + Apply(LegacyItems(groups), archives, DefaultOptions).log
    ensures r.Ok? <==> Apply(LegacyItems(groups), archives, DefaultOptions).failure.None?
    ensures r.Ok? ==> r.value == out.entries
    ensures r.Err? ==> Apply(LegacyItems(groups), archives, DefaultOptions).failure == Some(r.error)
  {
    var i := 0;
    while i < |groups|
      invariant 0 <= i <= |groups|
      invariant out.entries == old(out.entries) + Apply(LegacyItems(groups[..i]), archives, DefaultOptions).log
      invariant Apply(LegacyItems(groups[..i]), archives, DefaultOptions).failure.None?
    {
      var g := groups[i];
      assert g.prefix.Some? ==> Valid(g.prefix.value);
      ValidNonEmpty(g);
      ghost var mid := out.entries;
      var failure := LegacyMergeGroup(g, archives, out);
      LegacyStep(groups, i, archives, old(out.entries), mid, out.entries);
      if failure.Some? {
        LegacyFailureStops(groups, i + 1, archives);
        return Err(failure.value);
      }
      i := i + 1;
    }
    assert groups[..i] == groups;
    return Ok(out.entries);
  }

  lemma ValidNonEmpty(g: MergeGroup)
    requires g.prefix.Some? ==> Valid(g.prefix.value)
    ensures g.prefix.Some? ==> !IsEmpty(g.prefix.value)
  {
    if g.prefix.Some? {
      ValidComponents(g.prefix.value);
      JoinLastNonEmpty(AllComponents(g.prefix.value));
    }
  }
}
