/**
 * The command-line form of a merge (cli/src/merge.rs): a list of arguments
 * in which `+prefix/` opens a group with that prefix and every other
 * argument is a source archive of the group opened last.
 */
module CliMerge {
  import opened Wrappers
  import opened Paths
  import opened EntryNames
  import opened Merging

  /** An argument that opens a new group: it starts with '+' and ends with '/'. */
  predicate IsPrefixArg(arg: string) {
    |arg| > 0 && arg[0] == '+' && arg[|arg| - 1] == '/'
  }

  /** The prefix such an argument names: none for `+/`, else the text between '+' and '/', validated. */
  function PrefixOf(arg: string): (r: Result<Option<EntryName>, NameFormatError>)
    requires IsPrefixArg(arg)
    ensures r == Ok(None) <==> arg == "+/"
    ensures r.Ok? && r.value.Some? ==> Valid(r.value.value) && r.value.value.name == arg[1..|arg| - 1]
  {
    var text := arg[1..|arg| - 1];
    if |text| == 0 then Ok(None)
    else
      ValidateAccepts(text);
      ValidateErrors(text);
      match Validate(text)
      case Err(e) => Err(e)
      case Ok(name) => Ok(Some(name))
  }

  /** The groups after one more argument: a prefix opens a group, a source joins the last one (or a new one without a prefix). */
  function Extend(prev: Result<seq<MergeGroup>, NameFormatError>, arg: string): Result<seq<MergeGroup>, NameFormatError> {
    match prev
    case Err(e) => Err(e)
    case Ok(gs) =>
      if IsPrefixArg(arg) then
        match PrefixOf(arg)
        case Err(e) => Err(e)
        case Ok(prefix) => Ok(gs + [MergeGroup(prefix, [])])
      else if |gs| == 0 then Ok([MergeGroup(None, [Parse(arg)])])
      else Ok(gs[..|gs| - 1] + [MergeGroup(gs[|gs| - 1].prefix, gs[|gs| - 1].sources + [Parse(arg)])])
  }

  /** The groups as they stand after some arguments. */
  function Groups(args: seq<string>): Result<seq<MergeGroup>, NameFormatError> {
    if |args| == 0 then Ok([]) else Extend(Groups(args[..|args| - 1]), args[|args| - 1])
  }

  /** The source arguments, as paths, in order. */
  function SourceArgs(args: seq<string>): seq<Path> {
    if |args| == 0 then []
    else SourceArgs(args[..|args| - 1]) + (if IsPrefixArg(args[|args| - 1]) then [] else [Parse(args[|args| - 1])])
  }

  /** How many arguments open a group. */
  function PrefixArgCount(args: seq<string>): nat {
    if |args| == 0 then 0
    else PrefixArgCount(args[..|args| - 1]) + (if IsPrefixArg(args[|args| - 1]) then 1 else 0)
  }

  /** The group pending at the end of the loop, if one is open. */
  function Open(current: Option<Option<EntryName>>, sources: seq<Path>): seq<MergeGroup> {
    if current.Some? then [MergeGroup(current.value, sources)] else []
  }

  lemma GroupsSnoc(args: seq<string>, i: nat)
    requires i < |args|
    ensures Groups(args[..i + 1]) == Extend(Groups(args[..i]), args[i])
  {
    assert args[..i + 1][..i] == args[..i];
  }

  /** Once a prefix fails to validate, the parse has failed with its error whatever follows. */
  lemma {:induction false} GroupsErrorPersists(args: seq<string>, i: nat)
    requires i <= |args| && Groups(args[..i]).Err?
    ensures Groups(args) == Groups(args[..i])
  {
    if i < |args| {
      var init := args[..|args| - 1];
      assert init[..i] == args[..i];
      GroupsErrorPersists(init, i);
    } else {
      assert args[..i] == args;
    }
  }

  /**
   * `TryFrom<MedusaMerge> for MedusaMerge`: the arguments in one pass, with
   * the prefix of the group being filled (none before the first argument)
   * and its sources so far.
   */
  method ParseMergeArgs(args: seq<string>) returns (r: Result<seq<MergeGroup>, NameFormatError>)
    ensures r == Groups(args)
  {
    var ret: seq<MergeGroup> := [];
    var current: Option<Option<EntryName>> := None;
    var sources: seq<Path> := [];
    assert args[..0] == [];
    assert Groups(args[..0]) == Ok([]);
    assert ret + Open(current, sources) == [];
    for i := 0 to |args|
      invariant current.None? ==> sources == [] && ret == []
      invariant Groups(args[..i]) == Ok(ret + Open(current, sources))
    {
      GroupsSnoc(args, i);
      var arg := args[i];
      if IsPrefixArg(arg) {
        var prefix := PrefixOf(arg);
        if prefix.Err? {
          GroupsErrorPersists(args, i + 1);
          return Err(prefix.error);
        }
        ghost var after := ret + Open(current, sources) + [MergeGroup(prefix.value, [])];
        assert Groups(args[..i + 1]) == Ok(after);
        if current.Some? {
          ret := ret + [MergeGroup(current.value, sources)];
          sources := [];
        }
        current := Some(prefix.value);
        assert ret + Open(current, sources) == after;
      } else {
        ghost var before := ret + Open(current, sources);
        if current.None? {
          current := Some(None);
          sources := [Parse(arg)];
          assert ret + Open(current, sources) == [MergeGroup(None, [Parse(arg)])];
        } else {
          assert before[..|before| - 1] == ret;
          assert before[|before| - 1] == MergeGroup(current.value, sources);
          sources := sources + [Parse(arg)];
          assert ret + Open(current, sources) == before[..|before| - 1] + [MergeGroup(before[|before| - 1].prefix, before[|before| - 1].sources + [Parse(arg)])];
        }
      }
    }
    assert args[..|args|] == args;
    r := Ok(ret + Open(current, sources));
  }

  /** The parse fails exactly when some prefix argument names an invalid prefix, and then with the error of some such argument. */
  lemma {:induction false} GroupsFailures(args: seq<string>)
    ensures Groups(args).Ok? <==> forall k :: 0 <= k < |args| && IsPrefixArg(args[k]) ==> PrefixOf(args[k]).Ok?
    ensures Groups(args).Err? ==> exists k :: 0 <= k < |args| && IsPrefixArg(args[k]) && PrefixOf(args[k]) == Err(Groups(args).error)
  {
    if |args| > 0 {
      var init := args[..|args| - 1];
      GroupsFailures(init);
      assert forall k :: 0 <= k < |init| ==> init[k] == args[k];
    }
  }

  /** A successful parse gives groups whose prefixes are valid entry names. */
  lemma {:induction false} GroupsValid(args: seq<string>)
    requires Groups(args).Ok?
    ensures ValidGroups(Groups(args).value)
  {
    if |args| > 0 {
      GroupsValid(args[..|args| - 1]);
    }
  }

  /** Every source argument becomes exactly one source, in argument order. */
  lemma {:induction false} GroupsSources(args: seq<string>)
    requires Groups(args).Ok?
    ensures AllSources(Groups(args).value) == SourceArgs(args)
  {
    if |args| > 0 {
      var init, arg := args[..|args| - 1], args[|args| - 1];
      GroupsSources(init);
      var gs, out := Groups(init).value, Groups(args).value;
      if IsPrefixArg(arg) {
        assert out[..|out| - 1] == gs;
      } else if |gs| == 0 {
        assert out[..|out| - 1] == [];
      } else {
        var last := gs[|gs| - 1];
        assert gs[..|gs| - 1] + [last] == gs;
        assert out[..|out| - 1] == gs[..|gs| - 1];
        assert AllSources(gs) == AllSources(gs[..|gs| - 1]) + last.sources;
        Associative(AllSources(gs[..|gs| - 1]), last.sources, [Parse(arg)]);
      }
    }
  }

  /**
   * One group per prefix argument, plus a first group without a prefix
   * when the arguments start with a source; no arguments, no groups.
   */
  lemma {:induction false} GroupsCount(args: seq<string>)
    requires Groups(args).Ok?
    ensures |Groups(args).value| == PrefixArgCount(args) + (if |args| > 0 && !IsPrefixArg(args[0]) then 1 else 0)
    ensures |Groups(args).value| == 0 <==> |args| == 0
    ensures |args| > 0 && !IsPrefixArg(args[0]) ==> Groups(args).value[0].prefix == None
    ensures |args| > 0 && IsPrefixArg(args[0]) ==> PrefixOf(args[0]) == Ok(Groups(args).value[0].prefix)
  {
    if |args| > 0 {
      var init := args[..|args| - 1];
      GroupsCount(init);
      assert |init| > 0 ==> init[0] == args[0];
    }
  }

  /** A prefix argument at the end still gives its group, with no sources. */
  lemma TrailingPrefixGroup(args: seq<string>, arg: string)
    requires IsPrefixArg(arg) && Groups(args + [arg]).Ok?
    ensures Groups(args + [arg]).value == Groups(args).value + [MergeGroup(PrefixOf(arg).value, [])]
  {
    assert (args + [arg])[..|args|] == args;
  }

  /** Sources before any prefix form a group without one; `+/` opens a group without a prefix too. */
  lemma ExampleGroups()
    ensures Groups(["x.zip", "+/", "y.zip"]) == Ok([MergeGroup(None, [Parse("x.zip")]), MergeGroup(None, [Parse("y.zip")])])
    ensures Groups([]) == Ok([])
  {
    var args := ["x.zip", "+/", "y.zip"];
    var gx, gy := MergeGroup(None, [Parse("x.zip")]), MergeGroup(None, [Parse("y.zip")]);
    assert args[0] == "x.zip" && args[1] == "+/" && args[2] == "y.zip";
    assert !IsPrefixArg("x.zip") && !IsPrefixArg("y.zip");
    assert IsPrefixArg("+/") && PrefixOf("+/") == Ok(None);
    GroupsSnoc(args, 0);
    GroupsSnoc(args, 1);
    GroupsSnoc(args, 2);
    assert args[..0] == [] && args[..3] == args;
    assert Groups(args[..1]) == Ok([gx]);
    assert Extend(Ok([gx]), "+/") == Ok([gx, MergeGroup(None, [])]) by {
      assert [gx] + [MergeGroup(None, [])] == [gx, MergeGroup(None, [])];
    }
    assert Extend(Ok([gx, MergeGroup(None, [])]), "y.zip") == Ok([gx, gy]) by {
      var gs := [gx, MergeGroup(None, [])];
      var py: seq<Path> := [Parse("y.zip")];
      assert Extend(Ok(gs), "y.zip") == Ok(gs[..1] + [MergeGroup(None, [] + py)]);
      assert gs[..1] == [gx];
      assert [] + py == py;
      assert MergeGroup(None, [] + py) == gy;
      assert [gx] + [gy] == [gx, gy];
    }

  }
}
