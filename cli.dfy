/*
 * The command line of the generator: how the arguments are split into
 * positional values and the modules named after `--add-module`, and how
 * the project name, the output folder and interactive mode are settled
 * from them.  Console prompts are parameters: the answer the user would
 * type is passed in.
 */
module Cli {
  import opened Common

  const AddModuleFlag := "--add-module"
  const NonInteractiveFlag := "--non-interactive"
  const FlagPrefix := "--"

  /** The positional arguments and the (lower-cased) module names, in the order they were given. */
  datatype Split = Split(positional: seq<string>, modules: seq<string>)

  /** The flag is recognised whatever its case. */
  predicate IsAddModule(arg: string) {
    EqualsIgnoreCase(arg, AddModuleFlag)
  }

  /** An argument that ends a list of modules: anything starting with `--`, compared ordinally. */
  predicate IsFlag(arg: string) {
    StartsWith(arg, FlagPrefix)
  }

  function LowerAll(xs: seq<string>): (r: seq<string>)
    ensures |r| == |xs| && forall k :: 0 <= k < |xs| ==> r[k] == Lower(xs[k])
  {
    seq(|xs|, k requires 0 <= k < |xs| => Lower(xs[k]))
  }

  /** The end of the run of non-flag arguments that starts at i. */
  function RunEnd(args: seq<string>, i: nat): (j: nat)
    requires i <= |args|
    ensures i <= j <= |args|
    ensures forall k :: i <= k < j ==> !IsFlag(args[k])
    ensures j < |args| ==> IsFlag(args[j])
    decreases |args| - i
  {
    if i == |args| || IsFlag(args[i]) then i else RunEnd(args, i + 1)
  }

  /**
   * How the arguments from index i on are taken: `--add-module` (any case)
   * takes the arguments after it up to the next one starting with `--`;
   * every other argument is positional.
   */
  function SplitFrom(args: seq<string>, i: nat): Split
    requires i <= |args|
    decreases |args| - i
  {
    if i == |args| then Split([], [])
    else if IsAddModule(args[i]) then
      var j := RunEnd(args, i + 1);
      var rest := SplitFrom(args, j);
      Split(rest.positional, LowerAll(args[i + 1..j]) + rest.modules)
    else
      var rest := SplitFrom(args, i + 1);
      Split([args[i]] + rest.positional, rest.modules)
  }

  function SplitArgs(args: seq<string>): Split {
    SplitFrom(args, 0)
  }

  /** How many arguments are the `--add-module` flag. */
  function FlagCount(args: seq<string>): nat
    decreases |args|
  {
    if args == [] then 0
    else (if IsAddModule(args[0]) then 1 else 0) + FlagCount(args[1..])
  }

  // ---------------------------------------------------------------------
  // What the split promises.

  /**
   * Every argument is used once: it is a flag, a module or a positional
   * value, and no argument is dropped or duplicated.
   */
  lemma {:induction false} SplitAccountsForEveryArgument(args: seq<string>, i: nat)
    requires i <= |args|
    ensures var s := SplitFrom(args, i);
      |s.positional| + |s.modules| + FlagCount(args[i..]) == |args| - i
    decreases |args| - i
  {
    if i < |args| {
      FlagCountAt(args, i);
      if IsAddModule(args[i]) {
        var j := RunEnd(args, i + 1);
        SplitAccountsForEveryArgument(args, j);
        FlagCountSkipsRun(args, i + 1, j);
        var rest := SplitFrom(args, j);
        assert SplitFrom(args, i) == Split(rest.positional, LowerAll(args[i + 1..j]) + rest.modules);
      } else {
        SplitAccountsForEveryArgument(args, i + 1);
        var rest := SplitFrom(args, i + 1);
        assert SplitFrom(args, i) == Split([args[i]] + rest.positional, rest.modules);
      }
    }
  }

  /** FlagCount over args[i..] counts args[i], then the rest. */
  lemma FlagCountAt(args: seq<string>, i: nat)
    requires i < |args|
    ensures FlagCount(args[i..]) == (if IsAddModule(args[i]) then 1 else 0) + FlagCount(args[i + 1..])
  {
    assert args[i..][0] == args[i];
    assert args[i..][1..] == args[i + 1..];
  }

  /** A run of module names holds no flag, so counting can skip it. */
  lemma FlagCountSkipsRun(args: seq<string>, i: nat, j: nat)
    requires i <= j <= |args| && forall k :: i <= k < j ==> !IsFlag(args[k])
    ensures FlagCount(args[i..]) == FlagCount(args[j..])
  {
    NoFlagsInRun(args, i, j);
    FlagCountSplits(args[i..], j - i);
    assert args[i..][..j - i] == args[i..j];
    assert args[i..][j - i..] == args[j..];
  }

  /** A module name never starts with `--`, so it is never the flag. */
  lemma NoFlagsInRun(args: seq<string>, i: nat, j: nat)
    requires i <= j <= |args| && forall k :: i <= k < j ==> !IsFlag(args[k])
    ensures FlagCount(args[i..j]) == 0
    decreases j - i
  {
    if i < j {
      AddModuleIsFlag(args[i]);
      NoFlagsInRun(args, i + 1, j);
      assert args[i..j][1..] == args[i + 1..j];
    }
  }

  /** The flag itself starts with `--`, whatever its case. */
  lemma AddModuleIsFlag(a: string)
    ensures IsAddModule(a) ==> IsFlag(a)
  {
    if IsAddModule(a) {
      assert |a| == |Lower(a)| == |AddModuleFlag|;
      assert Lower(a)[0] == '-' && Lower(a)[1] == '-';
      assert LowerChar(a[0]) == '-' && LowerChar(a[1]) == '-';
      assert a[..2] == FlagPrefix;
    }
  }

  /** Lower computed character by character, for the worked examples. */
  lemma LowerIs(s: string, t: string)
    requires |s| == |t| && forall k :: 0 <= k < |s| ==> LowerChar(s[k]) == t[k]
    ensures Lower(s) == t
  {
  }

  lemma {:induction false} FlagCountSplits(xs: seq<string>, n: nat)
    requires n <= |xs|
    ensures FlagCount(xs) == FlagCount(xs[..n]) + FlagCount(xs[n..])
    decreases n
  {
    if n > 0 {
      FlagCountSplits(xs[1..], n - 1);
      assert xs[1..][..n - 1] == xs[..n][1..];
      assert xs[1..][n - 1..] == xs[n..];
    }
  }

  /** Without the flag every argument is positional, in order. */
  lemma {:induction false} NoFlagAllPositional(args: seq<string>, i: nat)
    requires i <= |args| && forall k :: i <= k < |args| ==> !IsAddModule(args[k])
    ensures SplitFrom(args, i) == Split(args[i..], [])
    decreases |args| - i
  {
    if i < |args| {
      NoFlagAllPositional(args, i + 1);
      assert args[i..] == [args[i]] + args[i + 1..];
    }
  }

  /** A module name as the splitter hands it on: lower-case, and not starting with `--`. */
  predicate IsModuleName(m: string) {
    Lower(m) == m && !IsFlag(m)
  }

  /** Module names come out lower-cased and never start with `--`. */
  lemma {:induction false} ModulesAreLowerAndNotFlags(args: seq<string>, i: nat)
    requires i <= |args|
    ensures forall k :: 0 <= k < |SplitFrom(args, i).modules| ==> IsModuleName(SplitFrom(args, i).modules[k])
    decreases |args| - i
  {
    if i < |args| {
      if IsAddModule(args[i]) {
        var j := RunEnd(args, i + 1);
        ModulesAreLowerAndNotFlags(args, j);
        var run := LowerAll(args[i + 1..j]);
        var rest := SplitFrom(args, j).modules;
        var ms := SplitFrom(args, i).modules;
        assert ms == run + rest;
        forall k | 0 <= k < |ms|
          ensures IsModuleName(ms[k])
        {
          if k < |run| {
            var a := args[i + 1 + k];
            assert i + 1 <= i + 1 + k < j;
            assert !IsFlag(a);
            assert ms[k] == Lower(a);
            LowerTwice(a);
            LowerKeepsFlagPrefix(a);
          } else {
            assert ms[k] == rest[k - |run|];
          }
        }
      } else {
        ModulesAreLowerAndNotFlags(args, i + 1);
        var ms := SplitFrom(args, i).modules;
        var rest := SplitFrom(args, i + 1).modules;
        assert ms == rest;
        forall k | 0 <= k < |ms|
          ensures IsModuleName(ms[k])
        {
          assert ms[k] == rest[k];
        }
      }
    }
  }

  lemma LowerTwice(s: string)
    ensures Lower(Lower(s)) == Lower(s)
  {
  }

  /** Folding case does not make a `--` prefix out of anything else. */
  lemma LowerKeepsFlagPrefix(s: string)
    ensures IsFlag(Lower(s)) ==> IsFlag(s)
  {
    if IsFlag(Lower(s)) {
      assert Lower(s)[..2] == "--";
      assert Lower(s)[0] == '-' && Lower(s)[1] == '-';
      assert s[0] == '-' && s[1] == '-';
      assert s[..2] == "--";
    }
  }

  /** Every positional value is one of the arguments, and never the `--add-module` flag. */
  lemma PositionalsAreNotTheFlag(args: seq<string>, i: nat)
    requires i <= |args|
    ensures var ps := SplitFrom(args, i).positional;
      forall k :: 0 <= k < |ps| ==> !IsAddModule(ps[k]) && ps[k] in args[i..]
    decreases |args| - i
  {
    if i < |args| {
      if IsAddModule(args[i]) {
        var j := RunEnd(args, i + 1);
        PositionalsAreNotTheFlag(args, j);
        assert forall x :: x in args[j..] ==> x in args[i..] by {
          assert args[j..] == args[i..][j - i..];
        }
      } else {
        PositionalsAreNotTheFlag(args, i + 1);
        assert args[i + 1..] == args[i..][1..];
      }
    }
  }

  // ---------------------------------------------------------------------
  // The split, argument by argument.

  /**
   * args[k] is a module name: it does not start with `--`, and the argument
   * before it is the `--add-module` flag or a module name itself.
   */
  predicate InModuleRun(args: seq<string>, k: nat)
    requires k < |args|
    decreases k
  {
    k > 0 && !IsFlag(args[k]) && (IsAddModule(args[k - 1]) || InModuleRun(args, k - 1))
  }

  /** args[k] is positional: it is neither the flag nor a module name. */
  predicate IsPositional(args: seq<string>, k: nat)
    requires k < |args|
  {
    !IsAddModule(args[k]) && !InModuleRun(args, k)
  }

  /** The positional arguments among args[i..], in order. */
  function PositionalsFrom(args: seq<string>, i: nat): seq<string>
    requires i <= |args|
    decreases |args| - i
  {
    if i == |args| then []
    else (if IsPositional(args, i) then [args[i]] else []) + PositionalsFrom(args, i + 1)
  }

  /** The module names among args[i..], lower-cased, in order. */
  function ModuleNamesFrom(args: seq<string>, i: nat): seq<string>
    requires i <= |args|
    decreases |args| - i
  {
    if i == |args| then []
    else (if InModuleRun(args, i) then [Lower(args[i])] else []) + ModuleNamesFrom(args, i + 1)
  }

  /** Every argument after the flag, up to the next `--` argument, is a module name. */
  lemma {:induction false} InsideRunIsModule(args: seq<string>, i: nat, k: nat)
    requires i < k < |args| && IsAddModule(args[i])
    requires forall t :: i < t <= k ==> !IsFlag(args[t])
    ensures InModuleRun(args, k)
    decreases k
  {
    if k > i + 1 {
      InsideRunIsModule(args, i, k - 1);
    }
  }

  /** The arguments args[k..j] of a run after the flag at i are all module names, and none is positional. */
  lemma {:induction false} RunIsModuleNames(args: seq<string>, i: nat, k: nat, j: nat)
    requires i < k <= j <= |args| && IsAddModule(args[i])
    requires forall t :: i < t < j ==> !IsFlag(args[t])
    ensures PositionalsFrom(args, k) == PositionalsFrom(args, j)
    ensures ModuleNamesFrom(args, k) == LowerAll(args[k..j]) + ModuleNamesFrom(args, j)
    decreases j - k
  {
    if k < j {
      InsideRunIsModule(args, i, k);
      RunIsModuleNames(args, i, k + 1, j);
      assert PositionalsFrom(args, k) == PositionalsFrom(args, k + 1);
      assert ModuleNamesFrom(args, k) == [Lower(args[k])] + ModuleNamesFrom(args, k + 1);
      LowerAllCons(args, k, j);
    }
  }

  /** Lower-casing args[k..j] is lower-casing args[k], then the rest. */
  lemma LowerAllCons(args: seq<string>, k: nat, j: nat)
    requires k < j <= |args|
    ensures LowerAll(args[k..j]) == [Lower(args[k])] + LowerAll(args[k + 1..j])
  {
    var l := LowerAll(args[k..j]);
    var r := [Lower(args[k])] + LowerAll(args[k + 1..j]);
    assert |l| == |r|;
    forall t | 0 <= t < |l|
      ensures l[t] == r[t]
    {
      if t > 0 {
        assert args[k..j][t] == args[k + 1..j][t - 1];
      }
    }
  }

  /**
   * The loop of Program.cs, started where an argument is read afresh (not
   * inside a run of module names), yields the positional arguments and the
   * lower-cased module names, each in the order they were given.
   */
  lemma {:induction false} SplitFromKeepsOrder(args: seq<string>, i: nat)
    requires i <= |args| && (i < |args| ==> !InModuleRun(args, i))
    ensures SplitFrom(args, i).positional == PositionalsFrom(args, i)
    ensures SplitFrom(args, i).modules == ModuleNamesFrom(args, i)
    decreases |args| - i
  {
    if i < |args| {
      AddModuleIsFlag(args[i]);
      if IsAddModule(args[i]) {
        var j := RunEnd(args, i + 1);
        SplitFromKeepsOrder(args, j);
        assert PositionalsFrom(args, i) == PositionalsFrom(args, i + 1);
        assert ModuleNamesFrom(args, i) == ModuleNamesFrom(args, i + 1);
        RunIsModuleNames(args, i, i + 1, j);
        var rest := SplitFrom(args, j);
        assert SplitFrom(args, i) == Split(rest.positional, LowerAll(args[i + 1..j]) + rest.modules);
      } else {
        SplitFromKeepsOrder(args, i + 1);
        assert PositionalsFrom(args, i) == [args[i]] + PositionalsFrom(args, i + 1);
        assert ModuleNamesFrom(args, i) == ModuleNamesFrom(args, i + 1);
        var rest := SplitFrom(args, i + 1);
        assert SplitFrom(args, i) == Split([args[i]] + rest.positional, rest.modules);
      }
    }
  }

  /** The whole command line: positionals and module names, each in argument order. */
  lemma SplitArgsKeepsOrder(args: seq<string>)
    ensures SplitArgs(args).positional == PositionalsFrom(args, 0)
    ensures SplitArgs(args).modules == ModuleNamesFrom(args, 0)
  {
    SplitFromKeepsOrder(args, 0);
  }

  /** The flag takes the rest of the line up to the next `--` argument, so an output folder after the modules is read as a module. */
  lemma OutputAfterModulesIsAModule()
    ensures SplitArgs(["App", "--add-module", "Cms", "./out"]) == Split(["App"], ["cms", "./out"])
  {
    var args := ["App", "--add-module", "Cms", "./out"];
    assert !IsAddModule(args[0]) by {
      assert Lower(args[0])[0] == 'a';
    }
    assert IsAddModule(args[1]);
    assert !IsFlag(args[2]) by {
      assert args[2][0] == 'C';
    }
    assert !IsFlag(args[3]) by {
      assert args[3][0] == '.';
    }
    assert RunEnd(args, 2) == 4;
    LowerIs("Cms", "cms");
    LowerIs("./out", "./out");
    assert LowerAll(args[2..4]) == ["cms", "./out"];
  }

  /** A repeated flag adds to the same list, and an empty run adds nothing. */
  lemma RepeatedFlagAccumulates()
    ensures SplitArgs(["--add-module", "blog", "--ADD-MODULE", "--add-module", "shop"]).modules == ["blog", "shop"]
  {
    var args := ["--add-module", "blog", "--ADD-MODULE", "--add-module", "shop"];
    assert IsAddModule(args[0]) && IsAddModule(args[2]) && IsAddModule(args[3]);
    assert !IsFlag(args[1]) by {
      assert args[1][0] == 'b';
    }
    assert IsFlag(args[2]) && IsFlag(args[3]);
    assert !IsFlag(args[4]) by {
      assert args[4][0] == 's';
    }
    assert RunEnd(args, 1) == 2 && RunEnd(args, 3) == 3 && RunEnd(args, 4) == 5;
    LowerIs("blog", "blog");
    LowerIs("shop", "shop");
    assert LowerAll(args[1..2]) == ["blog"] && LowerAll(args[4..5]) == ["shop"];
    assert LowerAll(args[3..3]) == [];
  }

  /** One `--add-module` run, as the loop takes it: its names join the list, and the rest is split from the run's end. */
  lemma FlagStep(args: seq<string>, i: nat, ms: seq<string>)
    requires i < |args| && IsAddModule(args[i])
    ensures SplitFrom(args, i).positional == SplitFrom(args, RunEnd(args, i + 1)).positional
    ensures ms + SplitFrom(args, i).modules
      == (ms + LowerAll(args[i + 1..RunEnd(args, i + 1)])) + SplitFrom(args, RunEnd(args, i + 1)).modules
  {
  }

  /** One positional argument, as the loop takes it. */
  lemma PositionalStep(args: seq<string>, i: nat, ps: seq<string>)
    requires i < |args| && !IsAddModule(args[i])
    ensures ps + SplitFrom(args, i).positional == (ps + [args[i]]) + SplitFrom(args, i + 1).positional
    ensures SplitFrom(args, i).modules == SplitFrom(args, i + 1).modules
  {
  }

  /** The inner while loop: lower-cases and appends the arguments up to the next `--` argument. */
  method CollectModules(args: seq<string>, i: nat, modulesToAdd: seq<string>) returns (j: nat, modules: seq<string>)
    requires 0 < i <= |args|
    ensures j == RunEnd(args, i) && modules == modulesToAdd + LowerAll(args[i..j])
  {
    j, modules := i, modulesToAdd;
    while j < |args| && !StartsWith(args[j], FlagPrefix)
      invariant i <= j <= RunEnd(args, i)
      invariant modules == modulesToAdd + LowerAll(args[i..j])
      decreases |args| - j
    {
      assert args[i..j + 1] == args[i..j] + [args[j]];
      modules := modules + [Lower(args[j])];
      j := j + 1;
    }
  }

  /** The argument loop of Main, with the index stepped back after each run of module names. */
  method SplitArguments(args: seq<string>) returns (positionalArgs: seq<string>, modulesToAdd: seq<string>)
    ensures Split(positionalArgs, modulesToAdd) == SplitArgs(args)
  {
    positionalArgs, modulesToAdd := [], [];
    var i := 0;
    while i < |args|
      invariant 0 <= i <= |args|
      invariant SplitArgs(args).positional == positionalArgs + SplitFrom(args, i).positional
      invariant SplitArgs(args).modules == modulesToAdd + SplitFrom(args, i).modules
    {
      if Lower(args[i]) == Lower(AddModuleFlag) {
        FlagStep(args, i, modulesToAdd);
        i, modulesToAdd := CollectModules(args, i + 1, modulesToAdd);
        i := i - 1;
      } else {
        PositionalStep(args, i, positionalArgs);
        positionalArgs := positionalArgs + [args[i]];
      }
      i := i + 1;
    }
  }

  // ---------------------------------------------------------------------
  // Settling the request (lines 42-77).

  /** char.IsWhiteSpace: the ASCII controls and space, and Unicode's space, line and paragraph separators. */
  predicate IsWhiteSpace(c: char) {
    ('\U{0009}' <= c <= '\U{000D}') || c == ' ' || c == '\U{0085}' || c == '\U{00A0}' || c == '\U{1680}'
    || ('\U{2000}' <= c <= '\U{200A}') || c == '\U{2028}' || c == '\U{2029}' || c == '\U{202F}' || c == '\U{205F}'
    || c == '\U{3000}'
  }

  /** string.IsNullOrWhiteSpace. */
  predicate IsBlank(s: string) {
    forall k :: 0 <= k < |s| ==> IsWhiteSpace(s[k])
  }

  /** What Main hands to the generator, and whether it would prompt for modules. */
  datatype Request = Request(projectName: string, outputDirectory: string, modulesToAdd: seq<string>, promptForModules: bool)

  /** The InvalidOperationExceptions thrown in non-interactive mode. */
  datatype CliError = ProjectNameRequired | OutputDirectoryRequired

  /** Interactive unless `--non-interactive` is given exactly (ordinal, whole argument) or input is redirected. */
  predicate IsInteractive(args: seq<string>, inputRedirected: bool) {
    NonInteractiveFlag !in args && !inputRedirected
  }

  /**
   * Lines 42-77.  askedName and askedOutput are what the user would type at
   * the two prompts; baseDirectory is AppDomain.CurrentDomain.BaseDirectory.
   */
  function Resolve(args: seq<string>, inputRedirected: bool, askedName: string, askedOutput: string, baseDirectory: string): Result<Request, CliError> {
    var s := SplitArgs(args);
    var name := if |s.positional| > 0 then s.positional[0] else "";
    var output := if |s.positional| > 1 then s.positional[1] else "";
    var interactive := IsInteractive(args, inputRedirected);
    if IsBlank(name) && !interactive then Err(ProjectNameRequired)
    else
      var name' := if IsBlank(name) then askedName else name;
      if IsBlank(output) && !interactive then Err(OutputDirectoryRequired)
      else
        var output' := if !IsBlank(output) then output else if !IsBlank(askedOutput) then askedOutput else baseDirectory;
        Ok(Request(name', output', s.modules, |s.modules| == 0 && interactive))
  }

  /** Non-interactive runs succeed exactly when both positional values are present and not blank, and then use them as given. */
  lemma NonInteractiveNeedsBoth(args: seq<string>, inputRedirected: bool, askedName: string, askedOutput: string, baseDirectory: string)
    requires !IsInteractive(args, inputRedirected)
    ensures var s := SplitArgs(args);
      var r := Resolve(args, inputRedirected, askedName, askedOutput, baseDirectory);
      (r.Ok? <==> |s.positional| >= 2 && !IsBlank(s.positional[0]) && !IsBlank(s.positional[1]))
      && (r.Ok? ==> r.value == Request(s.positional[0], s.positional[1], s.modules, false))
      && (r.Err? && (|s.positional| == 0 || IsBlank(s.positional[0])) ==> r.error == ProjectNameRequired)
  {
    var s := SplitArgs(args);
    assert IsBlank("");
  }

  /**
   * Interactive runs always produce a request: a missing name is asked for,
   * a missing output folder is asked for and falls back to the base
   * directory, and modules are prompted for only when none was given.
   */
  lemma InteractiveAlwaysResolves(args: seq<string>, inputRedirected: bool, askedName: string, askedOutput: string, baseDirectory: string)
    requires IsInteractive(args, inputRedirected)
    ensures var s := SplitArgs(args);
      var r := Resolve(args, inputRedirected, askedName, askedOutput, baseDirectory);
      r.Ok?
      && r.value.projectName == (if |s.positional| > 0 && !IsBlank(s.positional[0]) then s.positional[0] else askedName)
      && r.value.outputDirectory == (if |s.positional| > 1 && !IsBlank(s.positional[1]) then s.positional[1]
                                     else if !IsBlank(askedOutput) then askedOutput else baseDirectory)
      && (!IsBlank(r.value.outputDirectory) || r.value.outputDirectory == baseDirectory)
      && r.value.modulesToAdd == s.modules
      && r.value.promptForModules == (|s.modules| == 0)
  {
  }

  /** `--non-interactive` is not a flag the splitter knows: it is taken as a positional value, here the project name. */
  lemma NonInteractiveFlagIsPositional()
    ensures Resolve([NonInteractiveFlag, "out"], false, "", "", "/")
      == Ok(Request(NonInteractiveFlag, "out", [], false))
  {
    var args := [NonInteractiveFlag, "out"];
    assert !IsAddModule(args[0]) by {
      assert Lower(args[0])[2] == 'n';
    }
    assert !IsAddModule(args[1]) by {
      assert |args[1]| != |AddModuleFlag|;
    }
    NoFlagAllPositional(args, 0);
    assert args[0..] == args;
    assert !IsBlank(args[0]) by {
      assert !IsWhiteSpace(args[0][0]);
    }
    assert !IsBlank(args[1]) by {
      assert !IsWhiteSpace(args[1][0]);
    }
  }

  /** Only the exact spelling switches interactive mode off. */
  lemma UpperCaseNonInteractiveIgnored()
    ensures IsInteractive(["--NON-INTERACTIVE"], false) && !IsInteractive([NonInteractiveFlag], false)
  {
    assert "--NON-INTERACTIVE" != NonInteractiveFlag by {
      assert "--NON-INTERACTIVE"[2] != NonInteractiveFlag[2];
    }
  }

  /** Main up to the hand-over to the generator, with the prompts' answers as parameters. */
  method ResolveRequest(args: seq<string>, inputRedirected: bool, askedName: string, askedOutput: string, baseDirectory: string)
    returns (r: Result<Request, CliError>)
    ensures r == Resolve(args, inputRedirected, askedName, askedOutput, baseDirectory)
  {
    var projectName := "";
    var outputDirectory := "";
    var positionalArgs, modulesToAdd := SplitArguments(args);
    if |positionalArgs| > 0 {
      projectName := positionalArgs[0];
    }
    if |positionalArgs| > 1 {
      outputDirectory := positionalArgs[1];
    }
    var isInteractiveMode := NonInteractiveFlag !in args && !inputRedirected;
    if IsBlank(projectName) {
      if isInteractiveMode {
        projectName := askedName;
      } else {
        return Err(ProjectNameRequired);
      }
    }
    if IsBlank(outputDirectory) {
      if isInteractiveMode {
        outputDirectory := askedOutput;
        if IsBlank(outputDirectory) {
          outputDirectory := baseDirectory;
        }
      } else {
        return Err(OutputDirectoryRequired);
      }
    }
    r := Ok(Request(projectName, outputDirectory, modulesToAdd, |modulesToAdd| == 0 && isInteractiveMode));
  }
}
