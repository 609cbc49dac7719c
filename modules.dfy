/*
 * Module handling in GenerateProjectAsync and AddModuleAsync: the table of
 * known modules keyed without regard to case, the removal of the `cms`
 * module when it was not asked for, the loop that adds the requested
 * modules, and the line filter applied to `.gitmodules`.  Git itself is not
 * modelled: a `git submodule add` is a function from the disk before it to
 * a failure or to the disk after it.
 */
module Modules {
  import opened Common
  import opened FileSystem

  /** One entry of the Modules section of the configuration. */
  datatype ModuleConfig = ModuleConfig(name: string, gitRepoUrl: string)

  /** ToDictionary throws ArgumentException when two names are equal ignoring case. */
  datatype ConfigError = DuplicateModule(name: string)

  /** What `git submodule add` did: failed with a message, or left the disk in this state. */
  datatype GitOutcome = GitFailed(error: string) | GitSucceeded(tree: Entries)

  /** The outcome of AddModuleAsync: how far it got, and whether git added the module. */
  datatype AddOutcome = AddOutcome(run: Run, added: bool)

  const CmsModule := "cms"
  const ModulesDir := "modules"
  const GitModulesFile := ".gitmodules"
  const CmsKeyword := "modules/cms"
  const NestedCoreFolder := "core"

  // ---------------------------------------------------------------------
  // The module table.

  /** config.Modules.ToDictionary(m => m.Name, m => m.GitRepoUrl, OrdinalIgnoreCase), keyed by the folded name. */
  function ModuleTable(ms: seq<ModuleConfig>): Result<map<string, string>, ConfigError>
    decreases |ms|
  {
    if ms == [] then Ok(map[])
    else
      var m := ms[|ms| - 1];
      match ModuleTable(ms[..|ms| - 1])
      case Err(x) => Err(x)
      case Ok(t) => if Lower(m.name) in t then Err(DuplicateModule(m.name)) else Ok(t[Lower(m.name) := m.gitRepoUrl])
  }

  /** The table of lines 24-26: empty when the configuration has no Modules section. */
  function AvailableModules(modules: Option<seq<ModuleConfig>>): Result<map<string, string>, ConfigError> {
    match modules
    case None => Ok(map[])
    case Some(ms) => ModuleTable(ms)
  }

  /** ContainsKey under OrdinalIgnoreCase. */
  predicate IsAvailable(table: map<string, string>, name: string) {
    Lower(name) in table
  }

  predicate DistinctIgnoringCase(ms: seq<ModuleConfig>) {
    forall i, j :: 0 <= i < j < |ms| ==> !EqualsIgnoreCase(ms[i].name, ms[j].name)
  }

  /** The table is built exactly when no two module names differ only in case. */
  lemma {:induction false} ModuleTableOkIffDistinct(ms: seq<ModuleConfig>)
    ensures ModuleTable(ms).Ok? <==> DistinctIgnoringCase(ms)
    decreases |ms|
  {
    if ms != [] {
      var init := ms[..|ms| - 1];
      var m := ms[|ms| - 1];
      ModuleTableOkIffDistinct(init);
      if ModuleTable(init).Ok? {
        ModuleTableKeys(init);
        if Lower(m.name) in ModuleTable(init).value {
          var i :| 0 <= i < |init| && Lower(init[i].name) == Lower(m.name);
          assert ms[i] == init[i];
        } else {
          assert DistinctIgnoringCase(ms) by {
            forall i, j | 0 <= i < j < |ms|
              ensures !EqualsIgnoreCase(ms[i].name, ms[j].name)
            {
              assert ms[i] == init[i];
              if j < |init| {
                assert ms[j] == init[j];
              } else {
                assert Lower(init[i].name) in ModuleTable(init).value;
              }
            }
          }
        }
      } else {
        assert !DistinctIgnoringCase(init);
        var i, j :| 0 <= i < j < |init| && EqualsIgnoreCase(init[i].name, init[j].name);
        assert ms[i] == init[i] && ms[j] == init[j];
      }
    }
  }

  /** The table's keys are exactly the folded module names. */
  lemma {:induction false} ModuleTableKeys(ms: seq<ModuleConfig>)
    requires ModuleTable(ms).Ok?
    ensures forall k :: k in ModuleTable(ms).value <==> exists i :: 0 <= i < |ms| && Lower(ms[i].name) == k
    decreases |ms|
  {
    if ms != [] {
      var init := ms[..|ms| - 1];
      var m := ms[|ms| - 1];
      ModuleTableKeys(init);
      var t := ModuleTable(init).value;
      assert ModuleTable(ms).value == t[Lower(m.name) := m.gitRepoUrl];
      forall k
        ensures k in ModuleTable(ms).value <==> exists i :: 0 <= i < |ms| && Lower(ms[i].name) == k
      {
        if k in t {
          var i :| 0 <= i < |init| && Lower(init[i].name) == k;
          assert ms[i] == init[i];
        }
        if exists i :: 0 <= i < |ms| && Lower(ms[i].name) == k {
          var i :| 0 <= i < |ms| && Lower(ms[i].name) == k;
          if i < |init| {
            assert ms[i] == init[i];
          }
        }
      }
    }
  }

  /** Each module's folded name maps to that module's repository. */
  lemma {:induction false} ModuleTableValues(ms: seq<ModuleConfig>)
    requires ModuleTable(ms).Ok?
    ensures forall i :: 0 <= i < |ms| ==>
      Lower(ms[i].name) in ModuleTable(ms).value && ModuleTable(ms).value[Lower(ms[i].name)] == ms[i].gitRepoUrl
    decreases |ms|
  {
    if ms != [] {
      var init := ms[..|ms| - 1];
      var m := ms[|ms| - 1];
      ModuleTableValues(init);
      var t := ModuleTable(init).value;
      assert ModuleTable(ms).value == t[Lower(m.name) := m.gitRepoUrl];
      forall i | 0 <= i < |ms|
        ensures Lower(ms[i].name) in ModuleTable(ms).value && ModuleTable(ms).value[Lower(ms[i].name)] == ms[i].gitRepoUrl
      {
        if i < |init| {
          assert ms[i] == init[i];
          assert Lower(init[i].name) in t;
        }
      }
    }
  }

  /** A name is recognised exactly when some configured module has that name up to case, and it maps to that module's repository. */
  lemma ModuleLookup(ms: seq<ModuleConfig>, name: string)
    requires ModuleTable(ms).Ok?
    ensures IsAvailable(ModuleTable(ms).value, name) <==> exists i :: 0 <= i < |ms| && EqualsIgnoreCase(ms[i].name, name)
    ensures forall i :: 0 <= i < |ms| && EqualsIgnoreCase(ms[i].name, name) ==>
      ModuleTable(ms).value[Lower(name)] == ms[i].gitRepoUrl
  {
    ModuleTableKeys(ms);
    ModuleTableValues(ms);
  }

  /** modulesToAdd.Any(m => m.Equals("cms", OrdinalIgnoreCase)). */
  predicate CmsRequested(modulesToAdd: seq<string>) {
    exists i :: 0 <= i < |modulesToAdd| && EqualsIgnoreCase(modulesToAdd[i], CmsModule)
  }

  // ---------------------------------------------------------------------
  // The `.gitmodules` line filter.

  /** lines.RemoveAll(line => line.Contains(keyword, OrdinalIgnoreCase)). */
  function RemoveLinesContaining(lines: seq<string>, keyword: string): (r: seq<string>)
    ensures forall i :: 0 <= i < |r| ==> !ContainsIgnoreCase(r[i], keyword)
    decreases |lines|
  {
    if lines == [] then []
    else
      var rest := RemoveLinesContaining(lines[1..], keyword);
      if ContainsIgnoreCase(lines[0], keyword) then rest else [lines[0]] + rest
  }

  /**
   * The filter works line by line: filtering a concatenation filters each
   * part, so the kept lines stay in their order.
   */
  lemma {:induction false} RemoveLinesDistributes(xs: seq<string>, ys: seq<string>, keyword: string)
    ensures RemoveLinesContaining(xs + ys, keyword) == RemoveLinesContaining(xs, keyword) + RemoveLinesContaining(ys, keyword)
    decreases |xs|
  {
    if xs == [] {
      assert xs + ys == ys;
    } else {
      RemoveLinesDistributes(xs[1..], ys, keyword);
      assert (xs + ys)[0] == xs[0] && (xs + ys)[1..] == xs[1..] + ys;
    }
  }

  /** Exactly the lines mentioning the keyword go: every other line keeps all its copies. */
  lemma {:induction false} RemoveLinesCounts(lines: seq<string>, keyword: string, l: string)
    ensures multiset(RemoveLinesContaining(lines, keyword))[l] ==
      if ContainsIgnoreCase(l, keyword) then 0 else multiset(lines)[l]
    decreases |lines|
  {
    if lines != [] {
      RemoveLinesCounts(lines[1..], keyword, l);
      assert lines == [lines[0]] + lines[1..];
    }
  }

  /** Filtering twice removes nothing more. */
  lemma {:induction false} RemoveLinesIdempotent(lines: seq<string>, keyword: string)
    ensures RemoveLinesContaining(RemoveLinesContaining(lines, keyword), keyword) == RemoveLinesContaining(lines, keyword)
  {
    RemoveLinesUnchanged(RemoveLinesContaining(lines, keyword), keyword);
  }

  /** The lines stay as they are exactly when none mentions the keyword. */
  lemma {:induction false} RemoveLinesUnchanged(lines: seq<string>, keyword: string)
    ensures RemoveLinesContaining(lines, keyword) == lines <==> forall i :: 0 <= i < |lines| ==> !ContainsIgnoreCase(lines[i], keyword)
    decreases |lines|
  {
    if lines != [] {
      RemoveLinesUnchanged(lines[1..], keyword);
      if ContainsIgnoreCase(lines[0], keyword) {
        var r := RemoveLinesContaining(lines, keyword);
        assert |r| < |lines| by {
          RemoveLinesShrinks(lines[1..], keyword);
        }
      }
    }
  }

  lemma {:induction false} RemoveLinesShrinks(lines: seq<string>, keyword: string)
    ensures |RemoveLinesContaining(lines, keyword)| <= |lines|
    decreases |lines|
  {
    if lines != [] {
      RemoveLinesShrinks(lines[1..], keyword);
    }
  }

  /** The file's lines filtered and written back, when the file exists (lines 50-56 and 121-127). */
  function FilteredLinesFile(e: Entries, path: string, keyword: string): (r: Run)
    ensures forall p :: p in e ==> p in r.entries
    ensures forall p :: p in r.entries && p != path ==> p in e && r.entries[p] == e[p]
    ensures IsFile(r.entries, path) ==> IsFile(e, path)
  {
    if !IsFile(e, path) then Run(e, None)
    else Step(WriteAllText(e, path, Unlines(RemoveLinesContaining(Lines(e[path].content), keyword))), e)
  }

  /** Read back, the filtered file holds exactly the old lines that do not mention the keyword. */
  lemma FilteredFileReadsBack(e: Entries, path: string, keyword: string)
    requires IsFile(e, path)
    ensures var r := FilteredLinesFile(e, path, keyword);
      r.failure.None? ==> (IsFile(r.entries, path)
        && Lines(r.entries[path].content) == RemoveLinesContaining(Lines(e[path].content), keyword))
  {
    var lines := Lines(e[path].content);
    var kept := RemoveLinesContaining(lines, keyword);
    LinesHaveNoBreaks(e[path].content);
    forall i | 0 <= i < |kept|
      ensures NoBreaks(kept[i])
    {
      RemoveLinesCounts(lines, keyword, kept[i]);
      assert kept[i] in multiset(kept);
      assert kept[i] in multiset(lines);
    }
    LinesOfUnlines(kept);
  }

  /** ReadAllLines, RemoveAll, WriteAllLines on a file that may be absent. */
  method RemoveLinesFromFile(disk: Disk, path: string, keyword: string) returns (err: Option<IoError>)
    modifies disk
    ensures Run(disk.entries, err) == FilteredLinesFile(old(disk.entries), path, keyword)
  {
    err := None;
    if disk.FileExists(path) {
      var content, _ := disk.ReadText(path);
      var lines := Lines(content);
      lines := RemoveLinesContaining(lines, keyword);
      err := disk.WriteText(path, Unlines(lines));
    }
  }

  // ---------------------------------------------------------------------
  // Removing `cms` when it was not requested (lines 38-57).

  function CmsPath(tempDir: string): string {
    ModuleFolder(tempDir, CmsModule)
  }

  function GitModulesPath(tempDir: string): string {
    PathCombine(tempDir, GitModulesFile)
  }

  function CmsCleanup(e: Entries, tempDir: string, modulesToAdd: seq<string>): (r: Run)
    ensures CmsRequested(modulesToAdd) ==> r == Run(e, None)
  {
    if CmsRequested(modulesToAdd) then Run(e, None)
    else
      var r := if IsDir(e, CmsPath(tempDir)) then Step(DeleteTree(e, CmsPath(tempDir)), e) else Run(e, None);
      if r.failure.Some? then r else FilteredLinesFile(r.entries, GitModulesPath(tempDir), CmsKeyword)
  }

  /** `.gitmodules` lies outside the cms module folder: both sit in the working copy, under different names. */
  lemma GitModulesOutsideCms(tempDir: string)
    ensures !Within(GitModulesPath(tempDir), CmsPath(tempDir))
  {
    var t := WithSeparator(tempDir);
    var g := GitModulesPath(tempDir);
    var md := ModulesDirectory(tempDir);
    var cms := CmsPath(tempDir);
    assert g == t + GitModulesFile;
    assert md == t + ModulesDir;
    assert md[|md| - 1] == 's';
    assert cms == md + "/" + CmsModule;
    assert |g| == |t| + 11 && |cms| == |t| + 11;
    assert g[|t|] == '.' && cms[|t|] == md[|t|] == 'm';
    assert !Under(g, cms);
  }

  /** `.gitmodules` is never the nested core folder itself: one ends in `.gitmodules`, the other in `core`. */
  lemma GitModulesIsNotNestedCore(tempDir: string, name: string)
    ensures GitModulesPath(tempDir) != NestedCorePath(tempDir, name)
    ensures NestedCorePath(tempDir, name) != []
  {
    var g := GitModulesPath(tempDir);
    var n := NestedCorePath(tempDir, name);
    assert g[|g| - 1] == 's';
    assert n[|n| - 1] == 'e';
  }

  /** Without `cms` among the requested modules, no cms folder is left and nothing below it. */
  lemma CmsCleanupClearsFolder(e: Entries, tempDir: string, modulesToAdd: seq<string>)
    requires WellFormed(e) && !CmsRequested(modulesToAdd)
    ensures var r := CmsCleanup(e, tempDir, modulesToAdd);
      r.failure.None? ==> (!IsDir(r.entries, CmsPath(tempDir)) && forall p :: p in r.entries ==> !Under(p, CmsPath(tempDir)))
  {
    var cms := CmsPath(tempDir);
    var g := GitModulesPath(tempDir);
    GitModulesOutsideCms(tempDir);
    var r1 := if IsDir(e, cms) then Step(DeleteTree(e, cms), e) else Run(e, None);
    var r := CmsCleanup(e, tempDir, modulesToAdd);
    if r.failure.None? {
      assert r == FilteredLinesFile(r1.entries, g, CmsKeyword);
      assert cms != [];
      assert forall p :: p in r1.entries ==> !Under(p, cms);
    }
  }

  /** Without `cms` among the requested modules, `.gitmodules` keeps exactly its lines that do not mention `modules/cms`. */
  lemma CmsCleanupFiltersGitModules(e: Entries, tempDir: string, modulesToAdd: seq<string>)
    requires !CmsRequested(modulesToAdd) && IsFile(e, GitModulesPath(tempDir))
    ensures var r := CmsCleanup(e, tempDir, modulesToAdd);
      r.failure.None? ==> (IsFile(r.entries, GitModulesPath(tempDir))
        && Lines(r.entries[GitModulesPath(tempDir)].content) == RemoveLinesContaining(Lines(e[GitModulesPath(tempDir)].content), CmsKeyword))
  {
    var cms := CmsPath(tempDir);
    var g := GitModulesPath(tempDir);
    GitModulesOutsideCms(tempDir);
    var r1 := if IsDir(e, cms) then Step(DeleteTree(e, cms), e) else Run(e, None);
    if r1.failure.None? {
      assert g in r1.entries && r1.entries[g] == e[g];
      FilteredFileReadsBack(r1.entries, g, CmsKeyword);
    }
  }

  /** The cleanup method: the cms folder deleted, then the `.gitmodules` filter. */
  method RemoveUnrequestedCms(disk: Disk, tempDir: string, modulesToAdd: seq<string>) returns (err: Option<IoError>)
    modifies disk
    ensures Run(disk.entries, err) == CmsCleanup(old(disk.entries), tempDir, modulesToAdd)
  {
    err := None;
    if !CmsRequested(modulesToAdd) {
      var cmsModulePath := CmsPath(tempDir);
      if disk.DirectoryExists(cmsModulePath) {
        err := disk.DeleteFolder(cmsModulePath);
        if err.Some? {
          return;
        }
      }
      err := RemoveLinesFromFile(disk, GitModulesPath(tempDir), CmsKeyword);
    }
  }

  // ---------------------------------------------------------------------
  // Adding modules (lines 62-75 and 90-135).

  /** The folder the modules are added under. */
  function ModulesDirectory(tempDir: string): string {
    PathCombine(tempDir, ModulesDir)
  }

  /** Path.Combine(tempDir, "modules", name): the three-part Combine joins the parts left to right. */
  function ModuleFolder(tempDir: string, name: string): string {
    PathCombine(ModulesDirectory(tempDir), name)
  }

  /** Path.Combine("modules", name): the path handed to git, relative to the working copy unless the name is rooted. */
  function ModulePath(name: string): string {
    PathCombine(ModulesDir, name)
  }

  /** The `.gitmodules` lines that declare a module's nested core submodule: the path is interpolated, not combined. */
  function NestedCoreKeyword(name: string): string {
    "path = " + ModulePath(name) + "/core"
  }

  /** Path.Combine(tempDir, modulePath, "core"). */
  function NestedCorePath(tempDir: string, name: string): string {
    PathCombine(PathCombine(tempDir, ModulePath(name)), NestedCoreFolder)
  }

  /** Path.Combine places a plain module name inside the modules folder of the working copy. */
  lemma PlainModuleInsideModules(tempDir: string, name: string)
    requires name != [] && name[0] != '/'
    ensures ModuleFolder(tempDir, name) == WithSeparator(tempDir) + ModulesDir + "/" + name
    ensures ModulePath(name) == ModulesDir + "/" + name
  {
    var md := ModulesDirectory(tempDir);
    assert md == WithSeparator(tempDir) + ModulesDir;
    assert md[|md| - 1] == 's';
  }

  /** Path.Combine ignores an empty part: an empty module name is the modules folder itself. */
  lemma EmptyModuleNameIsModules(tempDir: string)
    ensures ModuleFolder(tempDir, "") == ModulesDirectory(tempDir)
    ensures ModulePath("") == ModulesDir
  {
  }

  /** Path.Combine keeps a rooted part alone: a rooted module name leaves the working copy. */
  lemma RootedModuleNameEscapes(tempDir: string, name: string)
    requires name != [] && name[0] == '/'
    ensures ModuleFolder(tempDir, name) == name
    ensures NestedCorePath(tempDir, name) == WithSeparator(name) + NestedCoreFolder
  {
    assert ModulePath(name) == name;
    assert PathCombine(tempDir, name) == name;
  }

  /**
   * AddModuleAsync: the modules folder is created if needed; git adds the
   * submodule; on success the nested core entry is filtered out of
   * `.gitmodules` and the nested core folder deleted.  A git failure is
   * reported, not thrown.
   */
  function AddModuleSpec(e: Entries, tempDir: string, name: string, url: string,
                         git: (string, string, Entries) -> GitOutcome): AddOutcome
  {
    var modulesDirectory := ModulesDirectory(tempDir);
    var r := if !IsDir(e, modulesDirectory) then Step(CreateDirectory(e, modulesDirectory), e) else Run(e, None);
    if r.failure.Some? then AddOutcome(r, false)
    else
      match git(name, url, r.entries)
      case GitFailed(_) => AddOutcome(r, false)
      case GitSucceeded(tree) =>
        var f := FilteredLinesFile(tree, GitModulesPath(tempDir), NestedCoreKeyword(name));
        if f.failure.Some? || !IsDir(f.entries, NestedCorePath(tempDir, name)) then AddOutcome(f, true)
        else AddOutcome(Step(DeleteTree(f.entries, NestedCorePath(tempDir, name)), f.entries), true)
  }

  /** A git failure leaves the disk as it was once the modules folder exists, and adds nothing. */
  lemma GitFailureAddsNothing(e: Entries, tempDir: string, name: string, url: string,
                              git: (string, string, Entries) -> GitOutcome)
    requires IsDir(e, ModulesDirectory(tempDir)) && git(name, url, e).GitFailed?
    ensures AddModuleSpec(e, tempDir, name, url, git) == AddOutcome(Run(e, None), false)
  {
  }

  /** What a successful add leaves: the filtered disk, less the nested core folder when there is one. */
  function AddedRun(f: Run, nested: string): Run {
    if f.failure.Some? || !IsDir(f.entries, nested) then f else Step(DeleteTree(f.entries, nested), f.entries)
  }

  lemma AddedModuleRun(e: Entries, tempDir: string, name: string, url: string,
                       git: (string, string, Entries) -> GitOutcome)
    ensures var out := AddModuleSpec(e, tempDir, name, url, git);
      var modulesDirectory := ModulesDirectory(tempDir);
      var r := if !IsDir(e, modulesDirectory) then Step(CreateDirectory(e, modulesDirectory), e) else Run(e, None);
      out.added ==>
        (r.failure.None? && git(name, url, r.entries).GitSucceeded?
         && out.run == AddedRun(FilteredLinesFile(git(name, url, r.entries).tree, GitModulesPath(tempDir), NestedCoreKeyword(name)),
                                NestedCorePath(tempDir, name)))
  {
  }

  /**
   * After a successful add, the module has no nested core folder and nothing
   * below where it was, provided git leaves a disk whose folders hold what
   * lies below them.
   */
  lemma AddedModuleHasNoNestedCore(e: Entries, tempDir: string, name: string, url: string,
                                   git: (string, string, Entries) -> GitOutcome)
    requires forall x :: git(name, url, x).GitSucceeded? ==> WellFormed(git(name, url, x).tree)
    ensures var out := AddModuleSpec(e, tempDir, name, url, git);
      out.added && out.run.failure.None? ==>
        (!IsDir(out.run.entries, NestedCorePath(tempDir, name))
         && forall p :: p in out.run.entries ==> !Under(p, NestedCorePath(tempDir, name)))
  {
    var out := AddModuleSpec(e, tempDir, name, url, git);
    var nested := NestedCorePath(tempDir, name);
    var g := GitModulesPath(tempDir);
    if out.added && out.run.failure.None? {
      var modulesDirectory := ModulesDirectory(tempDir);
      var r := if !IsDir(e, modulesDirectory) then Step(CreateDirectory(e, modulesDirectory), e) else Run(e, None);
      var tree := git(name, url, r.entries).tree;
      assert WellFormed(tree);
      var f := FilteredLinesFile(tree, g, NestedCoreKeyword(name));
      GitModulesIsNotNestedCore(tempDir, name);
      AddedModuleRun(e, tempDir, name, url, git);
      assert out.run == AddedRun(f, nested);
      if !IsDir(f.entries, nested) {
        assert out.run.entries == f.entries;
        assert nested != [] && !IsDir(tree, nested);
        assert forall p :: p in tree ==> !Under(p, nested);
      }
    }
  }

  /** After a successful add, `.gitmodules`, if there is one, declares no nested core submodule of the module. */
  lemma AddedModuleDropsNestedCoreEntry(e: Entries, tempDir: string, name: string, url: string,
                                        git: (string, string, Entries) -> GitOutcome)
    ensures var out := AddModuleSpec(e, tempDir, name, url, git);
      out.added && out.run.failure.None? && IsFile(out.run.entries, GitModulesPath(tempDir)) ==>
        forall i :: 0 <= i < |Lines(out.run.entries[GitModulesPath(tempDir)].content)| ==>
          !ContainsIgnoreCase(Lines(out.run.entries[GitModulesPath(tempDir)].content)[i], NestedCoreKeyword(name))
  {
    var out := AddModuleSpec(e, tempDir, name, url, git);
    var nested := NestedCorePath(tempDir, name);
    var g := GitModulesPath(tempDir);
    if out.added && out.run.failure.None? && IsFile(out.run.entries, g) {
      var modulesDirectory := ModulesDirectory(tempDir);
      var r := if !IsDir(e, modulesDirectory) then Step(CreateDirectory(e, modulesDirectory), e) else Run(e, None);
      var tree := git(name, url, r.entries).tree;
      var f := FilteredLinesFile(tree, g, NestedCoreKeyword(name));
      AddedModuleRun(e, tempDir, name, url, git);
      assert out.run == AddedRun(f, nested);
      if IsDir(f.entries, nested) {
        assert g in f.entries && out.run.entries[g] == f.entries[g];
      }
      assert IsFile(f.entries, g);
      assert IsFile(tree, g);
      FilteredFileReadsBack(tree, g, NestedCoreKeyword(name));
    }
  }

  /** The loop over the requested modules: what it printed as warnings, and how far it got. */
  datatype AddAll = AddAll(run: Run, warnings: seq<string>)

  /**
   * foreach module: an unknown name is warned about and skipped; a known
   * one is added unless its folder already exists.
   */
  function AddModulesSpec(e: Entries, tempDir: string, mods: seq<string>, table: map<string, string>,
                          git: (string, string, Entries) -> GitOutcome): AddAll
    decreases |mods|
  {
    if mods == [] then AddAll(Run(e, None), [])
    else
      var m := mods[0];
      if !IsAvailable(table, m) then
        var rest := AddModulesSpec(e, tempDir, mods[1..], table, git);
        AddAll(rest.run, [m] + rest.warnings)
      else
        var a := AddIfMissing(e, tempDir, m, table[Lower(m)], git);
        if a.failure.Some? then AddAll(a, [])
        else AddModulesSpec(a.entries, tempDir, mods[1..], table, git)
  }

  /** A known module is added only when its folder is not there yet (lines 71-74). */
  function AddIfMissing(e: Entries, tempDir: string, name: string, url: string,
                        git: (string, string, Entries) -> GitOutcome): (r: Run)
    ensures IsDir(e, ModuleFolder(tempDir, name)) ==> r == Run(e, None)
  {
    if IsDir(e, ModuleFolder(tempDir, name)) then Run(e, None)
    else AddModuleSpec(e, tempDir, name, url, git).run
  }

  /** The requested names the table does not know, in order. */
  function Unrecognised(mods: seq<string>, table: map<string, string>): seq<string>
    decreases |mods|
  {
    if mods == [] then []
    else if IsAvailable(table, mods[0]) then Unrecognised(mods[1..], table)
    else [mods[0]] + Unrecognised(mods[1..], table)
  }

  /** A loop that ran to the end warned about exactly the unknown names, in the order they were requested. */
  lemma {:induction false} WarningsAreUnrecognised(e: Entries, tempDir: string, mods: seq<string>,
                                                   table: map<string, string>, git: (string, string, Entries) -> GitOutcome)
    ensures var out := AddModulesSpec(e, tempDir, mods, table, git);
      out.run.failure.None? ==> out.warnings == Unrecognised(mods, table)
    decreases |mods|
  {
    if mods != [] {
      var m := mods[0];
      if !IsAvailable(table, m) {
        WarningsAreUnrecognised(e, tempDir, mods[1..], table, git);
      } else {
        var a := AddIfMissing(e, tempDir, m, table[Lower(m)], git);
        if a.failure.None? {
          WarningsAreUnrecognised(a.entries, tempDir, mods[1..], table, git);
        }
      }
    }
  }

  /** Names the table does not know never reach git or the disk. */
  lemma {:induction false} UnknownModulesChangeNothing(e: Entries, tempDir: string, mods: seq<string>,
                                                       table: map<string, string>, git: (string, string, Entries) -> GitOutcome)
    requires forall i :: 0 <= i < |mods| ==> !IsAvailable(table, mods[i])
    ensures AddModulesSpec(e, tempDir, mods, table, git) == AddAll(Run(e, None), mods)
    decreases |mods|
  {
    if mods != [] {
      UnknownModulesChangeNothing(e, tempDir, mods[1..], table, git);
      assert mods == [mods[0]] + mods[1..];
    }
  }

  /** AddModuleAsync, statement by statement. */
  method AddModule(disk: Disk, tempDir: string, name: string, url: string,
                   git: (string, string, Entries) -> GitOutcome) returns (added: bool, err: Option<IoError>)
    modifies disk
    ensures AddOutcome(Run(disk.entries, err), added) == AddModuleSpec(old(disk.entries), tempDir, name, url, git)
  {
    added, err := false, None;
    var modulesDirectory := ModulesDirectory(tempDir);
    if !disk.DirectoryExists(modulesDirectory) {
      err := disk.CreateFolder(modulesDirectory);
      if err.Some? {
        return;
      }
    }
    var result := git(name, url, disk.entries);
    if result.GitFailed? {
      return;
    }
    added := true;
    disk.entries := result.tree;
    err := RemoveLinesFromFile(disk, GitModulesPath(tempDir), NestedCoreKeyword(name));
    if err.Some? {
      return;
    }
    var nestedSubmodulePath := NestedCorePath(tempDir, name);
    if disk.DirectoryExists(nestedSubmodulePath) {
      err := disk.DeleteFolder(nestedSubmodulePath);
    }
  }

  /** A name the table does not know is warned about and the loop goes on with the same disk. */
  lemma UnknownModuleStep(e: Entries, tempDir: string, mods: seq<string>, i: nat, table: map<string, string>,
                          git: (string, string, Entries) -> GitOutcome)
    requires i < |mods| && !IsAvailable(table, mods[i])
    ensures var rest := AddModulesSpec(e, tempDir, mods[i + 1..], table, git);
      AddModulesSpec(e, tempDir, mods[i..], table, git) == AddAll(rest.run, [mods[i]] + rest.warnings)
  {
    assert mods[i..][1..] == mods[i + 1..] && mods[i..][0] == mods[i];
  }

  lemma AppendAssociates(a: seq<string>, b: seq<string>, c: seq<string>)
    ensures a + (b + c) == (a + b) + c
  {
  }

  /** A known name is added if its folder is missing; a failure ends the loop. */
  lemma KnownModuleStep(e: Entries, tempDir: string, mods: seq<string>, i: nat, table: map<string, string>,
                        git: (string, string, Entries) -> GitOutcome)
    requires i < |mods| && IsAvailable(table, mods[i])
    ensures var a := AddIfMissing(e, tempDir, mods[i], table[Lower(mods[i])], git);
      AddModulesSpec(e, tempDir, mods[i..], table, git)
        == if a.failure.Some? then AddAll(a, []) else AddModulesSpec(a.entries, tempDir, mods[i + 1..], table, git)
  {
    assert mods[i..][1..] == mods[i + 1..] && mods[i..][0] == mods[i];
  }

  /** The foreach of lines 62-75, with `continue` for unknown names. */
  method AddRequestedModules(disk: Disk, tempDir: string, modulesToAdd: seq<string>, table: map<string, string>,
                             git: (string, string, Entries) -> GitOutcome) returns (warnings: seq<string>, err: Option<IoError>)
    modifies disk
    ensures AddAll(Run(disk.entries, err), warnings) == AddModulesSpec(old(disk.entries), tempDir, modulesToAdd, table, git)
  {
    warnings, err := [], None;
    ghost var start := disk.entries;
    var i := 0;
    while i < |modulesToAdd|
      invariant 0 <= i <= |modulesToAdd|
      invariant AddModulesSpec(start, tempDir, modulesToAdd, table, git).run
        == AddModulesSpec(disk.entries, tempDir, modulesToAdd[i..], table, git).run
      invariant AddModulesSpec(start, tempDir, modulesToAdd, table, git).warnings
        == warnings + AddModulesSpec(disk.entries, tempDir, modulesToAdd[i..], table, git).warnings
    {
      var name := modulesToAdd[i];
      var moduleFolder := ModuleFolder(tempDir, name);
      if !IsAvailable(table, name) {
        UnknownModuleStep(disk.entries, tempDir, modulesToAdd, i, table, git);
        AppendAssociates(warnings, [name], AddModulesSpec(disk.entries, tempDir, modulesToAdd[i + 1..], table, git).warnings);
        warnings := warnings + [name];
      } else {
        KnownModuleStep(disk.entries, tempDir, modulesToAdd, i, table, git);
        if !disk.DirectoryExists(moduleFolder) {
          var _, failure := AddModule(disk, tempDir, name, table[Lower(name)], git);
          if failure.Some? {
            return warnings, failure;
          }
        }
      }
      i := i + 1;
    }
  }
}
