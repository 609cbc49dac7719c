/*
 * The rename pass RenameProjectAsync and RenameModulesAsync run over a
 * folder of the cloned template: first every folder, shortest path first,
 * is moved to its renamed path; then every file is rewritten, renamed, and
 * deleted when it is a `.sln.DotSettings` file.  The two source methods run
 * the same two loops over different roots; RenameTree is that shared body.
 */
module TreeRenamer {
  import opened Common
  import opened Scanner
  import opened Rewriter
  import opened ContentRules
  import opened SkipPolicy
  import opened FileSystem

  const DotSettingsSuffix := ".sln.DotSettings"
  const ModulesFolder := "modules"

  /** string.Replace on a path: every non-overlapping ordinal occurrence, from the left. */
  function RenamedPath(path: string, oldName: string, newName: string): (r: string)
    requires oldName != []
    ensures !Contains(path, oldName) ==> r == path
  {
    var r := Rewrite(Literal(oldName, newName, false), path);
    assert !Contains(path, oldName) ==> r == path by {
      if !Contains(path, oldName) {
        RewriteWithoutOccurrence(oldName, newName, false, path);
      }
    }
    r
  }

  /** Every ordinal occurrence of OLD in the path is replaced by NEW, leftmost first and without overlap. */
  lemma RenamedPathReplacesOccurrences(path: string, oldName: string, newName: string)
    requires oldName != []
    ensures SplicesMatches(Literal(oldName, newName, false), path, RenamedPath(path, oldName, newName))
    ensures forall i: nat :: HitsAt(path, MatcherOf(Literal(oldName, newName, false), path), i) <==> OccursAt(path, oldName, i)
    ensures forall i: nat :: HitsAt(path, MatcherOf(Literal(oldName, newName, false), path), i) ==>
              MatcherOf(Literal(oldName, newName, false), path)(i).value == Hit(|oldName|, newName)
  {
    RewriteIsSplice(Literal(oldName, newName, false), path);
    LiteralMatchesAreOccurrences(path, oldName, newName, false);
  }

  /** A file inside a folder whose name ends in `.Core`: `Baz/Foo.Core/B.txt`. */
  const CoreFolderDir := "Baz/"
  const CoreFolderRest := ".Core/B.txt"
  const CoreFolderFile := CoreFolderDir + "Foo" + CoreFolderRest

  /**
   * A file inside a folder whose name ends in `.Core` is not skipped, so the
   * file pass moves it: `Baz/Foo.Core/B.txt` becomes `Baz/Baz.Core/B.txt`.
   */
  lemma CoreSuffixFolderFileRenamed()
    ensures !ShouldSkipPath(CoreFolderFile)
    ensures RenamedPath(CoreFolderFile, "Foo", "Baz") == CoreFolderDir + "Baz" + CoreFolderRest
  {
    CoreFolderFileKept();
    var s := CoreFolderFile;
    var m := MatcherOf(Literal("Foo", "Baz", false), s);
    LiteralMatchesAreOccurrences(s, "Foo", "Baz", false);
    FooOnlyAtFour();
    ScanSingleMatch(s, m, 4);
    assert m(4).value == Hit(3, "Baz") && SpanEnd(s, m, 4) == 7;
    assert s[..4] == CoreFolderDir && s[7..] == CoreFolderRest;
  }

  /** The path holds no skip marker and does not end in `.Core`. */
  lemma CoreFolderFileKept()
    ensures !ShouldSkipPath(CoreFolderFile)
  {
    CoreFolderFileSpelled();
    var s := "Baz/Foo.Core/B.txt";
    forall i: nat ensures !OccursAt(s, ".git", i) && !OccursAt(s, "tests", i) && !OccursAt(s, "bin", i)
      && !OccursAt(s, "obj", i) && !OccursAt(s, CoreSegment, i)
    {
      NoMarkerAt(s, i);
    }
  }

  /** The example path, character by character. */
  lemma CoreFolderFileSpelled()
    ensures CoreFolderFile == "Baz/Foo.Core/B.txt"
  {
    var s := CoreFolderFile;
    var t := "Baz/Foo.Core/B.txt";
    assert |s| == |t|;
    forall k | 0 <= k < |s|
      ensures s[k] == t[k]
    {
    }
  }

  /** `Foo` occurs in CoreFolderFile at index 4 and nowhere else. */
  lemma FooOnlyAtFour()
    ensures forall q: nat :: OccursAt(CoreFolderFile, "Foo", q) <==> q == 4
  {
    var s := CoreFolderFile;
    forall q: nat
      ensures OccursAt(s, "Foo", q) <==> q == 4
    {
      if OccursAt(s, "Foo", q) {
        assert s[q..q + 3][0] == 'F' && s[q] == 'F';
      }
    }
  }

  // ---------------------------------------------------------------------
  // OrderBy(d => d.Length): a stable sort on path length.

  predicate SortedByLength(ps: seq<string>) {
    forall i, j :: 0 <= i < j < |ps| ==> |ps[i]| <= |ps[j]|
  }

  /** x placed after every element of `sorted` no longer than itself. */
  function InsertByLength(sorted: seq<string>, x: string): seq<string> {
    if sorted == [] || |sorted[|sorted| - 1]| <= |x| then sorted + [x]
    else InsertByLength(sorted[..|sorted| - 1], x) + [sorted[|sorted| - 1]]
  }

  function SortByLength(ps: seq<string>): seq<string> {
    if ps == [] then [] else InsertByLength(SortByLength(ps[..|ps| - 1]), ps[|ps| - 1])
  }

  /** Inserting adds x to the elements and nothing else. */
  lemma {:induction false} InsertByLengthElements(sorted: seq<string>, x: string)
    ensures multiset(InsertByLength(sorted, x)) == multiset(sorted) + multiset{x}
    ensures |InsertByLength(sorted, x)| == |sorted| + 1
    decreases |sorted|
  {
    if sorted != [] && |sorted[|sorted| - 1]| > |x| {
      var init := sorted[..|sorted| - 1];
      InsertByLengthElements(init, x);
      assert sorted == init + [sorted[|sorted| - 1]];
    }
  }

  lemma {:induction false} InsertByLengthSorted(sorted: seq<string>, x: string)
    requires SortedByLength(sorted)
    ensures SortedByLength(InsertByLength(sorted, x))
    decreases |sorted|
  {
    if sorted != [] && |sorted[|sorted| - 1]| > |x| {
      var init := sorted[..|sorted| - 1];
      var last := sorted[|sorted| - 1];
      InsertByLengthSorted(init, x);
      InsertByLengthElements(init, x);
      var r := InsertByLength(init, x);
      forall i | 0 <= i < |r|
        ensures |r[i]| <= |last|
      {
        assert r[i] in multiset(init) + multiset{x} by {
          assert r[i] in multiset(r);
        }
        if r[i] != x {
          var k :| 0 <= k < |init| && init[k] == r[i];
          assert sorted[k] == r[i];
        }
      }
    }
  }

  /** The directory loop visits the listing shortest path first, and visits each listed path exactly once. */
  lemma {:induction false} SortByLengthOrders(ps: seq<string>)
    ensures SortedByLength(SortByLength(ps))
    ensures multiset(SortByLength(ps)) == multiset(ps)
    decreases |ps|
  {
    if ps != [] {
      var init := ps[..|ps| - 1];
      SortByLengthOrders(init);
      InsertByLengthElements(SortByLength(init), ps[|ps| - 1]);
      InsertByLengthSorted(SortByLength(init), ps[|ps| - 1]);
      assert ps == init + [ps[|ps| - 1]];
    }
  }

  // ---------------------------------------------------------------------
  // The two loops, one iteration at a time.

  /** One turn of the folder loop: a folder not skipped is moved to its renamed path unless a folder is already there. */
  function DirStep(e: Entries, d: string, oldName: string, newName: string): (r: Run)
    requires oldName != []
    ensures r.entries != e ==>
      (!ShouldSkipPath(d) && RenamedPath(d, oldName, newName) != d && RenamedPath(d, oldName, newName) !in e)
    ensures forall p :: p in e && !Within(p, d) ==> p in r.entries && r.entries[p] == e[p]
  {
    if ShouldSkipPath(d) then Run(e, None)
    else
      var nd := RenamedPath(d, oldName, newName);
      if d != nd && !IsDir(e, nd) then Step(DirectoryMove(e, d, nd), e) else Run(e, None)
  }

  /** The folder loop over ds, stopping at the first exception. */
  function DirPass(e: Entries, ds: seq<string>, oldName: string, newName: string): Run
    requires oldName != []
    decreases |ds|
  {
    if ds == [] then Run(e, None)
    else
      var r := DirStep(e, ds[0], oldName, newName);
      if r.failure.Some? then r else DirPass(r.entries, ds[1..], oldName, newName)
  }

  /**
   * RenameFileContentsAsync: the file is read, its contents rewritten and
   * written back; then, if the renamed path differs, the folder for it is
   * created and the file moved there unless a file already stands there.
   */
  function FileRewrite(e: Entries, f: string, oldName: string, newName: string): Run
    requires oldName != []
  {
    var read := ReadAllText(e, f);
    if read.Err? then Run(e, Some(read.error))
    else WriteAndMove(e, f, RewrittenContent(f, read.value, oldName, newName), RenamedPath(f, oldName, newName))
  }

  /** The second half of RenameFileContentsAsync, for any new contents and any new path. */
  function WriteAndMove(e: Entries, f: string, content: string, nf: string): Run {
    var written := WriteAllText(e, f, content);
    if written.Err? then Run(e, Some(written.error))
    else
      var e1 := written.value;
      if f == nf then Run(e1, None)
      else
        var made := CreateDirectory(e1, ParentOf(nf));
        if made.Err? then Run(e1, Some(made.error))
        else if IsFile(made.value, nf) then Run(made.value, None)
        else Step(FileMove(made.value, f, nf), made.value)
  }

  /** One turn of the file loop: a file not skipped is rewritten, then deleted by its original path if it is a `.sln.DotSettings` file. */
  function FileStep(e: Entries, f: string, oldName: string, newName: string): (r: Run)
    requires oldName != []
    ensures ShouldSkipPath(f) ==> r == Run(e, None)
  {
    if ShouldSkipPath(f) then Run(e, None)
    else
      var r := FileRewrite(e, f, oldName, newName);
      if r.failure.Some? || !EndsWith(f, DotSettingsSuffix) then r
      else Step(FileDelete(r.entries, f), r.entries)
  }

  /** The file loop over fs, stopping at the first exception. */
  function FilePass(e: Entries, fs: seq<string>, oldName: string, newName: string): Run
    requires oldName != []
    decreases |fs|
  {
    if fs == [] then Run(e, None)
    else
      var r := FileStep(e, fs[0], oldName, newName);
      if r.failure.Some? then r else FilePass(r.entries, fs[1..], oldName, newName)
  }

  /** The whole pass: folders in length order, then the files listed after the folder loop. */
  function TreeRename(e: Entries, dirs: seq<string>, files: seq<string>, oldName: string, newName: string): Run
    requires oldName != []
  {
    var r := DirPass(e, SortByLength(dirs), oldName, newName);
    if r.failure.Some? then r else FilePass(r.entries, files, oldName, newName)
  }

  // ---------------------------------------------------------------------
  // What one turn of each loop does.

  /** The written contents end up at nf when that is a new path with no file at it, at f otherwise. */
  lemma WriteAndMoveContent(e: Entries, f: string, content: string, nf: string)
    ensures var r := WriteAndMove(e, f, content, nf);
      var dest := if nf != f && !IsFile(e, nf) then nf else f;
      r.failure.None? ==> dest in r.entries && r.entries[dest] == File(content) && (dest != f ==> f !in r.entries)
  {
    var r := WriteAndMove(e, f, content, nf);
    if r.failure.None? && nf != f {
      var e1 := e[f := File(content)];
      var made := CreateDirectory(e1, ParentOf(nf));
      assert IsFile(made.value, nf) <==> IsFile(e, nf);
    }
  }

  /** Writing and moving f changes no other entry. */
  lemma WriteAndMoveKeepsOthers(e: Entries, f: string, content: string, nf: string, p: string)
    requires p in e && p != f
    ensures p in WriteAndMove(e, f, content, nf).entries && WriteAndMove(e, f, content, nf).entries[p] == e[p]
  {
    var written := WriteAllText(e, f, content);
    if written.Ok? {
      var e1 := written.value;
      assert p in e1 && e1[p] == e[p];
      if f != nf {
        var made := CreateDirectory(e1, ParentOf(nf));
        if made.Ok? && !IsFile(made.value, nf) {
          assert p in made.value && made.value[p] == e[p];
        }
      }
    }
  }

  /**
   * A rewritten file holds the rewritten contents: at its renamed path when
   * the path changed and no file stood there, at its own path otherwise.
   */
  lemma FileRewriteContent(e: Entries, f: string, oldName: string, newName: string)
    requires oldName != []
    ensures var r := FileRewrite(e, f, oldName, newName);
      var nf := RenamedPath(f, oldName, newName);
      var dest := if nf != f && !IsFile(e, nf) then nf else f;
      r.failure.None? ==>
        IsFile(e, f) && dest in r.entries && r.entries[dest] == File(RewrittenContent(f, e[f].content, oldName, newName))
        && (dest != f ==> f !in r.entries)
  {
    if IsFile(e, f) {
      WriteAndMoveContent(e, f, RewrittenContent(f, e[f].content, oldName, newName), RenamedPath(f, oldName, newName));
    }
  }

  /** The file turn changes no entry but the file's own: an existing file at the renamed path is never overwritten. */
  lemma FileRewriteKeepsOthers(e: Entries, f: string, oldName: string, newName: string, p: string)
    requires oldName != [] && p in e && p != f
    ensures p in FileRewrite(e, f, oldName, newName).entries && FileRewrite(e, f, oldName, newName).entries[p] == e[p]
  {
    if IsFile(e, f) {
      WriteAndMoveKeepsOthers(e, f, RewrittenContent(f, e[f].content, oldName, newName), RenamedPath(f, oldName, newName), p);
    }
  }

  /**
   * A `.sln.DotSettings` file whose path holds the token is moved before the
   * delete, which then targets its old path: the renamed settings file stays.
   */
  lemma RenamedDotSettingsSurvives(e: Entries, f: string, oldName: string, newName: string)
    requires oldName != [] && EndsWith(f, DotSettingsSuffix) && !ShouldSkipPath(f)
    requires RenamedPath(f, oldName, newName) != f && !IsFile(e, RenamedPath(f, oldName, newName))
    ensures var r := FileStep(e, f, oldName, newName);
      r.failure.None? ==> f !in r.entries && IsFile(r.entries, RenamedPath(f, oldName, newName))
  {
    FileRewriteContent(e, f, oldName, newName);
  }

  /** A `.sln.DotSettings` file that keeps its path is deleted. */
  lemma DotSettingsInPlaceDeleted(e: Entries, f: string, oldName: string, newName: string)
    requires oldName != [] && EndsWith(f, DotSettingsSuffix) && !ShouldSkipPath(f)
    requires RenamedPath(f, oldName, newName) == f
    ensures var r := FileStep(e, f, oldName, newName);
      r.failure.None? ==> f !in r.entries && forall p :: p in e && p != f ==> p in r.entries && r.entries[p] == e[p]
  {
    var r := FileRewrite(e, f, oldName, newName);
    if r.failure.None? {
      var d := FileDelete(r.entries, f);
      assert FileStep(e, f, oldName, newName) == Step(d, r.entries);
      if d.Ok? {
        forall p | p in e && p != f
          ensures p in d.value && d.value[p] == e[p]
        {
          FileRewriteKeepsOthers(e, f, oldName, newName, p);
        }
      }
    }
  }


  /**
   * A folder carried along by its ancestor's move is left alone when its own
   * renamed path is where the move put it: the existence check sees it.
   */
  lemma CarriedFolderStays(e: Entries, d: string, c: string, oldName: string, newName: string)
    requires oldName != [] && WellFormed(e)
    requires !ShouldSkipPath(d) && RenamedPath(d, oldName, newName) != d && RenamedPath(d, oldName, newName) != []
    requires !IsDir(e, RenamedPath(d, oldName, newName)) && DirStep(e, d, oldName, newName).failure.None?
    requires c in e && e[c] == Directory && Under(c, d)
    requires RenamedPath(c, oldName, newName) == Relocate(c, d, RenamedPath(d, oldName, newName))
    ensures var moved := DirStep(e, d, oldName, newName).entries;
      DirStep(moved, c, oldName, newName) == Run(moved, None)
  {
    var nd := RenamedPath(d, oldName, newName);
    forall q | q in e && !Within(q, d)
      ensures !Within(q, nd)
    {
      NothingUnderAbsent(e, nd, q);
    }
    MoveCarries(e, d, nd, c);
  }

  /**
   * A folder below one already moved whose own name also holds the token
   * names a path that no longer exists: Directory.Move throws and the pass
   * stops.
   */
  lemma NestedTokenFolderFails(e: Entries, d: string, c: string, oldName: string, newName: string)
    requires oldName != [] && WellFormed(e)
    requires !ShouldSkipPath(d) && RenamedPath(d, oldName, newName) != d && RenamedPath(d, oldName, newName) != []
    requires !IsDir(e, RenamedPath(d, oldName, newName)) && DirStep(e, d, oldName, newName).failure.None?
    requires Under(c, d) && !ShouldSkipPath(c) && RenamedPath(c, oldName, newName) != c
    requires !IsDir(DirStep(e, d, oldName, newName).entries, RenamedPath(c, oldName, newName))
    ensures var moved := DirStep(e, d, oldName, newName).entries;
      DirStep(moved, c, oldName, newName) == Run(moved, Some(SourceMissing(c)))
  {
    MoveLeavesNothingBehind(e, d, RenamedPath(d, oldName, newName), c);
  }

  /** Every listed folder skipped: the folder loop changes nothing. */
  lemma {:induction false} DirPassAllSkipped(e: Entries, ds: seq<string>, oldName: string, newName: string)
    requires oldName != [] && forall i :: 0 <= i < |ds| ==> ShouldSkipPath(ds[i])
    ensures DirPass(e, ds, oldName, newName) == Run(e, None)
    decreases |ds|
  {
    if ds != [] {
      DirPassAllSkipped(e, ds[1..], oldName, newName);
    }
  }

  /** Every listed file skipped: the file loop changes nothing. */
  lemma {:induction false} FilePassAllSkipped(e: Entries, fs: seq<string>, oldName: string, newName: string)
    requires oldName != [] && forall i :: 0 <= i < |fs| ==> ShouldSkipPath(fs[i])
    ensures FilePass(e, fs, oldName, newName) == Run(e, None)
    decreases |fs|
  {
    if fs != [] {
      FilePassAllSkipped(e, fs[1..], oldName, newName);
    }
  }

  /**
   * The skip tests look at the whole path, root included: when the root
   * folder's own path holds a marker (a `bin` or `tests` folder above the
   * clone), every path below it is skipped and the pass renames nothing.
   */
  lemma MarkedRootRenamesNothing(e: Entries, root: string, dirs: seq<string>, files: seq<string>, oldName: string, newName: string)
    requires oldName != [] && HasSkipInfix(root)
    requires forall i :: 0 <= i < |dirs| ==> Under(dirs[i], root)
    requires forall i :: 0 <= i < |files| ==> Under(files[i], root)
    ensures TreeRename(e, dirs, files, oldName, newName) == Run(e, None)
  {
    forall p | Under(p, root)
      ensures ShouldSkipPath(p)
    {
      assert p == root + p[|root|..];
      MarkedPathSkipsBelow(root, p[|root|..]);
    }
    var sorted := SortByLength(dirs);
    SortByLengthOrders(dirs);
    forall i | 0 <= i < |sorted|
      ensures ShouldSkipPath(sorted[i])
    {
      assert sorted[i] in multiset(dirs) by {
        assert sorted[i] in multiset(sorted);
      }
    }
    DirPassAllSkipped(e, sorted, oldName, newName);
    FilePassAllSkipped(e, files, oldName, newName);
  }

  // ---------------------------------------------------------------------
  // The source's methods.

  /** The rewriting statements of RenameFileContentsAsync, reassigning the content one rule at a time. */
  method RewriteContent(file: string, original: string, oldName: string, newName: string) returns (content: string)
    requires oldName != []
    ensures content == RewrittenContent(file, original, oldName, newName)
  {
    content := ReplaceContentExcludingCore(original, oldName, newName);
    if EndsWith(file, ".cs") || EndsWith(file, ".cshtml") {
      content := UpdateUsingStatements(content, oldName, newName);
    }
    if EndsWith(file, ".csproj") {
      content := UpdateProjectReferences(content, oldName, newName);
    }
    if IsComposeFile(file) {
      content := ReplaceIgnoreCase(content, Brand, newName);
      content := ReplaceIgnoreCase(content, DockerfileDir + Brand + DockerfileRest, DockerfileDir + newName + DockerfileRest);
    }
    ghost var beforeSettings := content;
    if IsAppSettingsFile(file) {
      content := ReplaceIgnoreCase(content, Brand + "-db", newName + "-db");
      content := ReplaceIgnoreCase(content, Brand + "-redis", newName + "-redis");
      content := ReplaceIgnoreCase(content, Brand + "-mongodb", newName + "-mongodb");
      content := ReplaceIgnoreCase(content, Brand + "-seq", newName + "-seq");
      AppSettingsUnfolds(beforeSettings, newName);
    }
  }

  /** RenameFileContentsAsync, statement by statement. */
  method RenameFileContents(disk: Disk, file: string, oldName: string, newName: string) returns (err: Option<IoError>)
    requires oldName != []
    modifies disk
    ensures Run(disk.entries, err) == FileRewrite(old(disk.entries), file, oldName, newName)
  {
    var content;
    content, err := disk.ReadText(file);
    if err.Some? {
      return;
    }
    content := RewriteContent(file, content, oldName, newName);
    err := disk.WriteText(file, content);
    if err.Some? {
      return;
    }
    var newFilePath := RenamedPath(file, oldName, newName);
    if file != newFilePath {
      err := disk.CreateFolder(ParentOf(newFilePath));
      if err.Some? {
        return;
      }
      if !disk.FileExists(newFilePath) {
        err := disk.MoveFile(file, newFilePath);
      }
    }
  }

  /**
   * The loops of RenameProjectAsync (root: the cloned template) and
   * RenameModulesAsync (root: its modules folder).  The listings the disk
   * returned are handed back so that the contract can name them.
   */
  method RenameTree(disk: Disk, root: string, oldName: string, newName: string)
    returns (dirs: seq<string>, files: seq<string>, err: Option<IoError>)
    requires oldName != []
    modifies disk
    ensures IsListing(dirs, DirectoriesUnder(old(disk.entries), root))
    ensures DirPass(old(disk.entries), SortByLength(dirs), oldName, newName).failure.None? ==>
      IsListing(files, FilesUnder(DirPass(old(disk.entries), SortByLength(dirs), oldName, newName).entries, root))
    ensures Run(disk.entries, err) == TreeRename(old(disk.entries), dirs, files, oldName, newName)
  {
    files := [];
    dirs := disk.GetDirectories(root);
    var allDirectories := SortByLength(dirs);
    ghost var start := disk.entries;
    var i := 0;
    while i < |allDirectories|
      invariant 0 <= i <= |allDirectories|
      invariant DirPass(start, allDirectories, oldName, newName) == DirPass(disk.entries, allDirectories[i..], oldName, newName)
    {
      var dir := allDirectories[i];
      assert allDirectories[i..][1..] == allDirectories[i + 1..];
      if !ShouldSkipPath(dir) {
        var newDir := RenamedPath(dir, oldName, newName);
        if dir != newDir && !disk.DirectoryExists(newDir) {
          err := disk.MoveDirectory(dir, newDir);
          if err.Some? {
            return;
          }
        }
      }
      i := i + 1;
    }
    ghost var middle := disk.entries;
    files := disk.GetFiles(root);
    i := 0;
    while i < |files|
      invariant 0 <= i <= |files|
      invariant FilePass(middle, files, oldName, newName) == FilePass(disk.entries, files[i..], oldName, newName)
    {
      var file := files[i];
      assert files[i..][1..] == files[i + 1..];
      if !ShouldSkipPath(file) {
        err := RenameFileContents(disk, file, oldName, newName);
        if err.Some? {
          return;
        }
        if EndsWith(file, DotSettingsSuffix) {
          err := disk.DeleteFile(file);
          if err.Some? {
            return;
          }
        }
      }
      i := i + 1;
    }
    err := None;
  }

  /**
   * RenameModulesAsync: nothing happens when the template has no modules
   * folder; otherwise the two loops of RenameTree run over that folder's listings.
   */
  method RenameModules(disk: Disk, tempDir: string, oldName: string, newName: string)
    returns (dirs: seq<string>, files: seq<string>, err: Option<IoError>)
    requires oldName != []
    modifies disk
    ensures !IsDir(old(disk.entries), PathCombine(tempDir, ModulesFolder)) ==> disk.entries == old(disk.entries) && err == None
    ensures IsDir(old(disk.entries), PathCombine(tempDir, ModulesFolder)) ==>
      IsListing(dirs, DirectoriesUnder(old(disk.entries), PathCombine(tempDir, ModulesFolder)))
    ensures (IsDir(old(disk.entries), PathCombine(tempDir, ModulesFolder))
             && DirPass(old(disk.entries), SortByLength(dirs), oldName, newName).failure.None?) ==>
      IsListing(files, FilesUnder(DirPass(old(disk.entries), SortByLength(dirs), oldName, newName).entries,
                                  PathCombine(tempDir, ModulesFolder)))
    ensures IsDir(old(disk.entries), PathCombine(tempDir, ModulesFolder)) ==>
      Run(disk.entries, err) == TreeRename(old(disk.entries), dirs, files, oldName, newName)
  {
    var modulesDir := PathCombine(tempDir, ModulesFolder);
    if !disk.DirectoryExists(modulesDir) {
      return [], [], None;
    }
    dirs, files, err := RenameTree(disk, modulesDir, oldName, newName);
  }
}
