/*
 * FinalizeProjectAsync: the generated project replaces whatever stood at
 * the output folder, and the working copy is moved there in one piece.
 */
module Generator {
  import opened Common
  import opened FileSystem

  /** Where the project ends up. */
  function FinalPath(outputDir: string, projectName: string): string {
    PathCombine(outputDir, projectName)
  }

  /** Delete the final folder if it is a folder, then move the working copy onto its path (lines 308-313). */
  function Finalize(e: Entries, tempDir: string, finalPath: string): Run {
    var r := if IsDir(e, finalPath) then Step(DeleteTree(e, finalPath), e) else Run(e, None);
    if r.failure.Some? then r else Step(DirectoryMove(r.entries, tempDir, finalPath), r.entries)
  }

  /** The disk once the old output folder is cleared. */
  function Cleared(e: Entries, finalPath: string): (c: Entries)
    ensures forall p :: p in c ==> p in e && c[p] == e[p]
  {
    if IsDir(e, finalPath) then DeleteTree(e, finalPath).value else e
  }

  /** Clearing never fails, and a successful finalize is a move on the cleared disk. */
  lemma FinalizeUnfolds(e: Entries, tempDir: string, finalPath: string)
    ensures Finalize(e, tempDir, finalPath) == Step(DirectoryMove(Cleared(e, finalPath), tempDir, finalPath), Cleared(e, finalPath))
  {
  }

  /**
   * On the cleared disk nothing outside the working copy lies in the final
   * folder's subtree, and the working copy's entries are untouched.
   */
  lemma ClearedFacts(e: Entries, tempDir: string, finalPath: string)
    requires WellFormed(e) && finalPath != []
    requires DirectoryMove(Cleared(e, finalPath), tempDir, finalPath).Ok?
    ensures WellFormed(Cleared(e, finalPath))
    ensures forall q :: q in Cleared(e, finalPath) ==> !Within(q, finalPath)
    ensures forall p :: p in e && Within(p, tempDir) ==> p in Cleared(e, finalPath)
  {
    var c := Cleared(e, finalPath);
    if IsDir(e, finalPath) {
      DeleteTreeKeepsWellFormed(e, finalPath);
    }
    assert finalPath !in c;
    forall q | q in c
      ensures !Within(q, finalPath)
    {
      if !IsDir(e, finalPath) {
        NothingUnderAbsent(e, finalPath, q);
      }
    }
    assert tempDir in c && !Within(finalPath, tempDir);
    assert !Within(tempDir, finalPath);
    forall p | p in e && Within(p, tempDir)
      ensures p in c
    {
      if Within(p, finalPath) {
        WithinComparable(p, tempDir, finalPath);
      }
    }
  }

  /**
   * After a successful finalize every entry of the working copy sits at its
   * place under the final path with the same contents, and nothing is left
   * of the working copy.
   */
  lemma FinalizeRelocatesTemplate(e: Entries, tempDir: string, finalPath: string, p: string)
    requires WellFormed(e) && finalPath != []
    requires Finalize(e, tempDir, finalPath).failure.None?
    requires p in e && Within(p, tempDir)
    ensures var r := Finalize(e, tempDir, finalPath).entries;
      Relocate(p, tempDir, finalPath) in r && r[Relocate(p, tempDir, finalPath)] == e[p] && p !in r
  {
    var c := Cleared(e, finalPath);
    FinalizeUnfolds(e, tempDir, finalPath);
    ClearedFacts(e, tempDir, finalPath);
    MoveCarries(c, tempDir, finalPath, p);
    MoveLeavesNothingBehind(c, tempDir, finalPath, p);
  }

  /**
   * After a successful finalize whatever lies in the final folder's subtree
   * came from the working copy: nothing of the previous output survives.
   */
  lemma FinalizeReplacesOutput(e: Entries, tempDir: string, finalPath: string, q: string)
    requires WellFormed(e) && finalPath != []
    requires Finalize(e, tempDir, finalPath).failure.None?
    requires q in Finalize(e, tempDir, finalPath).entries && Within(q, finalPath)
    ensures |finalPath| <= |q| && Within(Origin(q, tempDir, finalPath), tempDir)
    ensures Origin(q, tempDir, finalPath) in e
    ensures Finalize(e, tempDir, finalPath).entries[q] == e[Origin(q, tempDir, finalPath)]
  {
    var c := Cleared(e, finalPath);
    FinalizeUnfolds(e, tempDir, finalPath);
    ClearedFacts(e, tempDir, finalPath);
    var kept := map p | p in c && !Within(p, tempDir) :: c[p];
    assert q !in kept;
    var p :| p in c && Within(p, tempDir) && Relocate(p, tempDir, finalPath) == q;
    RelocateRoundTrip(p, tempDir, finalPath);
  }

  /** Outside the working copy and the final folder, a successful finalize changes nothing. */
  lemma FinalizeKeepsTheRest(e: Entries, tempDir: string, finalPath: string, q: string)
    requires Finalize(e, tempDir, finalPath).failure.None?
    requires q in e && !Within(q, tempDir) && !Within(q, finalPath)
    ensures q in Finalize(e, tempDir, finalPath).entries && Finalize(e, tempDir, finalPath).entries[q] == e[q]
  {
    FinalizeUnfolds(e, tempDir, finalPath);
  }

  /** FinalizeProjectAsync, statement by statement; the summary panel is left out. */
  method FinalizeProject(disk: Disk, tempDir: string, projectName: string, outputDir: string)
    returns (finalPath: string, err: Option<IoError>)
    modifies disk
    ensures finalPath == FinalPath(outputDir, projectName)
    ensures Run(disk.entries, err) == Finalize(old(disk.entries), tempDir, finalPath)
  {
    finalPath := PathCombine(outputDir, projectName);
    if disk.DirectoryExists(finalPath) {
      err := disk.DeleteFolder(finalPath);
      if err.Some? {
        return;
      }
    }
    err := disk.MoveDirectory(tempDir, finalPath);
  }
}
