/*
 * The path filter of the rename passes: a directory or file is left alone
 * when its path mentions a git, test or build-output folder, or belongs to
 * the core.  Every test is an ordinal (case-sensitive) substring or suffix
 * test on the whole path, with '/' as the directory separator.
 */
module SkipPolicy {
  import opened Common

  /** The substrings that make a path skipped wherever they stand. */
  const SkipInfixes: seq<string> := [".git", "tests", "bin", "obj"]
  const CoreLeaf := ".Core"
  const CoreSegment := "/.Core/"

  predicate ShouldSkipPath(path: string) {
    Contains(path, ".git") || Contains(path, "tests") || Contains(path, "bin") || Contains(path, "obj")
    || EndsWith(path, CoreLeaf) || Contains(path, CoreSegment)
  }

  /** The skip markers other than the `.Core` suffix. */
  predicate HasSkipInfix(path: string) {
    (exists m :: m in SkipInfixes && Contains(path, m)) || Contains(path, CoreSegment)
  }

  /** A text that contains p still contains it once something is appended. */
  lemma ContainsExtends(s: string, p: string, rest: string)
    requires Contains(s, p)
    ensures Contains(s + rest, p)
  {
    var i: nat :| i <= |s| && OccursAt(s, p, i);
    assert (s + rest)[i..i + |p|] == s[i..i + |p|];
    assert OccursAt(s + rest, p, i);
  }

  /** A path is skipped exactly when it carries a skip marker or ends in `.Core`. */
  lemma SkipIffMarker(path: string)
    ensures ShouldSkipPath(path) <==> HasSkipInfix(path) || EndsWith(path, CoreLeaf)
  {
    if Contains(path, ".git") {
      assert SkipInfixes[0] in SkipInfixes;
    }
    if Contains(path, "tests") {
      assert SkipInfixes[1] in SkipInfixes;
    }
    if Contains(path, "bin") {
      assert SkipInfixes[2] in SkipInfixes;
    }
    if Contains(path, "obj") {
      assert SkipInfixes[3] in SkipInfixes;
    }
  }

  /**
   * Everything below a path that carries a skip marker is skipped too: the
   * markers are substrings, and a longer path still contains them.
   */
  lemma MarkedPathSkipsBelow(path: string, rest: string)
    requires HasSkipInfix(path)
    ensures ShouldSkipPath(path + rest)
  {
    if Contains(path, CoreSegment) {
      ContainsExtends(path, CoreSegment, rest);
    } else {
      var m :| m in SkipInfixes && Contains(path, m);
      ContainsExtends(path, m, rest);
    }
  }

  /** The contents of a folder named exactly `.Core` are skipped. */
  lemma CoreFolderSkipsBelow(parent: string, rest: string)
    ensures ShouldSkipPath(parent + CoreSegment + rest)
  {
    var s := parent + CoreSegment + rest;
    assert s[|parent|..|parent| + |CoreSegment|] == CoreSegment;
    assert OccursAt(s, CoreSegment, |parent|);
  }

  /** "combine" holds "bin": the tests are plain substring tests, not folder names. */
  lemma SubstringInsideWordSkips()
    ensures ShouldSkipPath("src/combine")
  {
    assert OccursAt("src/combine", "bin", 7);
  }

  /** An occurrence of p at i begins with p's first two characters. */
  lemma OccursAtPair(s: string, p: string, i: nat)
    requires 2 <= |p|
    ensures OccursAt(s, p, i) ==> i + 1 < |s| && s[i] == p[0] && s[i + 1] == p[1]
  {
    if OccursAt(s, p, i) {
      assert s[i..i + |p|][0] == p[0] && s[i..i + |p|][1] == p[1];
    }
  }

  /** No skip marker starts at i when the first two characters there rule each out. */
  lemma NoMarkerAt(s: string, i: nat)
    requires i + 1 < |s| ==>
      (!(s[i] == '.' && s[i + 1] == 'g') && !(s[i] == 't' && s[i + 1] == 'e')
       && !(s[i] == 'b' && s[i + 1] == 'i') && !(s[i] == 'o' && s[i + 1] == 'b') && !(s[i] == '/' && s[i + 1] == '.'))
    ensures !OccursAt(s, ".git", i) && !OccursAt(s, "tests", i) && !OccursAt(s, "bin", i)
    ensures !OccursAt(s, "obj", i) && !OccursAt(s, CoreSegment, i)
  {
    OccursAtPair(s, ".git", i);
    OccursAtPair(s, "tests", i);
    OccursAtPair(s, "bin", i);
    OccursAtPair(s, "obj", i);
    OccursAtPair(s, CoreSegment, i);
  }

  /** Upper-case "Tests" is not "tests": the comparison is case-sensitive. */
  lemma CapitalisedTestsKept()
    ensures !ShouldSkipPath("src/Tests") && ShouldSkipPath("src/tests")
  {
    var s := "src/Tests";
    forall i: nat ensures !OccursAt(s, ".git", i) && !OccursAt(s, "tests", i) && !OccursAt(s, "bin", i)
      && !OccursAt(s, "obj", i) && !OccursAt(s, CoreSegment, i)
    {
      NoMarkerAt(s, i);
    }
    assert OccursAt("src/tests", "tests", 4);
  }

  /**
   * A folder whose name ends in `.Core` is skipped, but the files inside it
   * are not: `A.Core/B` neither ends in `.Core` nor holds `/.Core/`.
   */
  lemma CoreSuffixFolderContentsKept()
    ensures ShouldSkipPath("A.Core") && !ShouldSkipPath("A.Core/B")
  {
    var s := "A.Core/B";
    forall i: nat ensures !OccursAt(s, ".git", i) && !OccursAt(s, "tests", i) && !OccursAt(s, "bin", i)
      && !OccursAt(s, "obj", i) && !OccursAt(s, CoreSegment, i)
    {
      NoMarkerAt(s, i);
    }
  }
}
