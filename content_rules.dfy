/*
 * The content rewriters of the project generator, as the generator applies
 * them to one file of the cloned template: the three token rewriters, the
 * fixed replacements for `docker-compose.yml` and `appsettings.json`, and
 * the order in which RenameFileContentsAsync chains them.
 */
module ContentRules {
  import opened Common
  import opened Scanner
  import opened Rewriter

  /** The brand the template's compose and settings files carry. */
  const Brand := "Myrtus"
  const ComposeFileName := "docker-compose.yml"
  const AppSettingsFileName := "appsettings.json"
  const DockerfileDir := "src/"
  const DockerfileRest := ".Clarity.WebAPI/Dockerfile"
  /** The connection endpoints renamed in `appsettings.json`, in the order they are rewritten. */
  const EndpointSuffixes: seq<string> := ["-db", "-redis", "-mongodb", "-seq"]

  /** No occurrence of the token stands without `.Core` right after it. */
  ghost predicate NoLiveToken(content: string, oldName: string) {
    forall q: nat :: !LiveToken(content, oldName, q)
  }

  /** `\bOLD\b(?!\.Core)` replaced by NEW: every whole-word OLD that is not followed by `.Core`. */
  function ReplaceContentExcludingCore(content: string, oldName: string, newName: string): (r: string)
    requires oldName != []
    ensures NoLiveToken(content, oldName) ==> r == content
  {
    var r := Rewrite(Word(oldName, newName), content);
    assert NoLiveToken(content, oldName) ==> r == content by {
      if NoLiveToken(content, oldName) {
        RewriteWithoutLiveToken(Word(oldName, newName), content);
      }
    }
    r
  }

  /** `using\s+OLD\.(?!Core)` replaced by `using NEW.`. */
  function UpdateUsingStatements(content: string, oldName: string, newName: string): (r: string)
    ensures NoLiveToken(content, oldName) ==> r == content
  {
    var r := Rewrite(Using(oldName, newName), content);
    assert NoLiveToken(content, oldName) ==> r == content by {
      if NoLiveToken(content, oldName) {
        RewriteWithoutLiveToken(Using(oldName, newName), content);
      }
    }
    r
  }

  /** `<ProjectReference\s+Include="(.*?)OLD(?!\.Core)(.*?)"` rebuilt with NEW in place of OLD. */
  function UpdateProjectReferences(content: string, oldName: string, newName: string): (r: string)
    ensures NoLiveToken(content, oldName) ==> r == content
  {
    var r := Rewrite(ProjectRef(oldName, newName), content);
    assert NoLiveToken(content, oldName) ==> r == content by {
      if NoLiveToken(content, oldName) {
        RewriteWithoutLiveToken(ProjectRef(oldName, newName), content);
      }
    }
    r
  }

  /** A case-insensitive regex replacement of a fixed text. */
  function ReplaceIgnoreCase(content: string, pattern: string, replacement: string): (r: string)
    requires pattern != []
    ensures !ContainsIgnoreCase(content, pattern) ==> r == content
  {
    var r := Rewrite(Literal(pattern, replacement, true), content);
    assert !ContainsIgnoreCase(content, pattern) ==> r == content by {
      if !ContainsIgnoreCase(content, pattern) {
        RewriteWithoutOccurrence(pattern, replacement, true, content);
      }
    }
    r
  }

  // ---------------------------------------------------------------------
  // Each rewriter replaces its leftmost non-overlapping matches, and these are its matches.

  /** Every whole-word OLD not followed by `.Core` is replaced by NEW, leftmost first and without overlap. */
  lemma ReplaceContentExcludingCoreReplacesWords(content: string, oldName: string, newName: string)
    requires oldName != []
    ensures SplicesMatches(Word(oldName, newName), content, ReplaceContentExcludingCore(content, oldName, newName))
    ensures forall p: nat :: HitsAt(content, MatcherOf(Word(oldName, newName), content), p) <==> WordHit(content, oldName, p)
    ensures forall p: nat :: HitsAt(content, MatcherOf(Word(oldName, newName), content), p) ==>
              MatcherOf(Word(oldName, newName), content)(p).value == Hit(|oldName|, newName)
  {
    RewriteIsSplice(Word(oldName, newName), content);
    WordMatchesAreLiveWords(content, oldName, newName);
  }

  /** Every `using`, blanks, `OLD.` not starting `OLD.Core` becomes `using NEW.`, leftmost first and without overlap. */
  lemma UpdateUsingStatementsReplacesUsings(content: string, oldName: string, newName: string)
    ensures SplicesMatches(Using(oldName, newName), content, UpdateUsingStatements(content, oldName, newName))
    ensures forall p: nat :: HitsAt(content, MatcherOf(Using(oldName, newName), content), p) ==>
              MatcherOf(Using(oldName, newName), content)(p).value.text == "using " + newName + "."
              && LiveToken(content, oldName, p + MatcherOf(Using(oldName, newName), content)(p).value.len - |oldName| - 1)
  {
    RewriteIsSplice(Using(oldName, newName), content);
    UsingMatchesAt(content, oldName, newName);
  }

  /** Every match of the `using` rule becomes `using NEW.`, and ends in a live OLD and a dot. */
  lemma UsingMatchesAt(content: string, oldName: string, newName: string)
    ensures forall p: nat :: HitsAt(content, MatcherOf(Using(oldName, newName), content), p) ==>
              MatcherOf(Using(oldName, newName), content)(p).value.text == "using " + newName + "."
              && LiveToken(content, oldName, p + MatcherOf(Using(oldName, newName), content)(p).value.len - |oldName| - 1)
  {
    forall p: nat | HitsAt(content, MatcherOf(Using(oldName, newName), content), p) {
      UsingMatchAt(content, oldName, newName, p);
    }
  }

  /** One match of the `using` rule: its replacement, and the live OLD just before its closing dot. */
  lemma UsingMatchAt(content: string, oldName: string, newName: string, p: nat)
    requires p < |content| && UsingHit(content[p..], oldName, newName).Some?
    ensures UsingHit(content[p..], oldName, newName).value.text == "using " + newName + "."
    ensures LiveToken(content, oldName, p + UsingHit(content[p..], oldName, newName).value.len - |oldName| - 1)
  {
    var w := UsingHitShape(content[p..], oldName, newName);
    LiveTokenShift(content, oldName, p, 5 + w);
  }

  /**
   * The project-reference rule splices its matches leftmost first and without
   * overlap, and each replacement is a `<ProjectReference Include="…"` element
   * with a single blank, closed by its quote. `Rewriter.RefHitShape` gives the
   * text between: what preceded OLD, then NEW, then what followed it.
   */
  lemma UpdateProjectReferencesReplacesReferences(content: string, oldName: string, newName: string)
    ensures SplicesMatches(ProjectRef(oldName, newName), content, UpdateProjectReferences(content, oldName, newName))
    ensures forall p: nat :: HitsAt(content, MatcherOf(ProjectRef(oldName, newName), content), p) ==>
              StartsWith(MatcherOf(ProjectRef(oldName, newName), content)(p).value.text, ProjectRefOpen + " " + IncludeOpen)
              && EndsWith(MatcherOf(ProjectRef(oldName, newName), content)(p).value.text, "\"")
  {
    RewriteIsSplice(ProjectRef(oldName, newName), content);
    forall p: nat | HitsAt(content, MatcherOf(ProjectRef(oldName, newName), content), p)
      ensures StartsWith(MatcherOf(ProjectRef(oldName, newName), content)(p).value.text, ProjectRefOpen + " " + IncludeOpen)
      ensures EndsWith(MatcherOf(ProjectRef(oldName, newName), content)(p).value.text, "\"")
    {
      var t := content[p..];
      var w, k, q := RefHitShape(t, oldName, newName);
      var head := ProjectRefOpen + " " + IncludeOpen;
      var text := head + t[26 + w..k] + newName + t[k + |oldName|..q] + "\"";
      assert text[..|head|] == head;
      assert text[|text| - 1..] == "\"";
    }
  }

  /** Every occurrence of the pattern, in any case, is replaced, leftmost first and without overlap. */
  lemma ReplaceIgnoreCaseReplacesOccurrences(content: string, pattern: string, replacement: string)
    requires pattern != []
    ensures SplicesMatches(Literal(pattern, replacement, true), content, ReplaceIgnoreCase(content, pattern, replacement))
    ensures forall i: nat :: HitsAt(content, MatcherOf(Literal(pattern, replacement, true), content), i) <==>
              OccursAt(Lower(content), Lower(pattern), i)
    ensures forall i: nat :: HitsAt(content, MatcherOf(Literal(pattern, replacement, true), content), i) ==>
              MatcherOf(Literal(pattern, replacement, true), content)(i).value == Hit(|pattern|, replacement)
  {
    RewriteIsSplice(Literal(pattern, replacement, true), content);
    LiteralMatchesAreOccurrences(content, pattern, replacement, true);
  }

  /**
   * `docker-compose.yml`: every `Myrtus`, in any case, becomes NEW; then the
   * Dockerfile path `src/Myrtus.Clarity.WebAPI/Dockerfile`, in any case,
   * becomes `src/NEW.Clarity.WebAPI/Dockerfile`.
   */
  function ComposeRules(content: string, newName: string): (r: string)
    ensures !ContainsIgnoreCase(content, Brand) ==> r == content
  {
    var step := ReplaceIgnoreCase(content, Brand, newName);
    ContainsIgnoreCaseInfix(content, DockerfileDir, Brand, DockerfileRest);
    ReplaceIgnoreCase(step, DockerfileDir + Brand + DockerfileRest, DockerfileDir + newName + DockerfileRest)
  }

  /** The endpoints suffixes[i..] of `appsettings.json`, in order: each `Myrtus<suffix>`, in any case, becomes NEW<suffix>. */
  function EndpointRules(content: string, newName: string, suffixes: seq<string>, i: nat): (r: string)
    requires i <= |suffixes|
    ensures !ContainsIgnoreCase(content, Brand) ==> r == content
    decreases |suffixes| - i
  {
    if i == |suffixes| then content
    else
      ContainsIgnoreCaseInfix(content, [], Brand, suffixes[i]);
      assert [] + Brand + suffixes[i] == Brand + suffixes[i];
      EndpointRules(ReplaceIgnoreCase(content, Brand + suffixes[i], newName + suffixes[i]), newName, suffixes, i + 1)
  }

  /** `appsettings.json`: the database, cache, document store and log endpoints are renamed. */
  function AppSettingsRules(content: string, newName: string): (r: string)
    ensures !ContainsIgnoreCase(content, Brand) ==> r == content
  {
    EndpointRules(content, newName, EndpointSuffixes, 0)
  }

  /** The settings rules are the four endpoint replacements, one after the other. */
  lemma AppSettingsUnfolds(content: string, newName: string)
    ensures AppSettingsRules(content, newName)
      == ReplaceIgnoreCase(ReplaceIgnoreCase(ReplaceIgnoreCase(ReplaceIgnoreCase(content,
           Brand + "-db", newName + "-db"), Brand + "-redis", newName + "-redis"),
           Brand + "-mongodb", newName + "-mongodb"), Brand + "-seq", newName + "-seq")
  {
    var s := EndpointSuffixes;
    var c1 := ReplaceIgnoreCase(content, Brand + s[0], newName + s[0]);
    var c2 := ReplaceIgnoreCase(c1, Brand + s[1], newName + s[1]);
    var c3 := ReplaceIgnoreCase(c2, Brand + s[2], newName + s[2]);
    var c4 := ReplaceIgnoreCase(c3, Brand + s[3], newName + s[3]);
    assert EndpointRules(c4, newName, s, 4) == c4;
    assert EndpointRules(content, newName, s, 0) == EndpointRules(c1, newName, s, 1);
    assert EndpointRules(c1, newName, s, 1) == EndpointRules(c2, newName, s, 2);
    assert EndpointRules(c2, newName, s, 2) == EndpointRules(c3, newName, s, 3);
  }

  /** Where the last path segment starts: just after the last separator, or 0 when there is none. */
  function NameStart(path: string): (k: nat)
    ensures k <= |path|
    ensures forall j :: k <= j < |path| ==> path[j] != '/'
    ensures k > 0 ==> path[k - 1] == '/'
    decreases |path|
  {
    if path == [] then 0
    else if path[|path| - 1] == '/' then |path|
    else NameStart(path[..|path| - 1])
  }

  /** Path.GetFileName: the text after the last separator. */
  function FileName(path: string): (name: string)
    ensures '/' !in name && EndsWith(path, name)
    ensures |name| < |path| ==> path[|path| - |name| - 1] == '/'
  {
    path[NameStart(path)..]
  }

  predicate IsCodeFile(path: string) {
    EndsWith(path, ".cs") || EndsWith(path, ".cshtml")
  }

  predicate IsProjectFile(path: string) {
    EndsWith(path, ".csproj")
  }

  predicate IsComposeFile(path: string) {
    EqualsIgnoreCase(FileName(path), ComposeFileName)
  }

  predicate IsAppSettingsFile(path: string) {
    EqualsIgnoreCase(FileName(path), AppSettingsFileName)
  }

  /**
   * What RenameFileContentsAsync writes back to the file at `path`: the
   * whole-word rule, then the `using` rule for C# and Razor sources, then the
   * reference rule for project files, then the compose and settings rules
   * chosen by file name.
   */
  function RewrittenContent(path: string, content: string, oldName: string, newName: string): (r: string)
    requires oldName != []
    ensures NoLiveToken(content, oldName) && !ContainsIgnoreCase(content, Brand) ==> r == content
  {
    var c1 := ReplaceContentExcludingCore(content, oldName, newName);
    var c2 := if IsCodeFile(path) then UpdateUsingStatements(c1, oldName, newName) else c1;
    var c3 := if IsProjectFile(path) then UpdateProjectReferences(c2, oldName, newName) else c2;
    var c4 := if IsComposeFile(path) then ComposeRules(c3, newName) else c3;
    if IsAppSettingsFile(path) then AppSettingsRules(c4, newName) else c4
  }
}
