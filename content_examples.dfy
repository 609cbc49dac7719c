/*
 * The behaviour the generator's text tests pin down, and the edge cases of
 * the `.Core` lookahead.  Each case is first proved for any token and text
 * of the same shape, then instantiated with template token `Myrtus.Clarity`
 * and project name `MyProject`.
 */
module ContentExamples {
  import opened Common
  import opened Scanner
  import opened Rewriter
  import opened ContentRules

  const Token := "Myrtus.Clarity"
  const NewName := "MyProject"

  // ---------------------------------------------------------------------
  // Positions where a rule cannot match.

  /** In pre + mid + post, a character missing from pre[from..], mid[1..] and post can stand only where mid starts. */
  lemma OnlyAtMid(s: string, pre: string, mid: string, post: string, c: char, from: nat)
    requires s == pre + mid + post && |mid| > 0 && from <= |pre|
    requires c !in pre[from..] && c !in mid[1..] && c !in post
    ensures forall q :: from <= q < |s| && q != |pre| ==> s[q] != c
  {
    forall q | from <= q < |s| && q != |pre| ensures s[q] != c {
      if q < |pre| {
        assert s[q] == pre[from..][q - from];
      } else if q < |pre| + |mid| {
        assert s[q] == mid[1..][q - |pre| - 1];
      } else {
        assert s[q] == post[q - |pre| - |mid|];
      }
    }
  }

  // ---------------------------------------------------------------------
  // ReplaceContentExcludingCore

  /** After the first OLD of OLD + mid + OLD.Core..., the whole-word rule finds nothing. */
  lemma NoWordAfterFirst(s: string, o: string, n: string, mid: string, rest: string)
    requires s == o + mid + o + CoreSuffix + rest
    requires o != [] && o[0] !in mid && o[0] !in o[1..] && o[0] !in CoreSuffix + rest
    ensures forall q :: |o| <= q < |s| ==> !HitsAt(s, MatcherOf(Word(o, n), s), q)
  {
    var k := |o| + |mid|;
    assert s == (o + mid) + o + (CoreSuffix + rest);
    assert (o + mid)[|o|..] == mid;
    OnlyAtMid(s, o + mid, o, CoreSuffix + rest, o[0], |o|);
    assert s[k + |o|..k + |o| + 5] == CoreSuffix;
    forall q | |o| <= q < |s| ensures !HitsAt(s, MatcherOf(Word(o, n), s), q) {
      assert q != k ==> s[q] != o[0];
    }
  }

  /** A word OLD at the start of OLD + tail, with tail starting with a non-word character other than `.`, is a match. */
  lemma WordHitAtStart(s: string, o: string, n: string, tail: string)
    requires s == o + tail
    requires o != [] && IsWordChar(o[0]) && IsWordChar(o[|o| - 1])
    requires tail != [] && !IsWordChar(tail[0]) && tail[0] != '.'
    ensures HitsAt(s, MatcherOf(Word(o, n), s), 0)
    ensures MatcherOf(Word(o, n), s)(0).value == Hit(|o|, n)
  {
    assert s[..|o|] == o;
    assert s[0] == o[0] && s[|o| - 1] == o[|o| - 1] && s[|o|] == tail[0];
    assert !OccursAt(s, CoreSuffix, |o|) by {
      if |o| + 5 <= |s| {
        assert s[|o|..|o| + 5][0] == s[|o|];
      }
    }
    assert WordHit(s, o, 0);
  }

  /** A text OLD + tail in which only the leading OLD matches: it becomes NEW + tail. */
  lemma WordRenamedOnce(s: string, o: string, n: string, tail: string)
    requires s == o + tail
    requires o != [] && IsWordChar(o[0]) && IsWordChar(o[|o| - 1])
    requires tail != [] && !IsWordChar(tail[0]) && tail[0] != '.'
    requires forall q :: |o| <= q < |s| ==> !HitsAt(s, MatcherOf(Word(o, n), s), q)
    ensures Rewrite(Word(o, n), s) == n + tail
  {
    WordHitAtStart(s, o, n, tail);
    ScanSingleMatch(s, MatcherOf(Word(o, n), s), 0);
    assert s[|o|..] == tail;
  }

  /** OLD + mid + OLD.Core...: the first OLD is renamed, the second names the core and stays. */
  lemma FirstRenamedCoreKept(o: string, n: string, mid: string, rest: string)
    requires o != [] && IsWordChar(o[0]) && IsWordChar(o[|o| - 1])
    requires mid != [] && !IsWordChar(mid[0]) && mid[0] != '.'
    requires o[0] !in mid && o[0] !in o[1..] && o[0] !in CoreSuffix + rest
    ensures ReplaceContentExcludingCore(o + mid + o + CoreSuffix + rest, o, n) == n + mid + o + CoreSuffix + rest
  {
    var s := o + mid + o + CoreSuffix + rest;
    var tail := mid + o + CoreSuffix + rest;
    NoWordAfterFirst(s, o, n, mid, rest);
    assert s == o + tail;
    WordRenamedOnce(s, o, n, tail);
    assert n + tail == n + mid + o + CoreSuffix + rest;
  }

  const GreatMid := " is great, but "
  const GreatRest := " should not change."

  /**
   * The whole-word test: in `Myrtus.Clarity is great, but Myrtus.Clarity.Core
   * should not change.` the first token is renamed and the core name is not.
   */
  lemma ReplaceContentExcludingCoreExample()
    ensures ReplaceContentExcludingCore(Token + GreatMid + Token + CoreSuffix + GreatRest, Token, NewName)
         == NewName + GreatMid + Token + CoreSuffix + GreatRest
  {
    assert Token[1..] == "yrtus.Clarity" && Token[|Token| - 1] == 'y';
    FirstRenamedCoreKept(Token, NewName, GreatMid, GreatRest);
  }

  /** OLD.Core...: the lookahead is a prefix test, so OLD stays in front of any name starting with `Core`. */
  lemma CorePrefixKept(o: string, n: string, rest: string)
    requires o != [] && o[0] !in o[1..] && o[0] !in CoreSuffix + rest
    ensures ReplaceContentExcludingCore(o + CoreSuffix + rest, o, n) == o + CoreSuffix + rest
  {
    var s := o + CoreSuffix + rest;
    assert s == [] + o + (CoreSuffix + rest);
    OnlyAtMid(s, [], o, CoreSuffix + rest, o[0], 0);
    assert s[|o|..|o| + 5] == CoreSuffix;
    forall q: nat ensures !LiveToken(s, o, q) {
      assert q != 0 && q < |s| ==> s[q] != o[0];
    }
  }

  /** `Myrtus.Clarity.Coreless` keeps its token, although it does not name the core. */
  lemma CorelessIsKept()
    ensures ReplaceContentExcludingCore(Token + CoreSuffix + "less", Token, NewName) == Token + CoreSuffix + "less"
  {
    assert Token[1..] == "yrtus.Clarity";
    CorePrefixKept(Token, NewName, "less");
  }

  // ---------------------------------------------------------------------
  // UpdateUsingStatements

  lemma UsingMissAt(s: string, o: string, n: string, p: nat)
    requires p < |s| && (p + 5 <= |s| ==> s[p + 4] != 'g')
    ensures !HitsAt(s, MatcherOf(Using(o, n), s), p)
  {
    if p + 5 <= |s| {
      assert s[p..][..5][4] == s[p + 4];
    }
  }

  /** No `using` directive starts at or after `from` when no `g` stands from from + 4 on. */
  lemma NoUsingWithoutG(s: string, o: string, n: string, from: nat)
    requires forall q :: from + 4 <= q < |s| ==> s[q] != 'g'
    ensures forall q :: from <= q < |s| ==> !HitsAt(s, MatcherOf(Using(o, n), s), q)
  {
    forall q | from <= q < |s| ensures !HitsAt(s, MatcherOf(Using(o, n), s), q) {
      UsingMissAt(s, o, n, q);
    }
  }

  /** In `using OLD.rest`, the `\s+` of the `using` rule fits with width 1 when rest does not start with `Core`. */
  lemma UsingFitsAfterOneBlank(o: string, rest: string)
    requires rest == [] || rest[0] != 'C'
    ensures UsingFits("using " + o + "." + rest, o, 6)
  {
    var s := "using " + o + "." + rest;
    var e := 6 + |o| + 1;
    assert s[6..e] == o + "." && s[e..] == rest;
    assert !OccursAt(s, "Core", e) by {
      if e + 4 <= |s| {
        assert s[e..e + 4][0] == rest[0];
      }
    }
  }

  /** The `using` rule matches `using OLD.` at the start of `using OLD.rest` when rest does not start with `Core`. */
  lemma UsingHitAtStart(o: string, n: string, rest: string)
    requires o != [] && !IsSpace(o[0]) && (rest == [] || rest[0] != 'C')
    ensures var s := "using " + o + "." + rest;
            && HitsAt(s, MatcherOf(Using(o, n), s), 0)
            && MatcherOf(Using(o, n), s)(0).value == Hit(6 + |o| + 1, "using " + n + ".")
  {
    var s := "using " + o + "." + rest;
    assert s[..5] == UsingKeyword && s[5] == ' ' && s[6] == o[0];
    assert s[0..] == s;
    UsingFitsAfterOneBlank(o, rest);
    UsingHitWhenFits(s, o, n, 1);
    var w := UsingHitShape(s, o, n);
    assert w == 1;
  }

  /** `using OLD.rest`, with rest not starting with `Core`: the directive becomes `using NEW.rest`. */
  lemma UsingRenamed(o: string, n: string, rest: string)
    requires o != [] && !IsSpace(o[0]) && 'g' !in rest && (rest == [] || rest[0] != 'C')
    ensures UpdateUsingStatements("using " + o + "." + rest, o, n) == "using " + n + "." + rest
  {
    var s := "using " + o + "." + rest;
    var m := MatcherOf(Using(o, n), s);
    var e := 6 + |o| + 1;
    UsingHitAtStart(o, n, rest);
    assert s[e..] == rest;
    forall q | e + 4 <= q < |s| ensures s[q] != 'g' {
      assert s[q] == rest[q - e];
    }
    NoUsingWithoutG(s, o, n, e);
    ScanSingleMatch(s, m, 0);
  }

  const BusinessRest := "Generator.Business;"

  /** The `using` test: `using Myrtus.Clarity.Generator.Business;` becomes `using MyProject.Generator.Business;`. */
  lemma UpdateUsingStatementsExample()
    ensures UpdateUsingStatements("using " + Token + "." + BusinessRest, Token, NewName)
         == "using " + NewName + "." + BusinessRest
  {
    UsingRenamed(Token, NewName, BusinessRest);
  }

  /** `using OLD;` has no dot after OLD and `using OLD.Core...` names the core: neither changes. */
  lemma UsingWithoutLiveDotKept(o: string, n: string, rest: string)
    requires o != [] && !IsSpace(o[0]) && 'g' !in o + rest
    requires rest == [] || rest[0] != '.' || OccursAt(rest, CoreSuffix, 0)
    ensures UpdateUsingStatements("using " + o + rest, o, n) == "using " + o + rest
  {
    var s := "using " + o + rest;
    var m := MatcherOf(Using(o, n), s);
    assert s[0..] == s && s[..5] == UsingKeyword && s[5] == ' ' && s[6] == o[0];
    assert s[6..6 + |o|] == o && s[6 + |o|..] == rest;
    assert SpaceRun(s, 5) == 1;
    assert !UsingFits(s, o, 6) by {
      if rest != [] && rest[0] == '.' && |rest| >= 5 {
        assert s[6 + |o| + 1..6 + |o| + 5] == rest[1..5];
      }
    }
    assert !HitsAt(s, m, 0);
    assert s[5..] == " " + o + rest;
    forall q | 5 <= q < |s| ensures s[q] != 'g' {
      assert s[q] == s[5..][q - 5];
    }
    NoUsingWithoutG(s, o, n, 1);
    ScanWithoutMatch(s, m);
  }

  /** `using Myrtus.Clarity;` and `using Myrtus.Clarity.Core.Abstractions;` are left alone. */
  lemma UsingExamplesKept()
    ensures UpdateUsingStatements("using " + Token + ";", Token, NewName) == "using " + Token + ";"
    ensures UpdateUsingStatements("using " + Token + CoreSuffix + ".Abstractions;", Token, NewName)
         == "using " + Token + CoreSuffix + ".Abstractions;"
  {
    UsingWithoutLiveDotKept(Token, NewName, ";");
    assert (CoreSuffix + ".Abstractions;")[..5] == CoreSuffix;
    UsingWithoutLiveDotKept(Token, NewName, CoreSuffix + ".Abstractions;");
    assert "using " + Token + CoreSuffix + ".Abstractions;" == "using " + Token + (CoreSuffix + ".Abstractions;");
  }

  // ---------------------------------------------------------------------
  // UpdateProjectReferences

  lemma NotStartingAt(s: string, o: string, i: nat)
    requires i < |s| && o != [] && s[i] != o[0]
    ensures !OccursAt(s, o, i)
  {
    if i + |o| <= |s| {
      assert s[i..i + |o|][0] == s[i];
    }
  }

  lemma RefMissAt(s: string, o: string, n: string, p: nat)
    requires p < |s| && s[p] != '<'
    ensures !HitsAt(s, MatcherOf(ProjectRef(o, n), s), p)
  {
    assert s[p..][0] == s[p];
  }

  /** s starts with `<ProjectReference Include="` + g1 + OLD + g2 + `"`, with a single blank. */
  predicate RefShaped(s: string, o: string, g1: string, g2: string) {
    var k := 27 + |g1|;
    var q := k + |o| + |g2|;
    && q < |s|
    && s[..17] == ProjectRefOpen && s[17] == ' ' && s[18] == 'I' && s[18..27] == IncludeOpen
    && s[27..k] == g1 && s[k..k + |o|] == o && s[k + |o|..q] == g2 && s[q] == '"'
  }

  lemma RefLayout(s: string, o: string, g1: string, g2: string, close: string)
    requires s == ProjectRefOpen + " " + IncludeOpen + g1 + o + g2 + "\"" + close
    ensures RefShaped(s, o, g1, g2) && s[28 + |g1| + |o| + |g2|..] == close
  {
  }

  /** The token after group 1 is live and has its closing quote: the rest of the pattern matches there. */
  lemma RefTailAfterGroup(s: string, o: string, g1: string, g2: string)
    requires RefShaped(s, o, g1, g2)
    requires o != [] && '\n' !in g2 && '"' !in g2 && (g2 == [] || g2[0] != '.')
    ensures RefTailAt(s, o, 27 + |g1|)
    ensures QuoteBeforeBreak(s, 27 + |g1| + |o|) == Some(27 + |g1| + |o| + |g2|)
  {
    var k := 27 + |g1|;
    var q := k + |o| + |g2|;
    forall i | k + |o| <= i < q ensures s[i] != '\n' && s[i] != '"' {
      assert s[i] == s[k + |o|..q][i - k - |o|];
    }
    QuoteBeforeBreakAt(s, k + |o|, q);
    assert s[k + |o|] == (g2 + "\"")[0];
    NotStartingAt(s, CoreSuffix, k + |o|);
  }

  /** Where the reference pattern settles on such a text: group 1 is g1, OLD follows it, and the quote after g2 closes the match. */
  lemma RefSplitOnLayout(s: string, o: string, g1: string, g2: string)
    requires RefShaped(s, o, g1, g2)
    requires o != [] && o[0] !in g1 && '\n' !in g1 && '\n' !in g2 && '"' !in g2 && (g2 == [] || g2[0] != '.')
    ensures SpaceRun(s, 17) == 1
    ensures RefSplit(s, o, 27) == Some((27 + |g1|, 27 + |g1| + |o| + |g2|))
  {
    var k := 27 + |g1|;
    RefTailAfterGroup(s, o, g1, g2);
    forall i | 27 <= i < k ensures s[i] != '\n' && !OccursAt(s, o, i) {
      assert s[i] == s[27..k][i - 27];
      NotStartingAt(s, o, i);
    }
    RefSplitAt(s, o, 27, k);
  }

  /** On such a text the reference pattern matches at the start, up to and including the closing quote. */
  lemma RefHitOnLayout(s: string, o: string, n: string, g1: string, g2: string)
    requires RefShaped(s, o, g1, g2)
    requires o != [] && o[0] !in g1 && '\n' !in g1 && '\n' !in g2 && '"' !in g2 && (g2 == [] || g2[0] != '.')
    ensures RefHit(s, o, n) == Some(Hit(28 + |g1| + |o| + |g2|, ProjectRefOpen + " " + IncludeOpen + g1 + n + g2 + "\""))
  {
    var k := 27 + |g1|;
    var q := k + |o| + |g2|;
    RefSplitOnLayout(s, o, g1, g2);
    assert RefHit(s, o, n) == Some(Hit(q + 1, ProjectRefOpen + " " + IncludeOpen + s[27..k] + n + s[k + |o|..q] + "\""));
  }

  /** At index 0 the reference rule consults the whole text. */
  lemma RefMatcherAtStart(s: string, o: string, n: string)
    requires s != []
    ensures MatcherOf(ProjectRef(o, n), s)(0) == RefHit(s, o, n)
  {
    assert s[0..] == s;
  }

  /** No reference starts from `from` on when no `<` stands there. */
  lemma NoRefWithoutOpen(s: string, o: string, n: string, from: nat)
    requires from <= |s| && '<' !in s[from..]
    ensures forall p :: from <= p < |s| ==> !HitsAt(s, MatcherOf(ProjectRef(o, n), s), p)
  {
    forall p | from <= p < |s| ensures !HitsAt(s, MatcherOf(ProjectRef(o, n), s), p) {
      assert s[p] == s[from..][p - from];
      RefMissAt(s, o, n, p);
    }
  }

  /** `<ProjectReference Include="g1 OLD g2"` + close: OLD becomes NEW, the rest of the reference and close stay. */
  lemma ReferenceRenamed(o: string, n: string, g1: string, g2: string, close: string)
    requires o != [] && o[0] !in g1 && '\n' !in g1 && '\n' !in g2 && '"' !in g2 && (g2 == [] || g2[0] != '.')
    requires '<' !in close
    ensures UpdateProjectReferences(ProjectRefOpen + " " + IncludeOpen + g1 + o + g2 + "\"" + close, o, n)
         == ProjectRefOpen + " " + IncludeOpen + g1 + n + g2 + "\"" + close
  {
    var s := ProjectRefOpen + " " + IncludeOpen + g1 + o + g2 + "\"" + close;
    var m := MatcherOf(ProjectRef(o, n), s);
    var e := 28 + |g1| + |o| + |g2|;
    RefLayout(s, o, g1, g2, close);
    RefHitOnLayout(s, o, n, g1, g2);
    RefMatcherAtStart(s, o, n);
    NoRefWithoutOpen(s, o, n, e);
    ScanSingleMatch(s, m, 0);
  }

  const RefDir := "..\\"
  const RefFile := "\\SomeProject.csproj"
  const RefClose := " />"

  /**
   * The reference test: `<ProjectReference Include="..\Myrtus.Clarity\SomeProject.csproj" />`
   * becomes `<ProjectReference Include="..\MyProject\SomeProject.csproj" />`.
   */
  lemma UpdateProjectReferencesExample()
    ensures UpdateProjectReferences(ProjectRefOpen + " " + IncludeOpen + RefDir + Token + RefFile + "\"" + RefClose, Token, NewName)
         == ProjectRefOpen + " " + IncludeOpen + RefDir + NewName + RefFile + "\"" + RefClose
  {
    ReferenceRenamed(Token, NewName, RefDir, RefFile, RefClose);
  }
}
