/**
 * The patterns of every Regex.Replace and string.Replace call of the project
 * generator.  A `Rule` says, for each position of the input, whether a match
 * starts there, how long it is and what replaces it; `Rewrite` runs the
 * scanner of module Scanner over those matches.  The three regular
 * expressions are modelled with .NET's backtracking made explicit: the
 * greedy `\s+` of the `using` pattern gives back blanks until the rest fits,
 * and the lazy groups of the ProjectReference pattern take as little as they
 * can without crossing a line feed.
 */
module Rewriter {
  import opened Common
  import opened Scanner

  datatype Rule =
      /** `\bOLD\b(?!\.Core)` replaced by NEW. */
    | Word(oldName: string, newName: string)
      /** `using\s+OLD\.(?!Core)` replaced by `using NEW.`. */
    | Using(oldName: string, newName: string)
      /** `<ProjectReference\s+Include="(.*?)OLD(?!\.Core)(.*?)"` replaced by the reference with NEW in place of OLD. */
    | ProjectRef(oldName: string, newName: string)
      /** A fixed text, compared ordinally or ignoring ASCII case (string.Replace, or Regex.Replace of a plain pattern). */
    | Literal(pattern: string, replacement: string, ignoreCase: bool)
  {
    /** Every match is non-empty: the token and the fixed patterns are never the empty string. */
    predicate WellFormed() {
      match this
      case Word(oldName, _) => oldName != []
      case Literal(pattern, _, _) => pattern != []
      case _ => true
    }
  }

  const CoreSuffix := ".Core"
  const UsingKeyword := "using"
  const ProjectRefOpen := "<ProjectReference"
  const IncludeOpen := "Include=\""

  predicate WordAt(s: string, j: int) {
    0 <= j < |s| && IsWordChar(s[j])
  }

  /** The regex assertion `\b` at index j: exactly one of s[j-1], s[j] is a word character (outside the text counts as non-word). */
  predicate Boundary(s: string, j: int) {
    WordAt(s, j - 1) != WordAt(s, j)
  }

  /** The token stands at i and is not the start of a `.Core` name: the lookahead `(?!\.Core)` is a prefix test. */
  predicate LiveToken(s: string, token: string, i: nat) {
    OccursAt(s, token, i) && !OccursAt(s, CoreSuffix, i + |token|)
  }

  /** `\bOLD\b(?!\.Core)` matches at index i. */
  predicate WordHit(s: string, oldName: string, i: nat) {
    LiveToken(s, oldName, i) && Boundary(s, i) && Boundary(s, i + |oldName|)
  }

  /** Length of the run of `\s` characters starting at j. */
  function SpaceRun(s: string, j: nat): (w: nat)
    requires j <= |s|
    ensures j + w <= |s|
    ensures forall t :: j <= t < j + w ==> IsSpace(s[t])
    ensures j + w < |s| ==> !IsSpace(s[j + w])
    decreases |s| - j
  {
    if j < |s| && IsSpace(s[j]) then 1 + SpaceRun(s, j + 1) else 0
  }

  /** A run of d blanks from j lies within the run SpaceRun measures. */
  lemma {:induction false} SpaceRunIsMaximal(s: string, j: nat, d: nat)
    requires j + d <= |s|
    requires forall e :: j <= e < j + d ==> IsSpace(s[e])
    ensures d <= SpaceRun(s, j)
    decreases d
  {
    if d > 0 {
      SpaceRunIsMaximal(s, j + 1, d - 1);
    }
  }

  /** `OLD\.(?!Core)` matches at p. */
  predicate UsingFits(s: string, oldName: string, p: nat) {
    OccursAt(s, oldName + ".", p) && !OccursAt(s, "Core", p + |oldName| + 1)
  }

  /**
   * The backtracking of the greedy `\s+` in `using\s+OLD\.(?!Core)`: the
   * widest width, from `w` down to 1, after which the rest of the pattern fits.
   */
  function UsingFit(s: string, oldName: string, j: nat, w: nat): (r: Option<nat>)
    ensures r.Some? ==> 1 <= r.value <= w && j + r.value + |oldName| + 1 <= |s|
  {
    if w == 0 then None
    else if UsingFits(s, oldName, j + w) then Some(w)
    else UsingFit(s, oldName, j, w - 1)
  }

  /** The lazy `(.*?)"`: the first `"` at or after j with no line feed before it. */
  function QuoteBeforeBreak(s: string, j: nat): (q: Option<nat>)
    requires j <= |s|
    ensures q.Some? ==> j <= q.value < |s| && s[q.value] == '"'
    decreases |s| - j
  {
    if j == |s| || s[j] == '\n' then None
    else if s[j] == '"' then Some(j)
    else QuoteBeforeBreak(s, j + 1)
  }

  /**
   * The lazy `(.*?)OLD(?!\.Core)(.*?)"` from index k: the first k' >= k, with
   * no line feed in between, where OLD stands, is not followed by `.Core`,
   * and a closing quote follows on the same line.  Returns k' and the index
   * of that quote.
   */
  function RefSplit(s: string, oldName: string, k: nat): (r: Option<(nat, nat)>)
    requires k <= |s|
    ensures r.Some? ==> k <= r.value.0 && r.value.0 + |oldName| <= r.value.1 < |s|
    decreases |s| - k
  {
    if RefTailAt(s, oldName, k) then Some((k, QuoteBeforeBreak(s, k + |oldName|).value))
    else if k < |s| && s[k] != '\n' then RefSplit(s, oldName, k + 1)
    else None
  }

  /** `OLD(?!\.Core)(.*?)"` matches at k: OLD, not followed by `.Core`, then a closing quote on the same line. */
  predicate RefTailAt(s: string, oldName: string, k: nat) {
    LiveToken(s, oldName, k) && QuoteBeforeBreak(s, k + |oldName|).Some?
  }

  /** No line feed in s[a..b]: the lazy groups of the ProjectReference pattern can span it. */
  predicate NoFeedIn(s: string, a: nat, b: nat) {
    forall i :: a <= i < b && i < |s| ==> s[i] != '\n'
  }

  /** The match of `using\s+OLD\.(?!Core)` at the start of t. */
  function UsingHit(t: string, oldName: string, newName: string): (h: Option<Hit>)
    ensures h.Some? ==> 0 < h.value.len <= |t|
  {
    if StartsWith(t, UsingKeyword) then
      var w := UsingFit(t, oldName, 5, SpaceRun(t, 5));
      if w.Some? then Some(Hit(5 + w.value + |oldName| + 1, UsingKeyword + " " + newName + ".")) else None
    else None
  }

  /**
   * The match of `<ProjectReference\s+Include="(.*?)OLD(?!\.Core)(.*?)"` at
   * the start of t, replaced by `<ProjectReference Include="` + group 1 + NEW
   * + group 2 + `"`.  The greedy `\s+` needs no backtracking: a shorter run
   * would leave a blank where `Include` must start.
   */
  function RefHit(t: string, oldName: string, newName: string): (h: Option<Hit>)
    ensures h.Some? ==> 0 < h.value.len <= |t|
  {
    if StartsWith(t, ProjectRefOpen) then
      var w := SpaceRun(t, 17);
      var a := 17 + w + 9;
      if w > 0 && OccursAt(t, IncludeOpen, 17 + w) then
        var split := RefSplit(t, oldName, a);
        if split.Some? then
          var k := split.value.0;
          var q := split.value.1;
          Some(Hit(q + 1, ProjectRefOpen + " " + IncludeOpen + t[a..k] + newName + t[k + |oldName|..q] + "\""))
        else None
      else None
    else None
  }

  /** The match of a fixed text at the start of t, compared ordinally or ignoring ASCII case. */
  function LiteralHit(t: string, p: string, rep: string, ignoreCase: bool): (h: Option<Hit>)
    requires p != []
    ensures h.Some? ==> 0 < h.value.len <= |t|
  {
    if |p| <= |t| && (if ignoreCase then EqualsIgnoreCase(t[..|p|], p) else t[..|p|] == p)
    then Some(Hit(|p|, rep))
    else None
  }

  /**
   * The match of `r` starting at index i of s, if there is one.  Only the
   * whole-word rule looks behind i (for `\b`); the others see only s[i..].
   */
  function HitAt(r: Rule, s: string, i: nat): (h: Option<Hit>)
    requires r.WellFormed() && i < |s|
    ensures h.Some? ==> 0 < h.value.len <= |s| - i
  {
    match r
    case Word(oldName, newName) => if WordHit(s, oldName, i) then Some(Hit(|oldName|, newName)) else None
    case Using(oldName, newName) => UsingHit(s[i..], oldName, newName)
    case ProjectRef(oldName, newName) => RefHit(s[i..], oldName, newName)
    case Literal(p, rep, ignoreCase) => LiteralHit(s[i..], p, rep, ignoreCase)
  }

  /** The rule's matches in s, index by index: what the scanner consults. */
  function MatcherOf(r: Rule, s: string): (m: Matcher)
    requires r.WellFormed()
    ensures Sound(m, |s|)
  {
    (i: nat) => if i < |s| then HitAt(r, s, i) else None
  }

  /** Regex.Replace / string.Replace of rule r over s. */
  function Rewrite(r: Rule, s: string): string
    requires r.WellFormed()
  {
    Scan(s, MatcherOf(r, s), 0)
  }

  // ---------------------------------------------------------------------
  // What the backtracking settles on.

  /** The greedy `\s+` settles on the widest width that fits ... */
  lemma {:induction false} UsingFitIsWidest(s: string, oldName: string, j: nat, w: nat)
    ensures UsingFit(s, oldName, j, w).Some? ==>
              var v := UsingFit(s, oldName, j, w).value;
              UsingFits(s, oldName, j + v) && forall p :: j + v < p <= j + w ==> !UsingFits(s, oldName, p)
  {
    if w > 0 && !UsingFits(s, oldName, j + w) {
      UsingFitIsWidest(s, oldName, j, w - 1);
    }
  }

  /** ... and fails only when no width fits. */
  lemma {:induction false} UsingFitFailsOnlyWithoutFit(s: string, oldName: string, j: nat, w: nat)
    ensures UsingFit(s, oldName, j, w).None? ==> forall p :: j + 1 <= p <= j + w ==> !UsingFits(s, oldName, p)
  {
    if w > 0 && !UsingFits(s, oldName, j + w) {
      UsingFitFailsOnlyWithoutFit(s, oldName, j, w - 1);
    }
  }

  /** The lazy `(.*?)"` stops at the first quote, and fails when a line feed or the end comes first. */
  lemma {:induction false} QuoteIsFirst(s: string, j: nat)
    requires j <= |s|
    ensures QuoteBeforeBreak(s, j).Some? ==>
              var q := QuoteBeforeBreak(s, j).value;
              NoFeedIn(s, j, q) && forall i :: j <= i < q ==> s[i] != '"'
    ensures QuoteBeforeBreak(s, j).None? ==> forall i :: j <= i < |s| && NoFeedIn(s, j, i) ==> s[i] != '"'
    decreases |s| - j
  {
    if j < |s| && s[j] != '\n' && s[j] != '"' {
      QuoteIsFirst(s, j + 1);
      forall i | j <= i < |s| && NoFeedIn(s, j, i) ensures NoFeedIn(s, j + 1, i) {
      }
    }
  }

  /**
   * The lazy `(.*?)OLD(?!\.Core)` takes the first position, reachable from k
   * without crossing a line feed, where the rest of the pattern matches ...
   */
  lemma {:induction false} RefSplitIsFirst(s: string, oldName: string, k: nat)
    requires k <= |s|
    ensures RefSplit(s, oldName, k).Some? ==>
              var k' := RefSplit(s, oldName, k).value.0;
              && RefTailAt(s, oldName, k')
              && NoFeedIn(s, k, k')
              && forall i :: k <= i < k' ==> !RefTailAt(s, oldName, i)
    decreases |s| - k
  {
    if !RefTailAt(s, oldName, k) && k < |s| && s[k] != '\n' {
      RefSplitIsFirst(s, oldName, k + 1);
    }
  }

  /** The index a successful split returns second is the closing quote after its OLD. */
  lemma {:induction false} RefSplitQuote(s: string, oldName: string, k: nat)
    requires k <= |s| && RefSplit(s, oldName, k).Some?
    ensures QuoteBeforeBreak(s, RefSplit(s, oldName, k).value.0 + |oldName|) == Some(RefSplit(s, oldName, k).value.1)
    decreases |s| - k
  {
    if !RefTailAt(s, oldName, k) {
      RefSplitQuote(s, oldName, k + 1);
    }
  }

  /** ... and fails only when there is no such position. */
  lemma {:induction false} RefSplitFailsOnlyWithoutTail(s: string, oldName: string, k: nat)
    requires k <= |s|
    ensures RefSplit(s, oldName, k).None? ==> forall i :: k <= i <= |s| && NoFeedIn(s, k, i) ==> !RefTailAt(s, oldName, i)
    decreases |s| - k
  {
    if !RefTailAt(s, oldName, k) && k < |s| && s[k] != '\n' {
      RefSplitFailsOnlyWithoutTail(s, oldName, k + 1);
      forall i | k <= i <= |s| && NoFeedIn(s, k, i) ensures NoFeedIn(s, k + 1, i) {
      }
    }
  }

  /** Where a successful split puts OLD and the closing quote. */
  lemma RefSplitFacts(t: string, oldName: string, a: nat) returns (k: nat, q: nat)
    requires a <= |t| && RefSplit(t, oldName, a).Some?
    ensures (k, q) == RefSplit(t, oldName, a).value
    ensures a <= k && k + |oldName| <= q < |t| && t[q] == '"'
    ensures LiveToken(t, oldName, k) && NoFeedIn(t, a, k) && NoFeedIn(t, k + |oldName|, q)
    ensures forall i :: a <= i < k ==> !RefTailAt(t, oldName, i)
    ensures forall i :: k + |oldName| <= i < q ==> t[i] != '"'
  {
    RefSplitIsFirst(t, oldName, a);
    RefSplitQuote(t, oldName, a);
    k, q := RefSplit(t, oldName, a).value.0, RefSplit(t, oldName, a).value.1;
    QuoteIsFirst(t, k + |oldName|);
  }

  /** `.Core` at q means `Core` at q + 1. */
  lemma CoreAfterDot(s: string, q: nat)
    ensures OccursAt(s, CoreSuffix, q) ==> OccursAt(s, "Core", q + 1)
  {
    if OccursAt(s, CoreSuffix, q) {
      assert s[q + 1..q + 5] == s[q..q + 5][1..];
    }
  }

  /** Where a successful `\s+` width puts the blanks, OLD and the dot. */
  lemma UsingFitFacts(t: string, oldName: string) returns (w: nat)
    requires 5 <= |t| && UsingFit(t, oldName, 5, SpaceRun(t, 5)).Some?
    ensures w == UsingFit(t, oldName, 5, SpaceRun(t, 5)).value
    ensures 1 <= w && 5 + w + |oldName| + 1 <= |t|
    ensures forall d :: 5 <= d < 5 + w ==> IsSpace(t[d])
    ensures t[5 + w..5 + w + |oldName| + 1] == oldName + "."
    ensures LiveToken(t, oldName, 5 + w)
  {
    var run := SpaceRun(t, 5);
    UsingFitIsWidest(t, oldName, 5, run);
    w := UsingFit(t, oldName, 5, run).value;
    var e := 5 + w + |oldName| + 1;
    assert t[5 + w..5 + w + |oldName|] == t[5 + w..e][..|oldName|];
    CoreAfterDot(t, 5 + w + |oldName|);
  }

  /**
   * A match of the `using` rule is `using`, one or more blanks, then OLD and a
   * dot that do not start `OLD.Core`; it becomes `using NEW.`, so the blanks
   * collapse to one space.
   */
  lemma UsingHitShape(t: string, oldName: string, newName: string) returns (w: nat)
    requires UsingHit(t, oldName, newName).Some?
    ensures 1 <= w && UsingHit(t, oldName, newName).value.len == 5 + w + |oldName| + 1 <= |t|
    ensures t[..5] == UsingKeyword && forall d :: 5 <= d < 5 + w ==> IsSpace(t[d])
    ensures t[5 + w..5 + w + |oldName| + 1] == oldName + "."
    ensures LiveToken(t, oldName, 5 + w)
    ensures UsingHit(t, oldName, newName).value.text == "using " + newName + "."
  {
    w := UsingFitFacts(t, oldName);
  }

  /**
   * A match of the ProjectReference rule runs from `<ProjectReference`, one
   * or more blanks and `Include="` to the closing quote.  It keeps the text
   * before and after the first live OLD reachable on the line and puts NEW in
   * its place; the blanks collapse to one space.
   */
  lemma RefHitShape(t: string, oldName: string, newName: string) returns (w: nat, k: nat, q: nat)
    requires RefHit(t, oldName, newName).Some?
    ensures 0 < w && 26 + w <= k && k + |oldName| <= q < |t| && RefHit(t, oldName, newName).value.len == q + 1
    ensures t[..17] == ProjectRefOpen && forall d :: 17 <= d < 17 + w ==> IsSpace(t[d])
    ensures t[17 + w..26 + w] == IncludeOpen && t[q] == '"'
    ensures RefHit(t, oldName, newName).value.text == ProjectRefOpen + " " + IncludeOpen + t[26 + w..k] + newName + t[k + |oldName|..q] + "\""
    ensures LiveToken(t, oldName, k) && NoFeedIn(t, 26 + w, k) && NoFeedIn(t, k + |oldName|, q)
    ensures forall i :: 26 + w <= i < k ==> !RefTailAt(t, oldName, i)
    ensures forall i :: k + |oldName| <= i < q ==> t[i] != '"'
  {
    w := SpaceRun(t, 17);
    k, q := RefSplitFacts(t, oldName, 26 + w);
  }

  /** Conversely, `using`, a run of d blanks and a fitting OLD-dot is a match of the `using` rule. */
  lemma UsingHitWhenFits(t: string, oldName: string, newName: string, d: nat)
    requires StartsWith(t, UsingKeyword) && 1 <= d && 5 + d <= |t|
    requires forall e :: 5 <= e < 5 + d ==> IsSpace(t[e])
    requires UsingFits(t, oldName, 5 + d)
    ensures UsingHit(t, oldName, newName).Some?
  {
    var run := SpaceRun(t, 5);
    SpaceRunIsMaximal(t, 5, d);
    UsingFitFailsOnlyWithoutFit(t, oldName, 5, run);
  }

  /**
   * Conversely, `<ProjectReference`, blanks, `Include="` and a live OLD with
   * a closing quote after it, reachable without crossing a line feed, is a
   * match of the ProjectReference rule.
   */
  lemma RefHitWhenTail(t: string, oldName: string, newName: string, k: nat)
    requires StartsWith(t, ProjectRefOpen) && 0 < SpaceRun(t, 17)
    requires OccursAt(t, IncludeOpen, 17 + SpaceRun(t, 17))
    requires 26 + SpaceRun(t, 17) <= k <= |t| && NoFeedIn(t, 26 + SpaceRun(t, 17), k)
    requires RefTailAt(t, oldName, k)
    ensures RefHit(t, oldName, newName).Some?
  {
    RefSplitFailsOnlyWithoutTail(t, oldName, 26 + SpaceRun(t, 17));
  }

  /** A closing quote with no line feed and no quote before it is the one the lazy group stops at. */
  lemma QuoteBeforeBreakAt(s: string, j: nat, q: nat)
    requires j <= q < |s| && s[q] == '"' && NoFeedIn(s, j, q)
    requires forall i :: j <= i < q ==> s[i] != '"'
    ensures QuoteBeforeBreak(s, j) == Some(q)
  {
    QuoteIsFirst(s, j);
  }

  /** The first reachable live OLD with a closing quote after it is where the lazy group 1 stops. */
  lemma {:induction false} RefSplitAt(s: string, oldName: string, k: nat, k': nat)
    requires k <= k' <= |s| && NoFeedIn(s, k, k') && RefTailAt(s, oldName, k')
    requires forall i :: k <= i < k' ==> !RefTailAt(s, oldName, i)
    ensures RefSplit(s, oldName, k) == Some((k', QuoteBeforeBreak(s, k' + |oldName|).value))
    decreases k' - k
  {
    if k < k' {
      assert !RefTailAt(s, oldName, k) && s[k] != '\n';
      RefSplitAt(s, oldName, k + 1, k');
    }
  }

  // ---------------------------------------------------------------------
  // When a rewrite leaves its input alone.

  /** A live token in the tail s[k..] is a live token in s, k places further on. */
  lemma LiveTokenShift(s: string, token: string, k: nat, j: nat)
    requires k <= |s|
    ensures LiveToken(s[k..], token, j) <==> LiveToken(s, token, k + j)
  {
    OccursAtShift(s, token, k, j);
    OccursAtShift(s, CoreSuffix, k, j + |token|);
  }

  /** Every match of a token rule sits on a live token of its input. */
  lemma TokenHitIsLive(r: Rule, s: string, i: nat)
    requires r.WellFormed() && !r.Literal? && i < |s|
    ensures HitAt(r, s, i).Some? ==> exists q: nat :: LiveToken(s, r.oldName, q)
  {
    if HitAt(r, s, i).Some? {
      if r.Word? {
        assert LiveToken(s, r.oldName, i);
      } else if r.Using? {
        var w := UsingHitShape(s[i..], r.oldName, r.newName);
        LiveTokenShift(s, r.oldName, i, 5 + w);
      } else {
        var w, k, q := RefHitShape(s[i..], r.oldName, r.newName);
        LiveTokenShift(s, r.oldName, i, k);
      }
    }
  }

  /** A token rule changes nothing in a text where OLD never appears without `.Core` after it. */
  lemma RewriteWithoutLiveToken(r: Rule, s: string)
    requires r.WellFormed() && !r.Literal?
    requires forall q: nat :: !LiveToken(s, r.oldName, q)
    ensures Rewrite(r, s) == s
  {
    var m := MatcherOf(r, s);
    forall p: nat ensures !HitsAt(s, m, p) {
      if p < |s| {
        TokenHitIsLive(r, s, p);
      }
    }
    ScanWithoutMatch(s, m);
  }

  /**
   * A literal rule matches at i exactly where its pattern occurs at i,
   * ordinally or with both sides lower-cased; the match covers the pattern
   * and is replaced by the rule's replacement.
   */
  lemma LiteralHitIsOccurrence(s: string, p: string, rep: string, ignoreCase: bool, i: nat)
    requires p != [] && i < |s|
    ensures HitAt(Literal(p, rep, ignoreCase), s, i).Some? <==>
              if ignoreCase then OccursAt(Lower(s), Lower(p), i) else OccursAt(s, p, i)
    ensures HitAt(Literal(p, rep, ignoreCase), s, i).Some? ==> HitAt(Literal(p, rep, ignoreCase), s, i).value == Hit(|p|, rep)
  {
    if i + |p| <= |s| {
      assert s[i..][..|p|] == s[i..i + |p|];
      LowerSlice(s, i, i + |p|);
    }
  }

  /** The literal counterpart of WordMatchesAreLiveWords: the matches are the occurrences of the pattern. */
  lemma LiteralMatchesAreOccurrences(s: string, p: string, rep: string, ignoreCase: bool)
    requires p != []
    ensures forall i: nat :: HitsAt(s, MatcherOf(Literal(p, rep, ignoreCase), s), i) <==>
              if ignoreCase then OccursAt(Lower(s), Lower(p), i) else OccursAt(s, p, i)
    ensures forall i: nat :: HitsAt(s, MatcherOf(Literal(p, rep, ignoreCase), s), i) ==>
              MatcherOf(Literal(p, rep, ignoreCase), s)(i).value == Hit(|p|, rep)
  {
    forall i: nat
      ensures HitsAt(s, MatcherOf(Literal(p, rep, ignoreCase), s), i) <==>
                if ignoreCase then OccursAt(Lower(s), Lower(p), i) else OccursAt(s, p, i)
      ensures HitsAt(s, MatcherOf(Literal(p, rep, ignoreCase), s), i) ==>
                MatcherOf(Literal(p, rep, ignoreCase), s)(i).value == Hit(|p|, rep)
    {
      if i < |s| {
        LiteralHitIsOccurrence(s, p, rep, ignoreCase, i);
      }
    }
  }

  /** A literal rule changes nothing in a text that does not contain its pattern. */
  lemma RewriteWithoutOccurrence(p: string, rep: string, ignoreCase: bool, s: string)
    requires p != []
    requires if ignoreCase then !ContainsIgnoreCase(s, p) else !Contains(s, p)
    ensures Rewrite(Literal(p, rep, ignoreCase), s) == s
  {
    var m := MatcherOf(Literal(p, rep, ignoreCase), s);
    forall i: nat ensures !HitsAt(s, m, i) {
      if i < |s| {
        LiteralHitIsOccurrence(s, p, rep, ignoreCase, i);
        assert HitsAt(s, m, i) ==> if ignoreCase then OccursAt(Lower(s), Lower(p), i) else OccursAt(s, p, i);
      }
    }
    ScanWithoutMatch(s, m);
  }

  // ---------------------------------------------------------------------
  // The rewrite as .NET describes Replace.

  /**
   * Rewriting with rule r replaces the leftmost non-overlapping matches of r,
   * each by its replacement text, and copies everything else.
   */
  lemma RewriteIsSplice(r: Rule, s: string)
    requires r.WellFormed()
    ensures IsMatchSet(s, MatcherOf(r, s), MatchesFrom(s, MatcherOf(r, s), 0))
    ensures forall ps :: IsMatchSet(s, MatcherOf(r, s), ps) ==> Rewrite(r, s) == Splice(s, MatcherOf(r, s), ps, 0, 0)
    ensures SplicesMatches(r, s, Rewrite(r, s))
  {
    ScanReplacesLeftmostMatches(s, MatcherOf(r, s));
  }

  /** `out` is s with the leftmost non-overlapping matches of r replaced and the rest copied. */
  ghost predicate SplicesMatches(r: Rule, s: string, out: string)
    requires r.WellFormed()
  {
    && IsMatchSet(s, MatcherOf(r, s), MatchesFrom(s, MatcherOf(r, s), 0))
    && forall ps :: IsMatchSet(s, MatcherOf(r, s), ps) ==> out == Splice(s, MatcherOf(r, s), ps, 0, 0)
  }

  /** The whole-word rule matches exactly at the word-bounded live occurrences of OLD, each replaced by NEW. */
  lemma WordMatchesAreLiveWords(s: string, oldName: string, newName: string)
    requires oldName != []
    ensures forall p: nat :: HitsAt(s, MatcherOf(Word(oldName, newName), s), p) <==> WordHit(s, oldName, p)
    ensures forall p: nat :: HitsAt(s, MatcherOf(Word(oldName, newName), s), p) ==>
              MatcherOf(Word(oldName, newName), s)(p).value == Hit(|oldName|, newName)
  {
  }
}
