/**
 * The left-to-right replacement scanner that .NET's Regex.Replace and
 * string.Replace both amount to, over any matcher: it takes the leftmost
 * match, copies the text before it, emits the replacement, and resumes the
 * search right after the match, never rescanning replaced text.
 *
 * Its partner is the declarative account of Replace: find the leftmost
 * non-overlapping matches (`IsMatchSet`), then splice the replacements
 * between the untouched gaps (`Splice`).
 */
module Scanner {
  import opened Common

  /** A match starting at some position: its length and its replacement text. */
  datatype Hit = Hit(len: nat, text: string)


  /** For one text: the match starting at each index, if any. */
  type Matcher = nat -> Option<Hit>

  /** Every match is non-empty and ends inside a text of length n. */
  ghost predicate Sound(m: Matcher, n: nat) {
    forall i: nat :: i < n && m(i).Some? ==> 0 < m(i).value.len <= n - i
  }

  predicate HitsAt(s: string, m: Matcher, i: nat) {
    i < |s| && m(i).Some?
  }

  /** End (exclusive) of the match starting at p. */
  function SpanEnd(s: string, m: Matcher, p: nat): (e: nat)
    requires Sound(m, |s|) && HitsAt(s, m, p)
    ensures p < e <= |s|
  {
    p + m(p).value.len
  }

  /** Left to right from index i: emit the replacement of a match and jump past it, or copy one character. */
  function Scan(s: string, m: Matcher, i: nat): string
    requires Sound(m, |s|) && i <= |s|
    decreases |s| - i
  {
    if i == |s| then []
    else
      match m(i)
      case Some(h) => h.text + Scan(s, m, i + h.len)
      case None => [s[i]] + Scan(s, m, i + 1)
  }

  lemma ScanAtHit(s: string, m: Matcher, i: nat)
    requires Sound(m, |s|) && HitsAt(s, m, i)
    ensures Scan(s, m, i) == m(i).value.text + Scan(s, m, SpanEnd(s, m, i))
  {
  }

  lemma ScanAtGap(s: string, m: Matcher, i: nat)
    requires Sound(m, |s|) && i < |s| && !HitsAt(s, m, i)
    ensures Scan(s, m, i) == [s[i]] + Scan(s, m, i + 1)
  {
  }

  /** ps lists match positions in increasing order, each match ending before the next begins. */
  ghost predicate Spans(s: string, m: Matcher, ps: seq<nat>)
    requires Sound(m, |s|)
  {
    && (forall k :: 0 <= k < |ps| ==> HitsAt(s, m, ps[k]))
    && (forall k, l :: 0 <= k < l < |ps| ==> SpanEnd(s, m, ps[k]) <= ps[l])
  }

  /**
   * A match starts at p.  (The same as HitsAt; `Covers` quantifies over this
   * name so that the spans it produces do not feed it again.)
   */
  ghost predicate MatchStart(s: string, m: Matcher, p: nat) {
    HitsAt(s, m, p)
  }

  /** Every match start at or after `from` lies inside one of the spans ps[k..]. */
  ghost predicate Covers(s: string, m: Matcher, ps: seq<nat>, k: nat, from: nat)
    requires Sound(m, |s|) && Spans(s, m, ps)
  {
    forall p: nat :: from <= p && MatchStart(s, m, p) ==> exists j :: k <= j < |ps| && ps[j] <= p < SpanEnd(s, m, ps[j])
  }

  /** ps is the leftmost non-overlapping match set of m in s. */
  ghost predicate IsMatchSet(s: string, m: Matcher, ps: seq<nat>)
    requires Sound(m, |s|)
  {
    Spans(s, m, ps) && Covers(s, m, ps, 0, 0)
  }

  /**
   * The text from `from` on, with the spans ps[k..] replaced: the gaps are
   * copied and each match is replaced by its replacement text.  (A list that
   * is not made of spans is spliced only as far as it is.)
   */
  ghost function Splice(s: string, m: Matcher, ps: seq<nat>, k: nat, from: nat): string
    requires Sound(m, |s|) && from <= |s| && k <= |ps|
    decreases |ps| - k
  {
    if k == |ps| || !(from <= ps[k] && HitsAt(s, m, ps[k])) then s[from..]
    else s[from..ps[k]] + m(ps[k]).value.text + Splice(s, m, ps, k + 1, SpanEnd(s, m, ps[k]))
  }

  /** Where a match starts, it is the next span, and the covering moves on to the spans after it. */
  lemma SpliceAtMatch(s: string, m: Matcher, ps: seq<nat>, k: nat, i: nat)
    requires Sound(m, |s|) && Spans(s, m, ps) && k <= |ps| && (k < |ps| ==> i <= ps[k])
    requires Covers(s, m, ps, k, i) && HitsAt(s, m, i)
    ensures k < |ps| && ps[k] == i
    ensures Covers(s, m, ps, k + 1, SpanEnd(s, m, i))
  {
    assert MatchStart(s, m, i);
    var j :| k <= j < |ps| && ps[j] <= i < SpanEnd(s, m, ps[j]);
    var e := SpanEnd(s, m, i);
    forall p: nat | e <= p && MatchStart(s, m, p)
      ensures exists j' :: k + 1 <= j' < |ps| && ps[j'] <= p < SpanEnd(s, m, ps[j'])
    {
      var j' :| k <= j' < |ps| && ps[j'] <= p < SpanEnd(s, m, ps[j']);
      assert j' != k;
    }
  }

  /** Where no match starts, the same spans cover from the next index. */
  lemma SpliceAtGap(s: string, m: Matcher, ps: seq<nat>, k: nat, i: nat)
    requires Sound(m, |s|) && Spans(s, m, ps) && k <= |ps| && (k < |ps| ==> i <= ps[k])
    requires Covers(s, m, ps, k, i) && i < |s| && !HitsAt(s, m, i)
    ensures k < |ps| ==> i + 1 <= ps[k]
    ensures Covers(s, m, ps, k, i + 1)
    ensures Splice(s, m, ps, k, i) == [s[i]] + Splice(s, m, ps, k, i + 1)
  {
    assert k < |ps| ==> HitsAt(s, m, ps[k]);
    CoversLater(s, m, ps, k, i, i + 1);
    SpliceGapStep(s, m, ps, k, i);
  }

  lemma CoversLater(s: string, m: Matcher, ps: seq<nat>, k: nat, i: nat, i': nat)
    requires Sound(m, |s|) && Spans(s, m, ps) && Covers(s, m, ps, k, i) && i <= i'
    ensures Covers(s, m, ps, k, i')
  {
    forall p: nat | i' <= p && MatchStart(s, m, p)
      ensures exists j :: k <= j < |ps| && ps[j] <= p < SpanEnd(s, m, ps[j])
    {
      assert i <= p;
    }
  }

  lemma SpliceGapStep(s: string, m: Matcher, ps: seq<nat>, k: nat, i: nat)
    requires Sound(m, |s|) && k <= |ps| && i < |s| && (k < |ps| ==> i + 1 <= ps[k])
    ensures Splice(s, m, ps, k, i) == [s[i]] + Splice(s, m, ps, k, i + 1)
  {
    if k == |ps| || !HitsAt(s, m, ps[k]) {
      assert s[i..] == [s[i]] + s[i + 1..];
    } else {
      assert s[i..ps[k]] == [s[i]] + s[i + 1..ps[k]];
    }
  }

  /** The scanner, from index i, produces the splice of the spans ps[k..] that cover the rest of the text. */
  lemma {:induction false} ScanFromIsSplice(s: string, m: Matcher, ps: seq<nat>, k: nat, i: nat)
    requires Sound(m, |s|) && Spans(s, m, ps) && i <= |s| && k <= |ps| && (k < |ps| ==> i <= ps[k])
    requires Covers(s, m, ps, k, i)
    ensures Scan(s, m, i) == Splice(s, m, ps, k, i)
    decreases |s| - i
  {
    assert k < |ps| ==> HitsAt(s, m, ps[k]);
    if i == |s| {
      assert k == |ps|;
    } else if HitsAt(s, m, i) {
      SpliceAtMatch(s, m, ps, k, i);
      var e := SpanEnd(s, m, i);
      ScanAtHit(s, m, i);
      assert k + 1 < |ps| ==> e <= ps[k + 1];
      ScanFromIsSplice(s, m, ps, k + 1, e);
      assert s[i..ps[k]] == [];
      assert Splice(s, m, ps, k, i) == [] + m(i).value.text + Splice(s, m, ps, k + 1, e);
    } else {
      ScanAtGap(s, m, i);
      SpliceAtGap(s, m, ps, k, i);
      ScanFromIsSplice(s, m, ps, k, i + 1);
    }
  }

  /** The scanner gives the splice of the leftmost non-overlapping matches. */
  lemma ScanIsSplice(s: string, m: Matcher, ps: seq<nat>)
    requires Sound(m, |s|) && IsMatchSet(s, m, ps)
    ensures Scan(s, m, 0) == Splice(s, m, ps, 0, 0)
  {
    ScanFromIsSplice(s, m, ps, 0, 0);
  }

  /** The leftmost matches from index i, found greedily: the witness that a match set always exists. */
  ghost function MatchesFrom(s: string, m: Matcher, i: nat): (ps: seq<nat>)
    requires Sound(m, |s|) && i <= |s|
    decreases |s| - i
  {
    if i == |s| then []
    else if HitsAt(s, m, i) then [i] + MatchesFrom(s, m, SpanEnd(s, m, i))
    else MatchesFrom(s, m, i + 1)
  }

  lemma {:induction false} MatchesFromIsMatchSet(s: string, m: Matcher, i: nat)
    requires Sound(m, |s|) && i <= |s|
    ensures forall k :: 0 <= k < |MatchesFrom(s, m, i)| ==> i <= MatchesFrom(s, m, i)[k]
    ensures Spans(s, m, MatchesFrom(s, m, i))
    ensures Covers(s, m, MatchesFrom(s, m, i), 0, i)
    decreases |s| - i
  {
    var ps := MatchesFrom(s, m, i);
    if i == |s| {
    } else if HitsAt(s, m, i) {
      var e := SpanEnd(s, m, i);
      var tail := MatchesFrom(s, m, e);
      MatchesFromIsMatchSet(s, m, e);
      assert ps == [i] + tail;
      PrependSpan(s, m, tail, i);
    } else {
      MatchesFromIsMatchSet(s, m, i + 1);
      forall p: nat | i <= p && MatchStart(s, m, p)
        ensures exists k :: 0 <= k < |ps| && ps[k] <= p < SpanEnd(s, m, ps[k])
      {
        assert p != i;
      }
    }
  }

  /** A match at i followed by spans covering everything after it gives spans covering everything from i. */
  lemma PrependSpan(s: string, m: Matcher, tail: seq<nat>, i: nat)
    requires Sound(m, |s|) && HitsAt(s, m, i) && Spans(s, m, tail)
    requires forall k :: 0 <= k < |tail| ==> SpanEnd(s, m, i) <= tail[k]
    requires Covers(s, m, tail, 0, SpanEnd(s, m, i))
    ensures forall k :: 0 <= k < |[i] + tail| ==> i <= ([i] + tail)[k]
    ensures Spans(s, m, [i] + tail)
    ensures Covers(s, m, [i] + tail, 0, i)
  {
    var ps := [i] + tail;
    var e := SpanEnd(s, m, i);
    assert forall k :: 0 < k < |ps| ==> ps[k] == tail[k - 1];
    forall p: nat | i <= p && MatchStart(s, m, p)
      ensures exists k :: 0 <= k < |ps| && ps[k] <= p < SpanEnd(s, m, ps[k])
    {
      if p < e {
        assert ps[0] <= p < SpanEnd(s, m, ps[0]);
      } else {
        var j :| 0 <= j < |tail| && tail[j] <= p < SpanEnd(s, m, tail[j]);
        assert ps[j + 1] == tail[j];
      }
    }
  }

  /**
   * The leftmost non-overlapping match set exists, and the scanner's output
   * is its splice: every position where a match starts ends up inside a
   * replaced span, and all other text is copied.
   */
  lemma ScanReplacesLeftmostMatches(s: string, m: Matcher)
    requires Sound(m, |s|)
    ensures IsMatchSet(s, m, MatchesFrom(s, m, 0))
    ensures forall ps :: IsMatchSet(s, m, ps) ==> Scan(s, m, 0) == Splice(s, m, ps, 0, 0)
  {
    MatchesFromIsMatchSet(s, m, 0);
    forall ps | IsMatchSet(s, m, ps) ensures Scan(s, m, 0) == Splice(s, m, ps, 0, 0) {
      ScanIsSplice(s, m, ps);
    }
  }

  /** A text where nothing matches comes back unchanged. */
  lemma ScanWithoutMatch(s: string, m: Matcher)
    requires Sound(m, |s|)
    requires forall p: nat :: !HitsAt(s, m, p)
    ensures Scan(s, m, 0) == s
  {
    assert IsMatchSet(s, m, []);
    ScanIsSplice(s, m, []);
  }

  /** A stretch where no match starts is copied as it is. */
  lemma {:induction false} ScanCopies(s: string, m: Matcher, i: nat, j: nat)
    requires Sound(m, |s|) && i <= j <= |s|
    requires forall p :: i <= p < j ==> !HitsAt(s, m, p)
    ensures Scan(s, m, i) == s[i..j] + Scan(s, m, j)
    decreases j - i
  {
    if i < j {
      ScanAtGap(s, m, i);
      ScanCopies(s, m, i + 1, j);
      assert s[i..j] == [s[i]] + s[i + 1..j];
    }
  }

  /** A text with a single match: the match is replaced and the rest is copied. */
  lemma ScanSingleMatch(s: string, m: Matcher, p: nat)
    requires Sound(m, |s|) && HitsAt(s, m, p)
    requires forall q :: 0 <= q < p ==> !HitsAt(s, m, q)
    requires forall q :: SpanEnd(s, m, p) <= q < |s| ==> !HitsAt(s, m, q)
    ensures Scan(s, m, 0) == s[..p] + m(p).value.text + s[SpanEnd(s, m, p)..]
  {
    var e := SpanEnd(s, m, p);
    var tail := Scan(s, m, e);
    ScanCopies(s, m, e, |s|);
    assert Scan(s, m, |s|) == [];
    assert tail == s[e..|s|] + [];
    assert tail == s[e..];
    ScanAtHit(s, m, p);
    var mid := Scan(s, m, p);
    assert mid == m(p).value.text + s[e..];
    ScanCopies(s, m, 0, p);
    assert s[0..p] == s[..p];
  }
}
