/**
 * Character classes, ordinal and ASCII case-insensitive comparisons, and the
 * line splitting and joining that File.ReadAllLines and File.WriteAllLines do.
 * .NET's culture-aware and Unicode rules are approximated by their ASCII part.
 */
module Common {

  datatype Option<T> = None | Some(value: T)

  datatype Result<T, E> = Ok(value: T) | Err(error: E)

  /** The regex class `\w`, restricted to ASCII. */
  predicate IsWordChar(c: char) {
    ('a' <= c <= 'z') || ('A' <= c <= 'Z') || ('0' <= c <= '9') || c == '_'
  }

  /** The regex class `\s`, restricted to ASCII (space, tab, LF, VT, FF, CR). */
  predicate IsSpace(c: char) {
    c == ' ' || c == '\t' || c == '\n' || c == '\r' || c as int == 11 || c as int == 12
  }

  /** ASCII case folding, the part of OrdinalIgnoreCase and ToLower this model keeps. */
  function LowerChar(c: char): char {
    if 'A' <= c <= 'Z' then (c as int - 'A' as int + 'a' as int) as char else c
  }

  function Lower(s: string): string {
    seq(|s|, i requires 0 <= i < |s| => LowerChar(s[i]))
  }

  predicate EqualsIgnoreCase(a: string, b: string) {
    Lower(a) == Lower(b)
  }

  /** `p` occurs in `s` starting at index `i` (ordinal comparison). */
  predicate OccursAt(s: string, p: string, i: nat) {
    i + |p| <= |s| && s[i..i + |p|] == p
  }

  /** string.Contains with ordinal comparison. */
  predicate Contains(s: string, p: string) {
    exists i: nat :: i <= |s| && OccursAt(s, p, i)
  }

  /** string.Contains with StringComparison.OrdinalIgnoreCase. */
  predicate ContainsIgnoreCase(s: string, p: string) {
    Contains(Lower(s), Lower(p))
  }

  predicate StartsWith(s: string, p: string) {
    OccursAt(s, p, 0)
  }

  predicate EndsWith(s: string, p: string) {
    |p| <= |s| && s[|s| - |p|..] == p
  }

  /** An occurrence in the tail s[k..] is an occurrence in s, k places further on. */
  lemma OccursAtShift(s: string, p: string, k: nat, j: nat)
    requires k <= |s|
    ensures OccursAt(s[k..], p, j) <==> OccursAt(s, p, k + j)
  {
    if k + j + |p| <= |s| {
      assert s[k..][j..j + |p|] == s[k + j..k + j + |p|];
    }
  }

  lemma LowerAppend(a: string, b: string)
    ensures Lower(a + b) == Lower(a) + Lower(b)
  {
  }

  lemma LowerSlice(s: string, i: nat, j: nat)
    requires i <= j <= |s|
    ensures Lower(s)[i..j] == Lower(s[i..j])
  {
  }

  /** An occurrence of x + y + z at i holds an occurrence of y, |x| places further on. */
  lemma OccursInfix(s: string, x: string, y: string, z: string, i: nat)
    requires OccursAt(s, x + y + z, i)
    ensures OccursAt(s, y, i + |x|)
  {
    var w := x + y + z;
    forall j | 0 <= j < |y|
      ensures s[i + |x|..i + |x| + |y|][j] == y[j]
    {
      assert w[|x| + j] == y[j];
      assert s[i..i + |w|][|x| + j] == w[|x| + j];
    }
  }

  /** A text that contains a + b + c, ignoring case, contains b. */
  lemma ContainsIgnoreCaseInfix(s: string, a: string, b: string, c: string)
    ensures ContainsIgnoreCase(s, a + b + c) ==> ContainsIgnoreCase(s, b)
  {
    if ContainsIgnoreCase(s, a + b + c) {
      var ls := Lower(s);
      LowerAppend(a + b, c);
      LowerAppend(a, b);
      var i: nat :| i <= |ls| && OccursAt(ls, Lower(a) + Lower(b) + Lower(c), i);
      OccursInfix(ls, Lower(a), Lower(b), Lower(c), i);
      assert OccursAt(ls, Lower(b), i + |a|);
    }
  }

  /** Lines end at "\r\n", "\n" or "\r". */
  predicate IsBreak(c: char) {
    c == '\n' || c == '\r'
  }

  predicate NoBreaks(line: string) {
    forall j :: 0 <= j < |line| ==> !IsBreak(line[j])
  }

  /** Index of the first line break at or after `i`, or |s| if there is none. */
  function BreakIndex(s: string, i: nat): (k: nat)
    requires i <= |s|
    ensures i <= k <= |s|
    ensures forall j :: i <= j < k ==> !IsBreak(s[j])
    ensures k < |s| ==> IsBreak(s[k])
    decreases |s| - i
  {
    if i == |s| || IsBreak(s[i]) then i else BreakIndex(s, i + 1)
  }

  /**
   * File.ReadAllLines: the text is cut at every "\r\n", "\n" or "\r"; a final
   * terminator does not start an empty last line, and empty text has no lines.
   */
  function Lines(s: string): (ls: seq<string>)
    decreases |s|
  {
    if s == [] then []
    else
      var k := BreakIndex(s, 0);
      if k == |s| then [s]
      else [s[..k]] + Lines(s[AfterBreak(s, k)..])
  }

  /** Where the next line starts after the break at k: "\r\n" counts as one break. */
  function AfterBreak(s: string, k: nat): (next: nat)
    requires k < |s|
    ensures k < next <= |s|
    ensures s[k] == '\n' ==> next == k + 1
  {
    if s[k] == '\r' && k + 1 < |s| && s[k + 1] == '\n' then k + 2 else k + 1
  }

  /** File.WriteAllLines: every line followed by the newline "\n". */
  function Unlines(ls: seq<string>): string {
    if ls == [] then [] else ls[0] + "\n" + Unlines(ls[1..])
  }

  /** A text cut at a line feed: the first line, then the lines of what follows. */
  lemma LinesAtFeed(s: string, k: nat)
    requires k < |s| && s[k] == '\n' && forall j :: 0 <= j < k ==> !IsBreak(s[j])
    ensures Lines(s) == [s[..k]] + Lines(s[k + 1..])
  {
    assert BreakIndex(s, 0) == k by {
      BreakIndexFirst(s, 0, k);
    }
  }

  /** The first break at or after i is at k when k holds a break and nothing in between does. */
  lemma {:induction false} BreakIndexFirst(s: string, i: nat, k: nat)
    requires i <= k < |s| && IsBreak(s[k]) && forall j :: i <= j < k ==> !IsBreak(s[j])
    ensures BreakIndex(s, i) == k
    decreases k - i
  {
    if i < k {
      BreakIndexFirst(s, i + 1, k);
    }
  }

  lemma WrittenLine(line: string, rest: string)
    requires NoBreaks(line)
    ensures Lines(line + "\n" + rest) == [line] + Lines(rest)
  {
    var s := line + "\n" + rest;
    var k := |line|;
    assert s[k] == '\n';
    assert forall j :: 0 <= j < k ==> s[j] == line[j];
    LinesAtFeed(s, k);
    assert s[..k] == line;
    assert s[k + 1..] == rest;
  }

  /** Writing lines and reading them back gives the same lines, provided no line holds a break. */
  lemma {:induction false} LinesOfUnlines(ls: seq<string>)
    requires forall i :: 0 <= i < |ls| ==> NoBreaks(ls[i])
    ensures Lines(Unlines(ls)) == ls
  {
    if ls != [] {
      var rest := Unlines(ls[1..]);
      assert Unlines(ls) == ls[0] + "\n" + rest;
      WrittenLine(ls[0], rest);
      LinesOfUnlines(ls[1..]);
    }
  }

  /** The first line of a text that uses only "\n" and ends in one. */
  lemma FirstWrittenLine(s: string) returns (k: nat)
    requires s != [] && s[|s| - 1] == '\n'
    requires forall j :: 0 <= j < |s| ==> s[j] != '\r'
    ensures k < |s| && s == s[..k] + "\n" + s[k + 1..]
    ensures Lines(s) == [s[..k]] + Lines(s[k + 1..])
  {
    k := BreakIndex(s, 0);
    assert IsBreak(s[|s| - 1]);
    assert s[k] == '\n';
    LinesAtFeed(s, k);
    var w := s[..k] + "\n" + s[k + 1..];
    assert |w| == |s|;
    forall j | 0 <= j < |s|
      ensures w[j] == s[j]
    {
      if j < k {
        assert w[j] == s[..k][j];
      } else if j > k {
        assert w[j] == s[k + 1..][j - k - 1];
      }
    }
  }

  /** Reading the lines of a text that uses only "\n" and ends in one, then writing them back, gives the text. */
  lemma {:induction false} UnlinesOfLines(s: string)
    requires forall j :: 0 <= j < |s| ==> s[j] != '\r'
    requires s == [] || s[|s| - 1] == '\n'
    ensures Unlines(Lines(s)) == s
  {
    if s != [] {
      var k := FirstWrittenLine(s);
      var rest := s[k + 1..];
      forall j | 0 <= j < |rest|
        ensures rest[j] != '\r'
      {
        assert rest[j] == s[k + 1 + j];
      }
      if rest != [] {
        assert rest[|rest| - 1] == s[|s| - 1];
      }
      UnlinesOfLines(rest);
      var ls := [s[..k]] + Lines(rest);
      assert ls[0] == s[..k] && ls[1..] == Lines(rest);
      calc {
        Unlines(Lines(s));
        Unlines(ls);
        s[..k] + "\n" + Unlines(Lines(rest));
        s[..k] + "\n" + rest;
        s;
      }
    }
  }

  /** The first line of a text that holds a break, and where the rest begins. */
  lemma FirstLine(s: string) returns (k: nat, next: nat)
    requires s != [] && BreakIndex(s, 0) < |s|
    ensures k < next <= |s|
    ensures NoBreaks(s[..k])
    ensures Lines(s) == [s[..k]] + Lines(s[next..])
  {
    k := BreakIndex(s, 0);
    next := AfterBreak(s, k);
    forall j | 0 <= j < k
      ensures !IsBreak(s[..k][j])
    {
      assert s[..k][j] == s[j];
    }
  }

  /** No line that ReadAllLines returns holds a line break. */
  lemma {:induction false} LinesHaveNoBreaks(s: string)
    ensures forall i :: 0 <= i < |Lines(s)| ==> NoBreaks(Lines(s)[i])
    decreases |s|
  {
    if s != [] && BreakIndex(s, 0) == |s| {
      assert Lines(s) == [s];
    } else if s != [] {
      var k, next := FirstLine(s);
      var rest := Lines(s[next..]);
      LinesHaveNoBreaks(s[next..]);
      forall i | 0 <= i < |Lines(s)|
        ensures NoBreaks(Lines(s)[i])
      {
        if i > 0 {
          assert Lines(s)[i] == rest[i - 1];
        }
      }
    }
  }
}
