/**
 * The text of one source file as a sequence of characters, split into lines by
 * '\n'. A line includes its terminating line break; the last line of a file may
 * have none. The zero-based number of the line holding position p is the number
 * of line breaks strictly before p, so a line break belongs to the line it ends.
 *
 * RemoveLine is the single edit the rewriter performs (the line holding a
 * position, with its line break, replaced by nothing); Keep is the reference
 * definition of "the text with exactly these lines deleted".
 */
module TextLines {

  /** Number of line breaks in s. */
  function NewlineCount(s: seq<char>): (r: nat)
  {
    if s == [] then 0
    else NewlineCount(s[..|s| - 1]) + (if s[|s| - 1] == '\n' then 1 else 0)
  }

  /** Zero-based line number of position p (p == |t| is on the last line). */
  function LineOf(t: seq<char>, p: nat): (r: nat)
    requires p <= |t|
  {
    NewlineCount(t[..p])
  }

  /** Start of the line holding position p: just after the last line break before p. */
  function LineStart(t: seq<char>, p: nat): (k: nat)
    requires p <= |t|
    ensures k <= p
    ensures k == 0 || t[k - 1] == '\n'
    ensures forall j :: k <= j < p ==> t[j] != '\n'
  {
    if p == 0 || t[p - 1] == '\n' then p else LineStart(t, p - 1)
  }

  /**
   * End of the line holding position p, including its line break: just after
   * the first line break at or after p, or the end of the text when there is none.
   */
  function LineEnd(t: seq<char>, p: nat): (k: nat)
    requires p <= |t|
    ensures p <= k <= |t|
    ensures forall j :: p <= j < k - 1 ==> t[j] != '\n'
    ensures k < |t| ==> p < k && t[k - 1] == '\n'
    ensures k == |t| && p < k && t[k - 1] != '\n' ==> forall j :: p <= j < k ==> t[j] != '\n'
    decreases |t| - p
  {
    if p == |t| then p
    else if t[p] == '\n' then p + 1
    else LineEnd(t, p + 1)
  }

  /** The text with the whole line holding p, line break included, replaced by nothing. */
  function RemoveLine(t: seq<char>, p: nat): (r: seq<char>)
    requires p <= |t|
    ensures |r| == |t| - (LineEnd(t, p) - LineStart(t, p))
  {
    t[..LineStart(t, p)] + t[LineEnd(t, p)..]
  }

  /** The characters of t, in order, whose line number is not in lines. */
  function Keep(t: seq<char>, lines: set<nat>): (r: seq<char>)
    ensures |r| <= |t|
    decreases |t|
  {
    if t == [] then []
    else Keep(t[..|t| - 1], lines) + (if LineOf(t, |t| - 1) in lines then [] else [t[|t| - 1]])
  }

  // ---------------------------------------------------------------------------
  // Line numbers

  lemma LineOfPrefix(t: seq<char>, n: nat, j: nat)
    requires j <= n <= |t|
    ensures LineOf(t[..n], j) == LineOf(t, j)
  {
    assert t[..n][..j] == t[..j];
  }

  lemma {:induction false} LineOfMonotone(t: seq<char>, i: nat, j: nat)
    requires i <= j <= |t|
    ensures LineOf(t, i) <= LineOf(t, j)
    decreases j - i
  {
    if i < j {
      LineOfMonotone(t, i, j - 1);
      assert t[..j][..j - 1] == t[..j - 1];
    }
  }

  /** Without a line break in t[i..j], positions i and j are on the same line. */
  lemma {:induction false} LineOfNoBreak(t: seq<char>, i: nat, j: nat)
    requires i <= j <= |t|
    requires forall x :: i <= x < j ==> t[x] != '\n'
    ensures LineOf(t, j) == LineOf(t, i)
    decreases j - i
  {
    if i < j {
      LineOfNoBreak(t, i, j - 1);
      assert t[..j][..j - 1] == t[..j - 1];
    }
  }

  /** A line break ends its line: the position after it is on the next line. */
  lemma LineOfAfterBreak(t: seq<char>, j: nat)
    requires j < |t| && t[j] == '\n'
    ensures LineOf(t, j + 1) == LineOf(t, j) + 1
  {
    assert t[..j + 1][..j] == t[..j];
  }

  /** The positions of the line holding p are exactly LineStart(t, p) .. LineEnd(t, p) - 1. */
  lemma {:induction false} LineExtent(t: seq<char>, p: nat, j: nat)
    requires p <= |t| && j < |t|
    ensures LineOf(t, j) == LineOf(t, p) <==> LineStart(t, p) <= j < LineEnd(t, p)
  {
    var ls, le := LineStart(t, p), LineEnd(t, p);
    LineOfNoBreak(t, ls, p);
    if j < ls {
      LineOfMonotone(t, j, ls - 1);
      LineOfAfterBreak(t, ls - 1);
    } else if j < le {
      LineOfNoBreak(t, ls, j);
    } else {
      // j >= le and j < |t|, so the line of p ends with a line break at le - 1
      LineOfNoBreak(t, p, le - 1);
      LineOfAfterBreak(t, le - 1);
      LineOfMonotone(t, le, j);
    }
  }

  // ---------------------------------------------------------------------------
  // Keep

  lemma {:induction false} KeepAbove(t: seq<char>, lines: set<nat>, n: nat)
    requires n <= |t|
    requires forall j :: n <= j < |t| ==> LineOf(t, j) !in lines
    ensures Keep(t, lines) == Keep(t[..n], lines) + t[n..]
    decreases |t| - n
  {
    if n < |t| {
      var u := t[..|t| - 1];
      forall j | n <= j < |u| ensures LineOf(u, j) !in lines {
        LineOfPrefix(t, |t| - 1, j);
      }
      KeepAbove(u, lines, n);
      assert u[..n] == t[..n];
      assert u[n..] + [t[|t| - 1]] == t[n..];
    } else {
      assert t[..n] == t;
    }
  }

  lemma {:induction false} KeepSkip(t: seq<char>, lines: set<nat>, a: nat, b: nat)
    requires a <= b <= |t|
    requires forall j :: a <= j < b ==> LineOf(t, j) in lines
    ensures Keep(t[..b], lines) == Keep(t[..a], lines)
    decreases b - a
  {
    if a < b {
      LineOfPrefix(t, b, b - 1);
      assert t[..b][..b - 1] == t[..b - 1];
      KeepSkip(t, lines, a, b - 1);
    }
  }

  lemma {:induction false} KeepSameLines(t: seq<char>, lines: set<nat>, lines': set<nat>)
    requires forall j :: 0 <= j < |t| ==> (LineOf(t, j) in lines <==> LineOf(t, j) in lines')
    ensures Keep(t, lines) == Keep(t, lines')
    decreases |t|
  {
    if t != [] {
      var u := t[..|t| - 1];
      forall j | 0 <= j < |u| ensures LineOf(u, j) in lines <==> LineOf(u, j) in lines' {
        LineOfPrefix(t, |t| - 1, j);
      }
      KeepSameLines(u, lines, lines');
    }
  }

  /** Deleting no lines that occur in the text leaves it byte-identical. */
  lemma KeepNothing(t: seq<char>, lines: set<nat>)
    requires forall j :: 0 <= j < |t| ==> LineOf(t, j) !in lines
    ensures Keep(t, lines) == t
  {
    KeepAbove(t, lines, 0);
  }

  // ---------------------------------------------------------------------------
  // One removal step

  /**
   * Removing the line k of p from t, when every line in lines comes before k,
   * leaves the text before that line unchanged (so positions there keep their
   * line numbers), and deleting lines from the result is deleting lines + {k}
   * from the original.
   */
  lemma RemoveLineStep(t: seq<char>, p: nat, lines: set<nat>)
    requires p <= |t|
    requires forall x :: x in lines ==> x < LineOf(t, p)
    ensures var ls := LineStart(t, p);
      ls <= |RemoveLine(t, p)| && RemoveLine(t, p)[..ls] == t[..ls]
    ensures Keep(RemoveLine(t, p), lines) == Keep(t, lines + {LineOf(t, p)})
  {
    var k := LineOf(t, p);
    var ls, le := LineStart(t, p), LineEnd(t, p);
    var t' := RemoveLine(t, p);
    var all := lines + {k};
    assert t'[..ls] == t[..ls];
    assert t'[ls..] == t[le..];
    LineOfNoBreak(t, ls, p);
    // the original: after the line, before it, and the line itself
    forall j | le <= j < |t| ensures LineOf(t, j) !in all {
      LineExtent(t, p, j);
      LineOfMonotone(t, p, j);
    }
    KeepAbove(t, all, le);
    forall j | ls <= j < le ensures LineOf(t, j) in all {
      LineExtent(t, p, j);
    }
    KeepSkip(t, all, ls, le);
    forall j | 0 <= j < ls ensures LineOf(t[..ls], j) in lines <==> LineOf(t[..ls], j) in all {
      LineOfPrefix(t, ls, j);
      LineExtent(t, p, j);
    }
    KeepSameLines(t[..ls], lines, all);
    // the result: everything from ls on is on line k or later
    forall j | ls <= j < |t'| ensures LineOf(t', j) !in lines {
      LineOfPrefix(t', ls, ls);
      LineOfPrefix(t, ls, ls);
      LineOfMonotone(t', ls, j);
    }
    KeepAbove(t', lines, ls);
  }

  /** The single edit deletes exactly the line holding p and nothing else. */
  lemma RemoveLineDeletesItsLine(t: seq<char>, p: nat)
    requires p <= |t|
    ensures RemoveLine(t, p) == Keep(t, {LineOf(t, p)})
  {
    var none: set<nat> := {};
    var k := LineOf(t, p);
    RemoveLineStep(t, p, none);
    assert none + {k} == {k};
    KeepNothing(RemoveLine(t, p), none);
  }
}
