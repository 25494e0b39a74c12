/**
 How many spaces the whitespace branch of the normaliser emits, compared with
 the shape of the input: one per whitespace character without collapsing, at
 most one per maximal whitespace run with collapsing.
 */
module WhitespaceRuns {
  import opened UnicodeTables
  import opened Normalization

  /** The whitespace branch is taken for `c` and emits its space. */
  predicate EmitsSpace(c: char, prevWs: bool, opts: Options, u: Tables)
  {
    c !in opts.allowChars && u.isWhitespace(c) && !(opts.collapseWhitespace && prevWs)
  }

  /** Among the first `n` input characters, the number for which the
      whitespace branch emits a space. */
  function BranchSpaces(s: seq<char>, n: nat, opts: Options, u: Tables): nat
    requires n <= |s|
  {
    if n == 0 then 0
    else BranchSpaces(s, n - 1, opts, u) + (if EmitsSpace(s[n - 1], StateBefore(s, n - 1, u), opts, u) then 1 else 0)
  }

  /** Among the first `n` input characters, the number that start a maximal
      run of whitespace: whitespace characters not preceded by whitespace. */
  function RunStarts(s: seq<char>, n: nat, u: Tables): nat
    requires n <= |s|
  {
    if n == 0 then 0
    else RunStarts(s, n - 1, u) + (if u.isWhitespace(s[n - 1]) && !StateBefore(s, n - 1, u) then 1 else 0)
  }

  /** Among the first `n` input characters, the number of whitespace
      characters outside the allow-list. */
  function FilteredWhitespace(s: seq<char>, n: nat, opts: Options, u: Tables): nat
    requires n <= |s|
  {
    if n == 0 then 0
    else FilteredWhitespace(s, n - 1, opts, u) + (if s[n - 1] !in opts.allowChars && u.isWhitespace(s[n - 1]) then 1 else 0)
  }

  /** `EmitsSpace` is exactly the case where the whitespace branch appends
      one ASCII space. */
  lemma EmitsSpaceMeansSpace(c: char, prevWs: bool, opts: Options, u: Tables)
    requires c !in opts.allowChars && u.isWhitespace(c)
    ensures EmitsSpace(c, prevWs, opts, u) <==> Step(c, prevWs, opts, u) == [' ']
  {
    WhitespaceStep(c, prevWs, opts, u);
  }

  /** With collapsing on, the whitespace branch never emits a space for the
      second of two adjacent whitespace input characters, so the branch never
      emits for both; the second emits nothing unless it is allow-listed. */
  lemma AdjacentWhitespaceNotBothSpaces(s: seq<char>, i: nat, opts: Options, u: Tables)
    requires opts.collapseWhitespace
    requires i + 1 < |s| && u.isWhitespace(s[i]) && u.isWhitespace(s[i + 1])
    ensures !EmitsSpace(s[i + 1], StateBefore(s, i + 1, u), opts, u)
    ensures s[i + 1] !in opts.allowChars ==> Step(s[i + 1], StateBefore(s, i + 1, u), opts, u) == []
  {
  }

  /** With collapsing on, the whitespace branch emits at most one space per
      maximal whitespace run of the input. */
  lemma {:induction false} CollapsedSpacesAtMostRuns(s: seq<char>, n: nat, opts: Options, u: Tables)
    requires opts.collapseWhitespace && n <= |s|
    ensures BranchSpaces(s, n, opts, u) <= RunStarts(s, n, u)
    decreases n
  {
    if n > 0 {
      CollapsedSpacesAtMostRuns(s, n - 1, opts, u);
    }
  }

  /** With collapsing off, every whitespace character outside the allow-list
      emits its own space. */
  lemma {:induction false} UncollapsedSpacePerCharacter(s: seq<char>, n: nat, opts: Options, u: Tables)
    requires !opts.collapseWhitespace && n <= |s|
    ensures BranchSpaces(s, n, opts, u) == FilteredWhitespace(s, n, opts, u)
    decreases n
  {
    if n > 0 {
      UncollapsedSpacePerCharacter(s, n - 1, opts, u);
    }
  }
}
