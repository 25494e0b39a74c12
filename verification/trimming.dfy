/**
 `str::trim`: removal of leading and trailing whitespace, where whitespace is
 whatever the given predicate (in the normaliser, `char::is_whitespace`) says.
 */
module Trimming {

  /** `r` is `s` with a whitespace-only prefix and a whitespace-only suffix
      removed, and neither end of `r` is whitespace: a contiguous slice of `s`
      that loses only whitespace. */
  ghost predicate TrimmedFrom(r: seq<char>, s: seq<char>, isWs: char -> bool)
  {
    && (r != [] ==> !isWs(r[0]) && !isWs(r[|r| - 1]))
    && exists i, j ::
         && 0 <= i <= j <= |s|
         && r == s[i..j]
         && (forall k :: 0 <= k < i ==> isWs(s[k]))
         && (forall k :: j <= k < |s| ==> isWs(s[k]))
  }

  /** `str::trim_start`: drops the longest whitespace prefix. */
  function TrimStart(s: seq<char>, isWs: char -> bool): (r: seq<char>)
    ensures |r| <= |s| && r == s[|s| - |r|..]
    ensures forall k :: 0 <= k < |s| - |r| ==> isWs(s[k])
    ensures r != [] ==> !isWs(r[0])
    decreases |s|
  {
    if s != [] && isWs(s[0]) then TrimStart(s[1..], isWs) else s
  }

  /** `str::trim_end`: drops the longest whitespace suffix. */
  function TrimEnd(s: seq<char>, isWs: char -> bool): (r: seq<char>)
    ensures |r| <= |s| && r == s[..|r|]
    ensures forall k :: |r| <= k < |s| ==> isWs(s[k])
    ensures r != [] ==> !isWs(r[|r| - 1])
    decreases |s|
  {
    if s != [] && isWs(s[|s| - 1]) then TrimEnd(s[..|s| - 1], isWs) else s
  }

  /** `str::trim`. */
  function Trim(s: seq<char>, isWs: char -> bool): (r: seq<char>)
    ensures TrimmedFrom(r, s, isWs)
  {
    var t := TrimStart(s, isWs);
    var r := TrimEnd(t, isWs);
    TrimBothEnds(s, t, r, isWs);
    r
  }

  /** The slice witness for `Trim`: a whitespace-free-ended prefix of a
      suffix, both cut only at whitespace, is a trimmed slice. */
  lemma TrimBothEnds(s: seq<char>, t: seq<char>, r: seq<char>, isWs: char -> bool)
    requires |t| <= |s| && t == s[|s| - |t|..]
    requires forall k :: 0 <= k < |s| - |t| ==> isWs(s[k])
    requires t != [] ==> !isWs(t[0])
    requires |r| <= |t| && r == t[..|r|]
    requires forall k :: |r| <= k < |t| ==> isWs(t[k])
    requires r != [] ==> !isWs(r[|r| - 1])
    ensures TrimmedFrom(r, s, isWs)
  {
    var i := |s| - |t|;
    var j := i + |r|;
    assert r == s[i..j];
    forall k | j <= k < |s|
      ensures isWs(s[k])
    {
      assert s[k] == t[k - i];
    }
    if r != [] {
      assert r[0] == t[0];
    }
  }

  /** Trimming a trimmed string changes nothing. */
  lemma TrimIdempotent(s: seq<char>, isWs: char -> bool)
    ensures Trim(Trim(s, isWs), isWs) == Trim(s, isWs)
  {
    var r := Trim(s, isWs);
    TrimOfClean(r, isWs);
  }

  /** A string whose ends are not whitespace is its own trim. */
  lemma TrimOfClean(r: seq<char>, isWs: char -> bool)
    requires r != [] ==> !isWs(r[0]) && !isWs(r[|r| - 1])
    ensures Trim(r, isWs) == r
  {
  }

  /** A string made only of whitespace trims to the empty string. */
  lemma TrimAllWhitespace(s: seq<char>, isWs: char -> bool)
    requires forall k :: 0 <= k < |s| ==> isWs(s[k])
    ensures Trim(s, isWs) == []
  {
  }
}
