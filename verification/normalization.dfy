/**
 The single-pass normalisation pipeline of `custom_normalization`: a
 left-to-right fold over the input characters carrying one boolean (was the
 previous input character whitespace?), a fixed-priority per-character rule,
 and a final canonical composition.
 */
module Normalization {
  import opened UnicodeTables

  /** The parameters of one call: the allow-list and the two switches. */
  datatype Options = Options(allowChars: seq<char>, collapseWhitespace: bool, removeEmojis: bool)

  /** The code points of a decomposition that lie in the Basic Multilingual
      Plane, in their original order: the only filter the decomposition
      callback applies. */
  function KeepBmp(ds: seq<char>): seq<char>
  {
    if ds == [] then []
    else if InBmp(ds[0]) then [ds[0]] + KeepBmp(ds[1..])
    else KeepBmp(ds[1..])
  }

  /** What one input character appends to the buffer, given whether the
      previous input character was whitespace. The branches are tried in
      priority order: allow-list, whitespace, emoji, decomposition. */
  function Step(c: char, prevWs: bool, opts: Options, u: Tables): seq<char>
  {
    if c in opts.allowChars then [c]
    else if u.isWhitespace(c) then (if opts.collapseWhitespace && prevWs then [] else [' '])
    else if opts.removeEmojis && u.isEmoji(c) then []
    else KeepBmp(u.decompose(c))
  }

  /** The fold: the emissions of `s`, where `prevWs` is the state before `s[0]`.
      The state passed on is the raw character's whitespace property,
      whatever the character emitted. */
  function Scan(s: seq<char>, prevWs: bool, opts: Options, u: Tables): seq<char>
    decreases |s|
  {
    if s == [] then []
    else Step(s[0], prevWs, opts, u) + Scan(s[1..], u.isWhitespace(s[0]), opts, u)
  }

  /** The state after folding over `s` from state `prevWs`. */
  function StateAfter(s: seq<char>, prevWs: bool, u: Tables): bool
  {
    if s == [] then prevWs else u.isWhitespace(s[|s| - 1])
  }

  /** The buffer before composition: the fold from the initial state `false`. */
  function Buffer(s: seq<char>, opts: Options, u: Tables): seq<char>
  {
    Scan(s, false, opts, u)
  }

  /** The result of `custom_normalization`. */
  function Pipeline(s: seq<char>, opts: Options, u: Tables): seq<char>
  {
    u.nfc(Buffer(s, opts, u))
  }

  /** Reference view of the state: before position `i` it is the whitespace
      property of the raw input character at `i - 1`, and `false` at the start. */
  function StateBefore(s: seq<char>, i: nat, u: Tables): bool
    requires i <= |s|
  {
    i > 0 && u.isWhitespace(s[i - 1])
  }

  /** Reference view of the buffer: the per-character emissions of the first
      `n` characters, concatenated left to right, each computed from
      `StateBefore`. */
  function Emitted(s: seq<char>, n: nat, opts: Options, u: Tables): seq<char>
    requires n <= |s|
  {
    if n == 0 then [] else Emitted(s, n - 1, opts, u) + Step(s[n - 1], StateBefore(s, n - 1, u), opts, u)
  }

  /** One more character extends the reference buffer by its emission. */
  lemma EmittedNext(s: seq<char>, i: nat, opts: Options, u: Tables)
    requires i < |s|
    ensures Emitted(s, i + 1, opts, u) == Emitted(s, i, opts, u) + Step(s[i], StateBefore(s, i, u), opts, u)
  {
  }

  // ---------------------------------------------------------------------
  // The decomposition filter
  // ---------------------------------------------------------------------

  /** The filter keeps only code points at most U+FFFF, keeps every such code
      point of the decomposition, never grows it, and lets an all-BMP
      decomposition through unchanged. */
  lemma {:induction false} KeepBmpFilters(ds: seq<char>)
    ensures AllBmp(KeepBmp(ds))
    ensures |KeepBmp(ds)| <= |ds|
    ensures forall x :: x in KeepBmp(ds) <==> x in ds && InBmp(x)
    ensures AllBmp(ds) ==> KeepBmp(ds) == ds
    decreases |ds|
  {
    if ds != [] {
      KeepBmpFilters(ds[1..]);
      assert ds == [ds[0]] + ds[1..];
    }
  }

  /** The filter distributes over concatenation: it looks at each code point
      on its own and keeps the order. */
  lemma {:induction false} KeepBmpAppend(a: seq<char>, b: seq<char>)
    ensures KeepBmp(a + b) == KeepBmp(a) + KeepBmp(b)
    decreases |a|
  {
    if a == [] {
      assert a + b == b;
    } else {
      assert (a + b)[0] == a[0];
      assert (a + b)[1..] == a[1..] + b;
      KeepBmpAppend(a[1..], b);
    }
  }

  /** A decomposition with no code point at most U+FFFF is filtered away
      entirely. */
  lemma {:induction false} KeepBmpNone(ds: seq<char>)
    requires forall i :: 0 <= i < |ds| ==> !InBmp(ds[i])
    ensures KeepBmp(ds) == []
    decreases |ds|
  {
    if ds != [] {
      assert !InBmp(ds[0]);
      KeepBmpNone(ds[1..]);
    }
  }

  /** On one code point the filter keeps it exactly when it is at most U+FFFF;
      with `KeepBmpAppend` this pins the filter down completely. */
  lemma KeepBmpSingle(x: char)
    ensures KeepBmp([x]) == (if x <= '\U{FFFF}' then [x] else [])
  {
  }

  // ---------------------------------------------------------------------
  // The per-character rule
  // ---------------------------------------------------------------------

  /** An allow-listed character is appended unchanged, whatever the state and
      switches, even when it is also whitespace or an emoji. */
  lemma AllowListWins(c: char, prevWs: bool, opts: Options, u: Tables)
    requires c in opts.allowChars
    ensures Step(c, prevWs, opts, u) == [c]
  {
  }

  /** A whitespace character outside the allow-list emits exactly one ASCII
      space, except when collapsing is on and the previous input character was
      whitespace, when it emits nothing. */
  lemma WhitespaceStep(c: char, prevWs: bool, opts: Options, u: Tables)
    requires c !in opts.allowChars && u.isWhitespace(c)
    ensures Step(c, prevWs, opts, u) == [' '] <==> !(opts.collapseWhitespace && prevWs)
    ensures Step(c, prevWs, opts, u) == [] <==> opts.collapseWhitespace && prevWs
  {
  }

  /** With emoji removal on, an emoji that is neither allow-listed nor
      whitespace contributes nothing. */
  lemma EmojiStep(c: char, prevWs: bool, opts: Options, u: Tables)
    requires c !in opts.allowChars && !u.isWhitespace(c)
    requires opts.removeEmojis && u.isEmoji(c)
    ensures Step(c, prevWs, opts, u) == []
  {
  }

  /** Any other character goes through decomposition: exactly the decomposed
      code points at most U+FFFF are appended, in decomposition order, and
      nothing else is filtered out (control characters included). The
      emission does not depend on the state. */
  lemma DecompositionStep(c: char, prevWs: bool, opts: Options, u: Tables)
    requires c !in opts.allowChars && !u.isWhitespace(c)
    requires !(opts.removeEmojis && u.isEmoji(c))
    ensures Step(c, prevWs, opts, u) == KeepBmp(u.decompose(c))
    ensures AllBmp(Step(c, prevWs, opts, u))
    ensures AllBmp(u.decompose(c)) ==> Step(c, prevWs, opts, u) == u.decompose(c)
    ensures Step(c, prevWs, opts, u) == Step(c, !prevWs, opts, u)
  {
    KeepBmpFilters(u.decompose(c));
  }

  /** `custom_character_normalization`, pushing onto a buffer; the
      decomposition callback is the inner loop. */
  method CharacterNormalization(buf: seq<char>, c: char, opts: Options, prevWs: bool, u: Tables)
    returns (res: seq<char>)
    ensures res == buf + Step(c, prevWs, opts, u)
  {
    if c in opts.allowChars {
      res := buf + [c];
    } else if u.isWhitespace(c) {
      if opts.collapseWhitespace && prevWs {
        res := buf;
      } else {
        res := buf + [' '];
      }
    } else if opts.removeEmojis && u.isEmoji(c) {
      res := buf;
    } else {
      var ds := u.decompose(c);
      res := buf;
      var j := 0;
      while j < |ds|
        invariant 0 <= j <= |ds|
        invariant res == buf + KeepBmp(ds[..j])
      {
        var r := ds[j];
        if r <= '\U{FFFF}' {
          res := res + [r];
        }
        KeepBmpAppend(ds[..j], [r]);
        assert ds[..j + 1] == ds[..j] + [r];
        j := j + 1;
      }
      assert ds[..|ds|] == ds;
    }
  }

  // ---------------------------------------------------------------------
  // The fold
  // ---------------------------------------------------------------------

  /** Folding over a concatenation folds over the first part, then over the
      second from the state the first part left. */
  lemma {:induction false} ScanAppend(a: seq<char>, b: seq<char>, prevWs: bool, opts: Options, u: Tables)
    ensures Scan(a + b, prevWs, opts, u) == Scan(a, prevWs, opts, u) + Scan(b, StateAfter(a, prevWs, u), opts, u)
    decreases |a|
  {
    if a == [] {
      assert a + b == b;
    } else {
      assert (a + b)[0] == a[0];
      assert (a + b)[1..] == a[1..] + b;
      ScanAppend(a[1..], b, u.isWhitespace(a[0]), opts, u);
      assert StateAfter(a[1..], u.isWhitespace(a[0]), u) == StateAfter(a, prevWs, u);
    }
  }

  /** Folding over one character is that character's emission. */
  lemma ScanSingle(c: char, prevWs: bool, opts: Options, u: Tables)
    ensures Scan([c], prevWs, opts, u) == Step(c, prevWs, opts, u)
  {
    assert [c][1..] == [];
    assert Step(c, prevWs, opts, u) + [] == Step(c, prevWs, opts, u);
  }

  /** The buffer of a prefix is the left-to-right concatenation of the
      per-character emissions, each computed from the raw whitespace property
      of the preceding input character. */
  lemma {:induction false} BufferIsEmitted(s: seq<char>, n: nat, opts: Options, u: Tables)
    requires n <= |s|
    ensures Buffer(s[..n], opts, u) == Emitted(s, n, opts, u)
    decreases n
  {
    if n > 0 {
      var p, c := s[..n - 1], s[n - 1];
      BufferIsEmitted(s, n - 1, opts, u);
      assert s[..n] == p + [c];
      ScanAppend(p, [c], false, opts, u);
      ScanSingle(c, StateAfter(p, false, u), opts, u);
      assert StateAfter(p, false, u) == StateBefore(s, n - 1, u) by {
        if n > 1 {
          assert p[|p| - 1] == s[n - 2];
        }
      }
    }
  }

  /** The whole buffer is the concatenation of all per-character emissions. */
  lemma BufferIsAllEmitted(s: seq<char>, opts: Options, u: Tables)
    ensures Buffer(s, opts, u) == Emitted(s, |s|, opts, u)
  {
    BufferIsEmitted(s, |s|, opts, u);
    assert s[..|s|] == s;
  }

  /** `custom_normalization`: one pass over the input, the state updated from
      each raw character, then composition. */
  method CustomNormalization(s: seq<char>, opts: Options, u: Tables) returns (res: seq<char>)
    ensures res == u.nfc(Emitted(s, |s|, opts, u))
    ensures res == Pipeline(s, opts, u)
  {
    var buf := [];
    var prev := false;
    var i := 0;
    while i < |s|
      invariant 0 <= i <= |s|
      invariant prev == StateBefore(s, i, u)
      invariant buf == Emitted(s, i, opts, u)
    {
      var c := s[i];
      buf := CharacterNormalization(buf, c, opts, prev, u);
      EmittedNext(s, i, opts, u);
      prev := u.isWhitespace(c);
      i := i + 1;
    }
    BufferIsAllEmitted(s, opts, u);
    res := u.nfc(buf);
  }

  // ---------------------------------------------------------------------
  // Properties of the buffer
  // ---------------------------------------------------------------------

  /** The state starts `false`, so a leading whitespace character outside the
      allow-list always emits a space, even with collapsing on. */
  lemma LeadingWhitespaceEmitsSpace(s: seq<char>, opts: Options, u: Tables)
    requires s != [] && s[0] !in opts.allowChars && u.isWhitespace(s[0])
    ensures Buffer(s, opts, u) != [] && Buffer(s, opts, u)[0] == ' '
  {
  }

  /** A dropped character (an emoji, or one whose decomposition lies wholly
      above U+FFFF) resets the state to "not whitespace": the rest of the input
      is folded exactly as if it started the string anew, whatever the state
      before the dropped character. */
  lemma DroppedCharacterResetsState(c: char, rest: seq<char>, prevWs: bool, opts: Options, u: Tables)
    requires !u.isWhitespace(c) && Step(c, prevWs, opts, u) == []
    ensures Scan([c] + rest, prevWs, opts, u) == Buffer(rest, opts, u)
  {
    assert ([c] + rest)[1..] == rest;
  }

  /** A character on the decomposition path whose decomposition lies wholly
      above U+FFFF is dropped, like an emoji. */
  lemma NonBmpDecompositionDropped(c: char, prevWs: bool, opts: Options, u: Tables)
    requires c !in opts.allowChars && !u.isWhitespace(c)
    requires !(opts.removeEmojis && u.isEmoji(c))
    requires forall i :: 0 <= i < |u.decompose(c)| ==> !InBmp(u.decompose(c)[i])
    ensures Step(c, prevWs, opts, u) == []
  {
    KeepBmpNone(u.decompose(c));
  }

  /** Consequence of the reset: with collapsing on, a whitespace run split by a
      dropped emoji emits two spaces, not one. */
  lemma DroppedEmojiSplitsWhitespaceRun(e: char, opts: Options, u: Tables)
    requires u.isWhitespace(' ') && ' ' !in opts.allowChars
    requires e !in opts.allowChars && !u.isWhitespace(e) && u.isEmoji(e)
    requires opts.collapseWhitespace && opts.removeEmojis
    ensures Buffer([' ', e, ' '], opts, u) == [' ', ' ']
  {
    var s := [' ', e, ' '];
    assert s[1..] == [e, ' '];
    assert s[1..][1..] == [' '];
    assert Step(' ', false, opts, u) == [' '];
    assert Step(e, true, opts, u) == [];
    assert Scan([' '], false, opts, u) == [' '];
    assert Scan([e, ' '], true, opts, u) == [' '];
  }

  /** With BMP-only allow-list, the whole buffer is in the Basic Multilingual
      Plane. */
  lemma {:induction false} ScanBmp(s: seq<char>, prevWs: bool, opts: Options, u: Tables)
    requires AllBmp(opts.allowChars)
    ensures AllBmp(Scan(s, prevWs, opts, u))
    decreases |s|
  {
    if s != [] {
      var c := s[0];
      var e := Step(c, prevWs, opts, u);
      if c in opts.allowChars {
        var k :| 0 <= k < |opts.allowChars| && opts.allowChars[k] == c;
        assert InBmp(opts.allowChars[k]);
      }
      KeepBmpFilters(u.decompose(c));
      assert AllBmp(e);
      ScanBmp(s[1..], u.isWhitespace(c), opts, u);
      var r := Scan(s[1..], u.isWhitespace(c), opts, u);
      assert forall i :: 0 <= i < |e + r| ==> (e + r)[i] == (if i < |e| then e[i] else r[i - |e|]);
    }
  }

  /** Every allow-listed character of the input appears in the buffer. */
  lemma {:induction false} AllowListFidelity(s: seq<char>, prevWs: bool, c: char, opts: Options, u: Tables)
    requires c in s && c in opts.allowChars
    ensures c in Scan(s, prevWs, opts, u)
    decreases |s|
  {
    var e := Step(s[0], prevWs, opts, u);
    var r := Scan(s[1..], u.isWhitespace(s[0]), opts, u);
    if s[0] == c {
      assert (e + r)[0] == c;
    } else {
      assert c in s[1..];
      AllowListFidelity(s[1..], u.isWhitespace(s[0]), c, opts, u);
      var k :| 0 <= k < |r| && r[k] == c;
      assert (e + r)[|e| + k] == c;
    }
  }

  /** With emoji removal off, the emoji table is never consulted: any other
      emoji table gives the same buffer. */
  lemma {:induction false} EmojiTableUnusedWhenOff(s: seq<char>, prevWs: bool, opts: Options, u: Tables, isEmoji: char -> bool)
    requires !opts.removeEmojis
    ensures Scan(s, prevWs, opts, u) == Scan(s, prevWs, opts, u.(isEmoji := isEmoji))
    decreases |s|
  {
    if s != [] {
      EmojiTableUnusedWhenOff(s[1..], u.isWhitespace(s[0]), opts, u, isEmoji);
    }
  }
}
