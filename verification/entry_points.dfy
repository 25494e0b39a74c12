/**
 The two public entry points: fixed parameter presets over the pipeline,
 followed by `str::trim`.
 */
module EntryPoints {
  import opened UnicodeTables
  import opened Normalization
  import opened Trimming

  /** The allow-list both entry points use: the masculine and feminine
      ordinal indicators U+00BA and U+00AA. */
  const OrdinalIndicators: seq<char> := ['\U{BA}', '\U{AA}']

  /** `basic_string_clean`: no collapsing, no emoji removal. */
  const BasicOptions: Options := Options(OrdinalIndicators, false, false)

  /** `remove_emojis`: collapsing and emoji removal. */
  const RemoveEmojiOptions: Options := Options(OrdinalIndicators, true, true)

  /** `basic_string_clean`: the trimmed pipeline result. */
  function BasicStringClean(value: seq<char>, u: Tables): (r: seq<char>)
    ensures TrimmedFrom(r, Pipeline(value, BasicOptions, u), u.isWhitespace)
  {
    Trim(Pipeline(value, BasicOptions, u), u.isWhitespace)
  }

  /** `remove_emojis`: the trimmed pipeline result. */
  function RemoveEmojis(value: seq<char>, u: Tables): (r: seq<char>)
    ensures TrimmedFrom(r, Pipeline(value, RemoveEmojiOptions, u), u.isWhitespace)
  {
    Trim(Pipeline(value, RemoveEmojiOptions, u), u.isWhitespace)
  }

  /** Both presets allow only Basic Multilingual Plane characters, so the
      buffer each of them composes is entirely in that plane. */
  lemma EntryBuffersAreBmp(value: seq<char>, u: Tables)
    ensures AllBmp(Buffer(value, BasicOptions, u))
    ensures AllBmp(Buffer(value, RemoveEmojiOptions, u))
  {
    assert AllBmp(OrdinalIndicators);
    ScanBmp(value, false, BasicOptions, u);
    ScanBmp(value, false, RemoveEmojiOptions, u);
  }

  /** `basic_string_clean` never consults the emoji table. */
  lemma BasicCleanIgnoresEmoji(value: seq<char>, u: Tables, isEmoji: char -> bool)
    ensures BasicStringClean(value, u) == BasicStringClean(value, u.(isEmoji := isEmoji))
  {
    EmojiTableUnusedWhenOff(value, false, BasicOptions, u, isEmoji);
  }

  /** An input made only of emoji (none whitespace, none allow-listed) leaves
      `remove_emojis` an empty buffer, so the result is the trimmed
      composition of the empty string. */
  lemma {:induction false} OnlyEmojiLeavesEmptyBuffer(value: seq<char>, prevWs: bool, u: Tables)
    requires forall i :: 0 <= i < |value| ==>
      u.isEmoji(value[i]) && !u.isWhitespace(value[i]) && value[i] !in OrdinalIndicators
    ensures Scan(value, prevWs, RemoveEmojiOptions, u) == []
    ensures RemoveEmojis(value, u) == Trim(u.nfc([]), u.isWhitespace)
    decreases |value|
  {
    if value != [] {
      OnlyEmojiLeavesEmptyBuffer(value[1..], false, u);
      OnlyEmojiLeavesEmptyBuffer(value[1..], true, u);
    }
  }
}
