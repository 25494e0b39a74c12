/**
 The Unicode primitives the normaliser consumes but does not define:
 the whitespace property of `char::is_whitespace`, the emoji property of the
 crate-local `IsEmoji` trait, compatibility decomposition and canonical
 composition (NFC) from the `unicode_normalization` crate.

 They are gathered in one value, `Tables`, that every operation takes as a
 parameter. Nothing is assumed about them: every property proved in this
 project holds for every choice of tables.
 */
module UnicodeTables {

  /** The four foreign primitives, as total functions. */
  datatype Tables = Tables(
    isWhitespace: char -> bool,      // char::is_whitespace
    isEmoji: char -> bool,           // IsEmoji::is_emoji
    decompose: char -> seq<char>,    // decompose_compatible, its callback arguments in order
    nfc: seq<char> -> seq<char>      // UnicodeNormalization::nfc, collected into a String
  )

  /** The last code point of the Basic Multilingual Plane. */
  const BmpMax: int := 0xFFFF

  /** A code point of the Basic Multilingual Plane (at most U+FFFF). */
  predicate InBmp(c: char)
  {
    c as int <= BmpMax
  }

  /** Every code point of `s` is in the Basic Multilingual Plane. */
  predicate AllBmp(s: seq<char>)
  {
    forall i :: 0 <= i < |s| ==> InBmp(s[i])
  }
}
