# simple_unicode_normalization_forms — a Dafny model of the normalisation core

This project models the text normaliser of `src/lib.rs`: a single left-to-right
pass over the characters of a string that carries one boolean of state (was the
previous input character whitespace?), applies a fixed-priority rule to each
character, and composes the result with NFC. The two public entry points,
`basic_string_clean` and `remove_emojis`, fix the parameters and trim the result.

Per character, in priority order (`Normalization.Step`):

1. a character in the allow-list is appended unchanged;
2. any other whitespace character becomes one ASCII space, or nothing when
   whitespace collapsing is on and the previous input character was whitespace;
3. with emoji removal on, an emoji is dropped;
4. anything else is compatibility-decomposed and the decomposed code points at
   most U+FFFF are appended in order.

After each character the state becomes that raw character's `is_whitespace()`,
whatever was emitted.

The foreign primitives are `char::is_whitespace`, the crate's `IsEmoji` trait,
`decompose_compatible` and `nfc`. They are the four fields of
`UnicodeTables.Tables`, a value every operation takes as a parameter. Every
property below holds for every choice of these tables. Trimming uses the same
whitespace predicate, as `str::trim` does.

Files:

- `unicode_tables.dfy`: the `Tables` of foreign primitives and the Basic Multilingual Plane predicates.
- `normalization.dfy`: the per-character rule, the fold, the imperative
  `custom_character_normalization` / `custom_normalization`, and their properties.
- `whitespace_runs.dfy`: counting spaces emitted by the whitespace branch against the input's whitespace runs.
- `trimming.dfy`: `str::trim`.
- `entry_points.dfy`: `basic_string_clean` and `remove_emojis`.

## Model

| member | source | states |
|---|---|---|
| Normalization.KeepBmp | src/lib.rs:57-62 | the decomposition callback's filter; described by KeepBmpFilters, KeepBmpAppend and KeepBmpSingle |
| Normalization.Step | src/lib.rs:46-62 | the priority rules for one character; described by AllowListWins, WhitespaceStep, EmojiStep and DecompositionStep |
| Normalization.Scan | src/lib.rs:22-34 | the loop with its state update; described by ScanAppend and BufferIsEmitted |
| Normalization.Pipeline | src/lib.rs:16-36 | `custom_normalization`, NFC of the buffer; described by CustomNormalization |
| Normalization.KeepBmpFilters | src/lib.rs:57-62 | the decomposition filter keeps only code points at most U+FFFF, a code point is kept iff it is in the decomposition and in that plane, and an all-BMP decomposition passes unchanged |
| Normalization.KeepBmpAppend | src/lib.rs:57-62 | the filter acts code point by code point and keeps decomposition order (it distributes over concatenation) |
| Normalization.KeepBmpNone | src/lib.rs:57-62 | a decomposition with no code point at most U+FFFF contributes nothing |
| Normalization.KeepBmpSingle | src/lib.rs:59-61 | a single code point is kept exactly when it is at most U+FFFF; with KeepBmpAppend this fixes the filter completely |
| Normalization.AllowListWins | src/lib.rs:46-47 | an allow-listed character is appended unchanged whatever the state and switches, even if it is whitespace or an emoji |
| Normalization.WhitespaceStep | src/lib.rs:48-53 | a non-allow-listed whitespace character emits exactly one ASCII space iff not (collapsing and previous input whitespace), and nothing otherwise |
| Normalization.EmojiStep | src/lib.rs:54-55 | with emoji removal on, a non-allow-listed, non-whitespace emoji emits nothing |
| Normalization.DecompositionStep | src/lib.rs:56-62 | on the default path the emission is exactly the in-plane decomposition results, all at most U+FFFF, nothing else filtered, independent of the state |
| Normalization.CharacterNormalization | src/lib.rs:38-64 | pushing one character onto the buffer, with the decomposition callback as a loop, appends exactly that character's emission |
| Normalization.ScanAppend | src/lib.rs:22-34 | folding over a concatenation folds over the first part and then over the second from the state the first part left |
| Normalization.BufferIsEmitted | src/lib.rs:22-34 | the buffer of any prefix is the left-to-right concatenation of per-character emissions, each taken with the state equal to the raw whitespace property of the preceding input character (false at the start) |
| Normalization.BufferIsAllEmitted | src/lib.rs:22-34 | the whole pre-composition buffer is the concatenation of every character's emission, in input order |
| Normalization.CustomNormalization | src/lib.rs:16-36 | the imperative scan returns NFC of the concatenated emissions, which equals the functional pipeline |
| Normalization.LeadingWhitespaceEmitsSpace | src/lib.rs:23-33 | because the state starts false, a leading non-allow-listed whitespace character always emits a space, even with collapsing |
| Normalization.DroppedCharacterResetsState | src/lib.rs:24-33 | after any dropped non-whitespace character (an emoji, or one whose decomposition lies wholly above U+FFFF) the rest is folded as from a fresh start: the state is reset to not-whitespace, not carried over |
| Normalization.NonBmpDecompositionDropped | src/lib.rs:56-62 | a character on the decomposition path whose decomposition lies wholly above U+FFFF emits nothing |
| Normalization.DroppedEmojiSplitsWhitespaceRun | src/lib.rs:24-33 | consequently, with collapsing on, space–emoji–space produces two spaces |
| Normalization.ScanBmp | src/lib.rs:46-62 | when the allow-list is in the Basic Multilingual Plane, every buffered code point is at most U+FFFF |
| Normalization.AllowListFidelity | src/lib.rs:46-47 | every allow-listed character occurring in the input occurs in the buffer |
| Normalization.EmojiTableUnusedWhenOff | src/lib.rs:54-55 | with emoji removal off the emoji branch is never taken: replacing the emoji table does not change the buffer |
| WhitespaceRuns.EmitsSpaceMeansSpace | src/lib.rs:48-53 | for a non-allow-listed whitespace character, the whitespace branch emitting a space and the emission being one space coincide |
| WhitespaceRuns.AdjacentWhitespaceNotBothSpaces | src/lib.rs:49-50 | with collapsing on, the whitespace branch never emits a space for the second of two adjacent input whitespace characters; that character emits nothing unless it is allow-listed |
| WhitespaceRuns.CollapsedSpacesAtMostRuns | src/lib.rs:23-53 | with collapsing on, spaces emitted by the whitespace branch are at most the number of maximal whitespace runs of the input |
| WhitespaceRuns.UncollapsedSpacePerCharacter | src/lib.rs:48-53 | with collapsing off, the whitespace branch emits exactly one space per non-allow-listed whitespace character |
| Trimming.TrimStart | src/lib.rs:69-69 | the result is a suffix of the input, everything removed is whitespace, and it does not start with whitespace |
| Trimming.TrimEnd | src/lib.rs:69-69 | the result is a prefix of the input, everything removed is whitespace, and it does not end with whitespace |
| Trimming.Trim | src/lib.rs:69-69 | the result is a contiguous slice of the input, only whitespace is removed on either side, and it neither starts nor ends with whitespace |
| Trimming.TrimIdempotent | src/lib.rs:69-69 | trimming twice equals trimming once |
| Trimming.TrimOfClean | src/lib.rs:69-69 | a string whose ends are not whitespace is unchanged by trimming |
| Trimming.TrimAllWhitespace | src/lib.rs:69-69 | a string made only of whitespace trims to the empty string |
| EntryPoints.BasicStringClean | src/lib.rs:67-71 | the result is the pipeline result (allow-list º, ª; no collapsing; no emoji removal) with only leading and trailing whitespace removed, and no whitespace at either end |
| EntryPoints.RemoveEmojis | src/lib.rs:74-77 | the result is the pipeline result (allow-list º, ª; collapsing; emoji removal) with only leading and trailing whitespace removed, and no whitespace at either end |
| EntryPoints.EntryBuffersAreBmp | src/lib.rs:68-75 | with the ordinal-indicator allow-list, the buffer either entry point composes is entirely in the Basic Multilingual Plane |
| EntryPoints.BasicCleanIgnoresEmoji | src/lib.rs:67-71 | the result of basic_string_clean does not depend on the emoji table |
| EntryPoints.OnlyEmojiLeavesEmptyBuffer | src/lib.rs:74-76 | an input made only of non-whitespace, non-allow-listed emoji leaves an empty buffer, so remove_emojis returns the trimmed composition of the empty string |

## Left out

- The Python binding (`#[pyfunction]`, `#[pymodule]`, `PyResult`, src/lib.rs:66-85): host-language glue; the entry points are pure functions returning a string.
- `EMOJI_RE` (src/lib.rs:11-13): never used by the pipeline.
- `decompose_compatible` and `nfc`: foreign library algorithms, kept uninterpreted as fields of `Tables`; nothing is proved about the composed string beyond its being NFC of the buffer.
- The `emoji` module with the `IsEmoji` trait is not part of this model; `is_emoji` is an uninterpreted field of `Tables`.
- The Unicode tables behind `char::is_whitespace`: an uninterpreted field of `Tables`.
- `String::with_capacity` (src/lib.rs:22): an allocation hint with no observable effect.
- The `timeit` test (src/lib.rs:92-98): it only measures wall-clock time.
- UTF-8: strings are sequences of Unicode scalar values, which is what `str::chars` yields; byte lengths play no role.
- EntryPoints.EntryBuffersAreBmp: states the plane bound for the buffer before composition, not for the returned string, because NFC is uninterpreted.

## Behaviour worth noting

- The state after a character is `c.is_whitespace()` of the raw character (src/lib.rs:33), whatever that character emitted. A dropped character (an emoji, or one whose decomposition lies wholly above U+FFFF) therefore ends a whitespace run: with collapsing on, space, emoji, space yields two spaces (`DroppedCharacterResetsState`, `DroppedEmojiSplitsWhitespaceRun`).
- The comment on src/lib.rs:58 mentions a disallow set, but src/lib.rs:59 only drops decomposed code points above U+FFFF. Control characters that are not whitespace reach the decomposition branch and are kept (`DecompositionStep`: nothing else is filtered) unless `is_emoji` classifies them as emoji, which only `remove_emojis` consults. Whitespace controls such as tab and line feed take the whitespace branch and become a space, or nothing when collapsing follows whitespace (`WhitespaceStep`).
- `basic_string_clean` takes only the string (src/lib.rs:67-68); collapsing and emoji removal are fixed off.
