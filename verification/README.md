# UTF-8 text input and glyph cache, modelled in Dafny

This project models the three allocation-free components of a small
single-line UTF-8 text-input experiment:

- **The codec and slicing helpers** (`utf8_strings.h`):
  - clamping byte slices;
  - the 32-entry lead-byte class table;
  - the lenient one-codepoint decoder, forward (`utf8_consume`) and backward (`utf8_consume_reverse`);
  - the encoder `utf8_write`, which follows section 3 of RFC 3629;
  - byte equality, and case-insensitive equality through the fixed lowercase table.
- **The text-editing core** (`utf8_textedit.h`):
  - `truncate_invalid_utf8_ending`;
  - the bounded splice `text_replace_range`;
  - cursor movement by codepoints and by words;
  - the `Text_Input` controller (`text_input_write`, `text_input_has_selection`, `text_input_move_cursor`);
  - the keys of `app.cpp` that drive it: typing, Backspace/Delete, arrows, Home/End and Control+A.
- **The glyph cache** (`app_glyph_cache.h`):
  - the ASCII block;
  - a data table of `N + 1` slots with slot 0 as a sentinel;
  - the slots threaded on a circular doubly-linked LRU ring and on the collision chains of a power-of-two hash table;
  - the table half of `initialize_font`, `clear_glyph_font_data`, `get_free_glyph_slot`, `get_glyph`, and the status decision of `initialize_glyph`.

  The rasterizer is a parameter `rasterize: nat -> Raster`.

**How the model is written:**
- Strings are `seq<byte>`.
- The buffer is a `MutableString(bytes, cap)` with `|bytes| <= cap`.
- The glyph tables are sequences of `Glyph` records, linked by index.
- Every operation is a pure function. The exception is `text_replace_range`: its in-place shifting and copying loops are also modelled as methods on an array, proved equal to the function.

**Modules:**

| file | module | what |
|---|---|---|
| `utf8_strings.dfy` | `Utf8Strings` | slicing, class table, `Consume`, `ConsumeReverse`, `Encode`, `StrEquals`, `ToLower`, `EqualsIgnoreCase` |
| `utf8_wellformed.dfy` | `Utf8WellFormed` | well-formed text (a concatenation of sequences the decoder accepts), codepoint boundaries, round trips, the reverse walk equals the forward walk reversed |
| `text_buffer.dfy` | `TextBuffer` | `truncate_invalid_utf8_ending` (as written and corrected), `text_replace_range` as a function and as array loops |
| `text_navigation.dfy` | `TextNavigation` | `str_move_pos_by_codepoints`, `is_word_separator`, `str_move_pos_by_words` |
| `text_input.dfy` | `TextInputs` | `Text_Input`, write, move cursor, the keys of `app.cpp` |
| `bits.dfy` | `Bits` | powers of two, floor-log2, bitwise `&` on naturals |
| `glyphs.dfy` | `Glyphs` | `Glyph`, `clear_glyph_font_data`, `initialize_glyph` with the rasterizer abstracted |
| `glyph_ring.dfy` | `GlyphRing` | the LRU ring and the move-to-front relinking |
| `glyph_chains.dfy` | `GlyphChains` | collision chains: lookup walk, unlinking, pushing |
| `glyph_cache.dfy` | `GlyphCache` | `Font`, `initialize_font`, `get_free_glyph_slot`, `get_glyph`, and the cache invariant they keep |

**Well-formed text.** "Well-formed" means the decoder's own notion. A string is well-formed when it splits into sequences `utf8_consume` accepts: a lead of class 1 to 4, followed by that many bytes in all, the extra ones continuation bytes. Overlong forms and surrogates are accepted, as in the source.

**The cache invariant.** `GlyphCache.Cache(f, lru, chains)` relates a font to two ghost views of it:
- `lru` is the ring order: every slot once, the sentinel first, most recent next.
- `chains[k]` is the list of slots on the chain headed at bucket `k`.

The invariant says:
- the ring links spell out `lru`;
- each bucket heads its chain, without repeats;
- every occupied slot is on the chain of its own bucket;
- no codepoint is held twice;
- free slots are the oldest;
- every dynamic slot keeps its own texture cell.

## Model

| member | source | states |
|---|---|---|
| Utf8Strings.Prefix | utf8_strings.h:21-26 | keeps `min(size, |t|)` bytes, the first ones of `t` |
| Utf8Strings.Postfix | utf8_strings.h:28-36 | keeps `min(size, |t|)` bytes, the last ones of `t` |
| Utf8Strings.Skip | utf8_strings.h:38-45 | drops `min(distance, |t|)` bytes from the front and keeps the rest in order |
| Utf8Strings.Chop | utf8_strings.h:47-58 | empty when `distance > |t|`, otherwise the first `|t| - distance` bytes |
| Utf8Strings.Substr | utf8_strings.h:60-65 | at most `length` bytes of `t` from the clamped `distance` on |
| Utf8Strings.PrefixSkipSplit | utf8_strings.h:21-45 | a prefix and the skip of the same count put the string back together |
| Utf8Strings.ChopPostfixSplit | utf8_strings.h:28-58 | a chop and the postfix of the same count put the string back together |
| Utf8Strings.IsWhitespace | utf8_strings.h:68-73 | holds exactly for space and the six codes 0x08 to 0x0D, backspace included, although the comment there claims to match `isspace`, which starts at tab |
| Utf8Strings.Class | utf8_strings.h:117-122 | the class is at most 5, and it is 0, a continuation byte, exactly when the byte fails the lead-or-ASCII bit test that `utf8_consume_reverse` applies |
| Utf8Strings.ClassMatchesTable | utf8_strings.h:117-122 | looking the class up in the 32-entry table by `byte >> 3` gives the range-defined class of every byte |
| Utf8Strings.Consume | utf8_strings.h:137-201 | always advances 1 to 4 bytes, never more than there are; bytes after the lead within the step are continuation bytes; a codepoint is decoded exactly when the input starts with an accepted sequence, and otherwise the result is `(1, 0xFFFFFFFF)` |
| Utf8Strings.ScanBack | utf8_strings.h:217-234 | the scan stops at the nearest lead or ASCII byte within the last four bytes, with only continuation bytes after it, or finds none |
| Utf8Strings.ConsumeReverse | utf8_strings.h:213-240 | steps back 1 to 4 bytes, never more than there are, and falls back to `(1, 0xFFFFFFFF)` when every one of the last four bytes has class 0, which is exactly 0x80..0xBF (class-5 bytes stop the scan as leads do) |
| Utf8Strings.ConsumeReverseReportsForwardLength | utf8_strings.h:213-240 | on `[0x41, 0x80]` the scan goes back two bytes but the result reports length 1, the forward length of the `'A'` it decodes |
| Utf8Strings.Encode | utf8_strings.h:250-286 | writes 1, 2, 3 or 4 bytes for codepoints up to 0x7F, 0x7FF, 0xFFFF and 0x10FFFF, a lead of the matching class followed by continuation bytes, and a single `'?'` beyond 0x10FFFF |
| Utf8Strings.StrEquals | utf8_strings.h:291-305 | returns true exactly when the two byte strings are equal |
| Utf8Strings.ToLower | utf8_strings.h:312-405 | a codepoint in none of the table's four range groups and none of its `switch` cases is unchanged (0xD7, 0xE9, 0x130 and every small letter among them); in particular everything below 'A', between 'Z' and 0xC0 and above 0x4FF; 'A'..'Z' map to +32; anything that changes stays at or below 0x4FF |
| Utf8Strings.ToLowerIdempotent | utf8_strings.h:312-405 | lowering twice gives the same as lowering once: no small letter the table produces is a capital of the table |
| Utf8Strings.SinglesAreSmall | utf8_strings.h:356-401 | each `switch` target, for a codepoint no range claimed first, lowers to itself |
| Utf8Strings.EqualsUnderIsPairwise | utf8_strings.h:410-430 | the comparison loop, under any per-codepoint key, holds exactly when both strings decode to equally many codepoints with pairwise equal keys |
| Utf8Strings.EqualsIgnoreCase | utf8_strings.h:410-430 | two strings equal ignoring case decode to the same number of codepoints |
| Utf8Strings.EqualsIgnoreCaseIsPairwise | utf8_strings.h:410-430 | `str_equals_ignore_case` holds exactly when the lowered decoded codepoint sequences are equal, so it is false when one side ends first |
| Utf8Strings.EqualImpliesEqualsIgnoreCase | utf8_strings.h:410-430 | byte-equal strings are equal ignoring case |
| Utf8WellFormed.EncodeConsumeRoundTrip | tests.cpp:143-165 | decoding the encoding of any codepoint up to 0x10FFFF gives back the codepoint and the written length, whatever bytes follow |
| Utf8WellFormed.TwoByteDigits | utf8_strings.h:258-263 | the two written bytes carry the codepoint's bits in the RFC 3629 layout |
| Utf8WellFormed.ThreeByteDigits | utf8_strings.h:264-270 | the three written bytes carry the codepoint's bits in the RFC 3629 layout |
| Utf8WellFormed.FourByteDigits | utf8_strings.h:271-278 | the four written bytes carry the codepoint's bits in the RFC 3629 layout |
| Utf8WellFormed.EncodeWellFormed | utf8_strings.h:250-286 | the encoding of a codepoint is well-formed text |
| Utf8WellFormed.EncodeConsumeReverseRoundTrip | utf8_strings.h:213-240 | decoding backwards from the end of anything followed by an encoded codepoint gives back the codepoint and its length |
| Utf8WellFormed.ConcatWellFormed | utf8_strings.h:137-201 | well-formed text is closed under concatenation |
| Utf8WellFormed.SuffixWellFormed | utf8_strings.h:137-201 | removing a well-formed prefix from well-formed text leaves well-formed text |
| Utf8WellFormed.LastCodepoint | utf8_strings.h:137-201 | non-empty well-formed text ends with one complete accepted sequence after well-formed text |
| Utf8WellFormed.SplitAt | utf8_strings.h:137-201 | every offset of well-formed text is a boundary or lies strictly inside the sequence starting at the last boundary before it |
| Utf8WellFormed.ReverseOfCompleteEnding | utf8_strings.h:213-240 | the backward decoder reads exactly the complete sequence a string ends with |
| Utf8WellFormed.ReverseOnWellFormed | utf8_strings.h:213-240 | on well-formed text the backward decoder reads the last codepoint as the forward decoder reads it |
| Utf8WellFormed.NextBoundary | utf8_strings.h:137-201 | from a boundary of well-formed text the next sequence is accepted and its class leads to the next boundary |
| Utf8WellFormed.ForwardStepOnWellFormed | utf8_strings.h:137-201 | a forward step from a boundary of well-formed text decodes a whole codepoint and lands on a boundary |
| Utf8WellFormed.PreviousBoundary | utf8_strings.h:213-240 | a backward step from a boundary lands on the previous boundary |
| Utf8WellFormed.BackwardStepOnWellFormed | utf8_strings.h:213-240 | a backward step from a boundary decodes the whole codepoint before it |
| Utf8WellFormed.ConsumePrefixAgrees | tests.cpp:162-164 | the forward decoder reads the same with extra room after an accepted sequence |
| Utf8WellFormed.ReverseIgnoresPrefix | utf8_strings.h:213-240 | the backward decoder ignores whatever precedes a well-formed tail |
| Utf8WellFormed.ForwardDecodeConcat | tests.cpp:182-191 | the forward walk over well-formed text followed by more bytes is the walk over each part |
| Utf8WellFormed.BackwardDecodeIsReversedForward | tests.cpp:176-213 | on well-formed text the backward walk with `utf8_consume_reverse` and `str_chop` yields the forward walk's steps in reverse order, lengths and codepoints alike |
| Utf8WellFormed.BackAfterForward | utf8_strings.h:213-240 | a backward step right after a forward step from a boundary of well-formed text undoes it exactly |
| TextBuffer.ScanEnding | utf8_textedit.h:43-64 | the scan cuts in front of the last non-continuation byte of the last four when its class disagrees with the bytes after it, and reads index -1 exactly when the window is not clamped and every byte is a continuation byte |
| TextBuffer.TruncateInvalidEnding | utf8_textedit.h:35-67 | returns a prefix of the input, cut exactly at a bad lead among the last four bytes when there is one and otherwise the whole input |
| TextBuffer.EndAtAsWritten | utf8_textedit.h:44 | `get_max(0, input.size - 4)` in 64-bit unsigned arithmetic stored into a signed variable is `size - 4`: the clamp never takes effect |
| TextBuffer.TruncateAsWritten | utf8_textedit.h:35-67 | as written, the scan reads index -1 exactly when the input is shorter than four bytes and all continuation bytes, the empty input included; otherwise it agrees with the corrected function |
| TextBuffer.TruncateAsWrittenReadsBeforeStart | utf8_textedit.h:44-48 | the empty input and a lone continuation byte make the scan read index -1 |
| TextBuffer.NoBadLeadOnWellFormed | utf8_textedit.h:35-67 | well-formed text has no bad lead at its end |
| TextBuffer.TruncateWellFormedPrefix | utf8_textedit.h:35-67 | on a prefix of well-formed text, truncation keeps the longest prefix ending on a codepoint boundary and drops at most three bytes |
| TextBuffer.TruncateKeepsWellFormed | utf8_textedit.h:35-67 | well-formed text comes back unchanged |
| TextBuffer.Clamp | utf8_textedit.h:84-85 | the offset is clamped into `[0, size]` and kept when already inside |
| TextBuffer.SelectionSpan | utf8_textedit.h:84-92 | both offsets are clamped and put in order |
| TextBuffer.FitInsert | utf8_textedit.h:96-110 | the written bytes are a prefix of the insertion that fits the capacity: all of it when it fits, otherwise the truncation of the prefix of length deleted-plus-free |
| TextBuffer.ReplaceRange | utf8_textedit.h:80-151 | keeps the capacity and `size <= cap`; does something exactly when neither early return applies: not (nothing deleted and nothing fitted), and not (an insertion longer than the deletion that truncation cut below it, lines 114-115); a no-op leaves the buffer and reports cursor 0; otherwise the bytes before the selection and after it are kept, and between them, up to the cursor, stand exactly the bytes `FitInsert` keeps: the whole insertion when it fits, else its prefix of deleted-plus-free length cut back to a complete codepoint |
| TextBuffer.ReplaceRangeWhenFits | utf8_textedit.h:96-149 | when the insertion fits, the call does something exactly when something is selected or inserted, and then writes all of the insertion in place of the selection |
| TextBuffer.ReplaceRangeUndo | utf8_textedit.h:80-151 | replacing what was written by the bytes that were selected restores the buffer |
| TextBuffer.FitInsertKeepsWellFormed | utf8_textedit.h:99-110 | the written part of a well-formed insertion is well-formed: capacity truncation never splits a codepoint |
| TextBuffer.SpliceKeepsWellFormed | utf8_textedit.h:121-146 | splicing well-formed text between two boundaries keeps the text well-formed, with a boundary after the splice |
| TextBuffer.SpanOnBoundaries | utf8_textedit.h:84-92 | ordering the clamped offsets keeps them on boundaries |
| TextBuffer.ReplaceRangeKeepsWellFormed | utf8_textedit.h:80-151 | a well-formed buffer and insertion with both ends on boundaries give a well-formed result with the cursor on a boundary |
| TextBuffer.FullBufferTruncatesEmptyInsert | utf8_textedit.h:99-108 | typing into a full buffer with nothing selected cuts the insertion to zero bytes, and that empty string makes the truncation read index -1 as written |
| TextBuffer.ShiftUp | utf8_textedit.h:121-129 | moving the tail up from the last byte down puts it `delta` further on and keeps the bytes before it |
| TextBuffer.ShiftDown | utf8_textedit.h:130-138 | moving the tail down from the first byte up puts it `shrink` earlier and keeps the bytes before its new place |
| TextBuffer.CopyIn | utf8_textedit.h:141-144 | the copy loop writes the insertion at the selection start and nothing else |
| TextBuffer.ShiftTail | utf8_textedit.h:121-138 | the two shift loops put the tail right after the new insertion end and keep the bytes before the selection |
| TextBuffer.SpliceInPlace | utf8_textedit.h:121-146 | the shift and copy loops on the array leave exactly `bytes[..start] + text + bytes[end..]` as the live bytes |
| TextBuffer.TextReplaceRange | utf8_textedit.h:80-151 | the array implementation returns exactly what `ReplaceRange` describes |
| TextNavigation.StepsForward | utf8_textedit.h:192-201 | `n` forward steps cover at least `min(n, |t|)` and at most `4n` bytes, within the text |
| TextNavigation.StepsBackward | utf8_textedit.h:203-212 | `n` backward steps cover at least `min(n, |t|)` and at most `4n` bytes, within the text |
| TextNavigation.MoveByCodepoints | utf8_textedit.h:181-219 | an out-of-range position is clamped without moving; otherwise the result stays in `[0, size]`, equals `pos` for 0, and moves by between `min(|n|, room)` and `4|n|` bytes in the direction of `n` |
| TextNavigation.StepsForwardClosed | utf8_textedit.h:195-201 | forward steps from a position in a set closed under single steps end in that set |
| TextNavigation.StepsBackwardClosed | utf8_textedit.h:206-212 | backward steps from a position in a set closed under single steps end in that set |
| TextNavigation.ForwardCodepointsOnBoundary | utf8_textedit.h:192-201 | forward codepoint moves from a boundary of well-formed text end on a boundary |
| TextNavigation.BackwardCodepointsOnBoundary | utf8_textedit.h:203-212 | backward codepoint moves from a boundary of well-formed text end on a boundary |
| TextNavigation.MoveByCodepointsOnBoundary | utf8_textedit.h:181-219 | on well-formed text a codepoint move from a boundary, or from a clamped position, never lands inside a codepoint |
| TextNavigation.MoveOneForward | utf8_textedit.h:192-201 | one codepoint forward is one `utf8_consume` step |
| TextNavigation.MoveOneBack | utf8_textedit.h:203-212 | one codepoint back is one `utf8_consume_reverse` step |
| TextNavigation.ForwardThenBack | utf8_textedit.h:181-219 | on well-formed text, +1 then -1 codepoint returns to the starting boundary |
| TextNavigation.BackThenForward | utf8_textedit.h:181-219 | -1 then +1 codepoint returns to the starting boundary |
| TextNavigation.IsWordSeparator | utf8_textedit.h:223-230 | holds exactly for whitespace and the printable ASCII characters that are not letters, digits, `_` or the backquote; every codepoint above 0x7E is part of a word |
| TextNavigation.ForwardTurn | utf8_textedit.h:253-267 | a turn of the forward loop keeps the walk in a state where it skips separators or still has words to pass |
| TextNavigation.BackwardTurn | utf8_textedit.h:281-295 | a turn of the backward loop that goes on keeps at least one word to pass |
| TextNavigation.ForwardTurnStops | utf8_textedit.h:253-267 | the forward loop stops exactly on a word codepoint once no words remain, and reaches zero words left only over a separator |
| TextNavigation.BackwardTurnStops | utf8_textedit.h:281-295 | the backward loop stops exactly on a separator ending the last word, and leaves the skipping state only over a word codepoint |
| TextNavigation.MoveByWords | utf8_textedit.h:233-305 | an out-of-range position is clamped without moving; otherwise the result stays in `[0, size]`, equals `pos` for 0, is at least `pos` moving forward and at most `pos` moving back |
| TextNavigation.MoveByWordsExample | tests.cpp:228-251 | one word forward from offset 2 of `"Ab   Cd   Ef"` ends at offset 10, as the word-move test expects |
| TextNavigation.WordsForwardBySteps | utf8_textedit.h:245-272 | the forward word walk moves exactly a number of whole forward decoding steps |
| TextNavigation.WordsBackwardBySteps | utf8_textedit.h:273-299 | the backward word walk moves exactly a number of whole backward decoding steps |
| TextNavigation.WordsForwardStopsOnWord | utf8_textedit.h:245-272 | the forward walk stops at the end of the text or in front of a word codepoint, and stops without moving only when no words remain |
| TextNavigation.WordsForwardSeparatorBefore | utf8_textedit.h:245-272 | where the forward walk stops inside the text after moving, the codepoint before the stop is a separator |
| TextNavigation.WordsBackwardStopsAfterSeparator | utf8_textedit.h:273-299 | the backward walk stops at the start of the text or right after a separator |
| TextNavigation.WordsBackwardWordAfter | utf8_textedit.h:273-299 | where the backward walk stops inside the text after moving, the codepoint after the stop is a word codepoint |
| TextNavigation.MoveByWordsOnBoundary | utf8_textedit.h:233-305 | on well-formed text a word move from a boundary, or from a clamped position, never lands inside a codepoint |
| TextNavigation.BackUndoesForward | utf8_strings.h:213-240 | on well-formed text the backward decoder reads back exactly the codepoint a forward step from a boundary read |
| TextNavigation.ForwardUndoesBack | utf8_strings.h:137-201 | the forward decoder reads exactly the codepoint a backward step to a boundary read |
| TextNavigation.ForwardWordsStopOnWord | utf8_textedit.h:233-272 | a forward word move that ends inside the text, having moved, ends in front of a word codepoint |
| TextNavigation.ForwardWordsStopAfterSeparator | utf8_textedit.h:233-272 | on text where backward steps undo forward ones, a forward word move ending inside the text ends right after a separator, so it stops at a word start |
| TextNavigation.BackwardWordsStopAfterSeparator | utf8_textedit.h:233-305 | a backward word move ending after the start, having moved, ends right after a separator |
| TextNavigation.BackwardWordsStopOnWord | utf8_textedit.h:233-305 | on text where forward steps undo backward ones, a backward word move ending inside the text ends in front of a word codepoint, so it stops at a word start |
| TextNavigation.MoveForwardStopsAfterSeparator | utf8_textedit.h:244-268 | on well-formed text, a forward word move from a boundary that moved and ended inside the text ends right after a separator, as `utf8_consume_reverse` reads the codepoint before it |
| TextNavigation.MoveBackStopsOnWord | utf8_textedit.h:270-297 | on well-formed text, a backward word move from a boundary that moved and ended after the start ends in front of a word codepoint, as `utf8_consume` reads it |
| TextInputs.HasSelection | utf8_textedit.h:167-170 | on a valid field, there is a selection exactly when the span that a write replaces is non-empty |
| TextInputs.Write | utf8_textedit.h:155-165 | keeps the capacity and the bounds; when the replacement does something the field takes its buffer, cursor and mark both move to its cursor and the field is dirty; otherwise nothing changes |
| TextInputs.Target | utf8_textedit.h:336-342 | ByMax wins over ByWords, which wins over codepoints: ByMax goes to the end for `move_by >= 0` and to 0 otherwise, ByWords moves by words, and otherwise by codepoints; the new cursor lies in `[0, size]`, not before the old one for `move_by >= 0` and not after it for `move_by < 0` |
| TextInputs.MoveCursor | utf8_textedit.h:318-349 | the buffer is untouched and the field dirty; with no flags a selection collapses to its far end in the direction of the move; otherwise the cursor goes to `Target` and the mark stays put exactly under Select, else follows the cursor |
| TextInputs.Erase | app.cpp:676-686 | Backspace and Delete keep the capacity, never grow the buffer and keep both ends in range |
| TextInputs.SelectAll | app.cpp:713-718 | Control+A leaves the buffer, puts the mark at 0 and the cursor at the end |
| TextInputs.HandleKey | app.cpp:665-721 | every key keeps the capacity and both ends in range |
| TextInputs.WriteKeepsBoundaries | utf8_textedit.h:155-165 | writing well-formed text over a selection on boundaries keeps the buffer well-formed and both ends on boundaries |
| TextInputs.WriteWhenFits | utf8_textedit.h:155-165 | when the text fits, it replaces the selection and both ends move right after it; with neither selection nor text nothing changes |
| TextInputs.WriteUndo | utf8_textedit.h:155-165 | selecting what was written and writing the old selection back restores the buffer |
| TextInputs.ReplaceRangeSymmetric | utf8_textedit.h:84-92 | swapping the two selection ends gives the same replacement |
| TextInputs.MoveCursorKeepsBoundaries | utf8_textedit.h:318-349 | every cursor move keeps both ends on codepoint boundaries |
| TextInputs.EraseSelection | app.cpp:676-686 | with a selection, Backspace and Delete remove exactly the selected bytes and leave both ends at its start |
| TextInputs.BackspaceRemovesCodepoint | app.cpp:676-686 | without a selection Backspace removes the one codepoint before the cursor, and nothing at the start |
| TextInputs.DeleteRemovesCodepoint | app.cpp:676-686 | without a selection Delete removes the one codepoint after the cursor, and nothing at the end |
| TextInputs.SelectAllThenErase | app.cpp:713-718 | Control+A then Backspace or Delete empties the field |
| TextInputs.HandleKeyKeepsBoundaries | app.cpp:665-721 | every key keeps a well-formed field with both ends on boundaries, given well-formed typed text |
| TextInputs.EraseKeepsBoundaries | app.cpp:676-686 | Backspace and Delete keep a well-formed field on boundaries |
| TextInputs.EightByteFieldFills | tests.cpp:328-331 | 14 bytes written into an empty 8-byte field keep the first eight, cursor and mark at 8 |
| TextInputs.EightByteFieldRejectsHalfCodepoint | tests.cpp:333-337 | selecting the last byte and typing "łx" does nothing: only half of "ł" would fit |
| TextInputs.EightByteFieldTakesWholeCodepoint | tests.cpp:339-343 | selecting the last two bytes and typing "łx" writes the whole "ł" and drops "x" |
| TextInputs.EightByteFieldScenario | tests.cpp:322-344 | the three steps above in sequence |
| Bits.Log2 | app_shared.h:92-105 | the most significant bit of a positive value: `2^r <= x < 2^(r+1)` |
| Bits.AndLowMask | app_glyph_cache.h:300 | masking with `2^k - 1` keeps the value modulo `2^k` |
| Glyphs.U16 | app_glyph_cache.h:91-92 | the `(u16)` conversion is below 2^16 and keeps values already in range |
| Glyphs.S16 | app_glyph_cache.h:89-90 | the `(s16)` conversion lies in `[-2^15, 2^15)` and keeps values already in range |
| Glyphs.ClearGlyphFontData | app_glyph_cache.h:61-68 | clears size, offsets, advance, status and codepoint, and keeps the texture cell and every link |
| Glyphs.InitializeGlyph | app_glyph_cache.h:70-133 | records the codepoint and the resolved status, keeps every link, and without pen movement keeps the cell and the pen |
| Glyphs.InitializedStatus | app_glyph_cache.h:80-132 | never `Empty`; `Loaded` exactly when the font has the glyph with a bitmap strictly inside the largest cell; `OnlyMetrics` only with an index and a non-zero advance; `Invalid` only without an index or with a zero advance |
| Glyphs.InitializeGlyphMovesPen | app_glyph_cache.h:99-113 | with the pen moving, a loaded glyph's cell starts at the pen and the pen moves one column past its width; anything else leaves the pen |
| GlyphRing.Promote | app_glyph_cache.h:326-339 | the order with one slot moved right after the sentinel and the rest kept in order |
| GlyphRing.Detach | app_glyph_cache.h:328-331 | joins the slot's two neighbours and changes no other field |
| GlyphRing.Attach | app_glyph_cache.h:333-338 | puts the slot between the sentinel and its successor and changes no other field |
| GlyphRing.MoveToFront | app_glyph_cache.h:326-339 | the relinking changes only ring links |
| GlyphRing.MoveFirstToFront | app_glyph_cache.h:326-339 | relinking the most recent slot changes nothing |
| GlyphRing.MoveToFrontRing | app_glyph_cache.h:326-339 | relinking any slot but the sentinel keeps one consistent circular doubly-linked ring over every slot, now in the promoted order |
| GlyphRing.PromoteKeepsSlots | app_glyph_cache.h:326-339 | the promoted order lists every slot once, sentinel first |
| GlyphRing.RingIsDoublyLinked | app_glyph_cache.h:326-339 | in a ring every slot is the successor of its predecessor and the predecessor of its successor |
| GlyphChains.Find | app_glyph_cache.h:302-314 | the walk returns only a slot that holds the hash |
| GlyphChains.FindWalksChain | app_glyph_cache.h:302-314 | walking a chain from its head finds the first member holding the hash, and nothing when none does |
| GlyphChains.DistinctBounded | app_glyph_cache.h:259-272 | a chain without repeats over `n` slots has at most `n` members, so the walk ends |
| GlyphChains.UnlinkAfter | app_glyph_cache.h:259-272 | the unlinking loop past a chain's head changes only collision links |
| GlyphChains.Unlink | app_glyph_cache.h:256-272 | the unlinking loop changes only the bucket's head and collision links |
| GlyphChains.UnlinkAfterChain | app_glyph_cache.h:259-272 | unlinking past a member leaves the chain without the target and nulls the target's link |
| GlyphChains.UnlinkChain | app_glyph_cache.h:256-274 | unlinking a member from its bucket leaves the rest of the chain reachable in order, nulls its link, and changes no slot off the chain |
| GlyphChains.Push | app_glyph_cache.h:321-322 | the slot heads the bucket and links to the old head; no other slot changes |
| GlyphChains.PushChain | app_glyph_cache.h:321-322 | pushing a slot off the chain makes the chain the slot followed by the old chain |
| GlyphCache.Key | app_glyph_cache.h:300 | the bucket of a hash is between 1 and `mask + 1` |
| GlyphCache.HashTableCount | app_glyph_cache.h:203-205 | the bucket count is above `4N/3` and at most twice it |
| GlyphCache.KeyIsRemainder | app_glyph_cache.h:203-205 | with that count the key is `1 + hash mod count` |
| GlyphCache.KeyOverrunsAllocation | app_glyph_cache.h:204-212 | the largest key equals the number of entries the source allocates, one past the end |
| GlyphCache.SlotCount | app_glyph_cache.h:196-199 | there is at least one dynamic slot exactly when one cell fits after the pen, and the slots fill the rest of the row |
| GlyphCache.InitFont | app_glyph_cache.h:194-238 | a font exists exactly when one cell fits; the mask is one below the power-of-two table size for the slot count (lines 203-205); every key has a bucket; the pen ends after the last cell, within the texture, with no room for another |
| GlyphCache.AsciiBlock | app_glyph_cache.h:182-188 | glyph `i` of the block holds `' ' + i` with its resolved status |
| GlyphCache.AsciiCellsDisjoint | app_glyph_cache.h:182-188 | the loaded ASCII glyphs get cells left to right, a column apart, left of the pen |
| GlyphCache.InitializeFont | app_glyph_cache.h:137-244 | a font that initializes has a full ASCII block holding `' '` onwards |
| GlyphCache.Lookup | app_glyph_cache.h:299-314 | a found slot holds the codepoint |
| GlyphCache.GetFreeSlot | app_glyph_cache.h:248-279 | hands out `data[0].prev_in_lru`, now free; a free oldest slot changes nothing; every cell and ring link is kept, and no other slot's codepoint changes |
| GlyphCache.Insert | app_glyph_cache.h:316-323 | the slot holds the codepoint with its resolved status and heads the codepoint's bucket; cells and ring links are kept, and no other slot's codepoint changes |
| GlyphCache.Touch | app_glyph_cache.h:326-341 | only ring links change, and the returned glyph is the slot's |
| GlyphCache.GetGlyphUnguarded | app_glyph_cache.h:290-342 | as written: the fast path returns the ASCII glyph and changes nothing; otherwise the returned glyph holds the codepoint and is the slot the lookup ends on; cells never move; a hit changes only ring links; a miss resolves the status from the rasterizer |
| GlyphCache.GetGlyph | app_glyph_cache.h:290-342 | for codepoints other than 0 the returned glyph holds the requested codepoint |
| GlyphCache.InitFontCache | app_glyph_cache.h:199-233 | a fresh font satisfies the cache invariant with the ring in index order, every chain empty and every slot free |
| GlyphCache.CellsInTexture | app_glyph_cache.h:216-228 | dynamic cells lie side by side within the texture |
| GlyphCache.LookupFinds | app_glyph_cache.h:299-314 | under the invariant the walk finds a slot exactly when some slot holds the codepoint, and then that slot |
| GlyphCache.AsciiFastPath | app_glyph_cache.h:292-297 | a codepoint from `' '` to before `'~'` gets its ASCII glyph and changes neither table |
| GlyphCache.TouchKeeps | app_glyph_cache.h:326-339 | moving a slot to the front keeps the ring, chains, uniqueness and cells of the invariant with the slot promoted in the order, and makes it the most recent |
| GlyphCache.FreeSlotKeeps | app_glyph_cache.h:248-279 | `get_free_glyph_slot` keeps the invariant and hands out the oldest slot, free and on no chain |
| GlyphCache.EvictKeeps | app_glyph_cache.h:253-276 | evicting an occupied oldest slot keeps the sentinel empty, every chain without that slot linked from its bucket, every occupied slot on its bucket's chain, codepoints unique and cells in place |
| GlyphCache.InsertKeeps | app_glyph_cache.h:316-323 | filling a free slot with a codepoint held nowhere else and pushing it keeps the ring, chains, uniqueness and cells of the invariant, the slot heading its bucket's chain |
| GlyphCache.InsertLinks | app_glyph_cache.h:321-322 | after the push every bucket heads its chain without repeats |
| GlyphCache.InsertBelongs | app_glyph_cache.h:316-323 | after the push every chain member holds a codepoint of its bucket |
| GlyphCache.HitKeeps | app_glyph_cache.h:299-339 | a hit keeps the invariant with the found slot promoted |
| GlyphCache.MissKeeps | app_glyph_cache.h:316-339 | a miss keeps the invariant with the freed slot filled and promoted |
| GlyphCache.GetGlyphKeepsCache | app_glyph_cache.h:290-342 | every non-ASCII lookup of a codepoint other than 0 keeps the cache invariant, returns the glyph holding the codepoint, and leaves its slot the most recent |
| GlyphCache.EvictsOnlyWhenFull | app_glyph_cache.h:248-279 | the oldest slot is occupied only when every slot is: free slots run out before any glyph is evicted |
| GlyphCache.SentinelLookupDetaches | app_glyph_cache.h:302-339 | as written, looking up 0 with its bucket empty returns the sentinel and leaves it linked to itself, so the next miss hands out slot 0 |

## Left out

- **Input and output:**
  - the Win32 window, message pump and mouse handling of `app.cpp`;
  - drawing;
  - the scroll animation fields of `Text_Input`.
- **The texture and the font file:**
  - the Direct3D texture upload (`d3d11_update_glyph_texture`);
  - stb_truetype rasterization;
  - the font-file parsing half of `initialize_font`.

  The rasterizer is a parameter `rasterize: nat -> Raster`. `InitializeFont` starts from the font's largest cell size, which the font file would give.
- **Floating point:**
  - `advance` is kept as a `real` copied from the rasterizer, so only its zero test matters;
  - `font_scale`, ascent, descent and line gap are not modelled.
- **Failure paths modelled as absence:**
  - When the font file fails to parse, the source zeroes the font. This model has no font file.
  - When not even one cell fits, the source's `assert` ends the process. `InitFont` returns `None`.
- **Asserts modelled as outcomes:**
  - The `assert` calls in `get_free_glyph_slot` are modelled as the loop's outcomes: the unlinking walk ends with the chain unchanged when the target is missing.
  - The assert in the `text_replace_range` size check is modelled the same way.
- **Undefined behaviour:**
  - the negative-index read of `truncate_invalid_utf8_ending`;
  - the one-past-the-end bucket.

  These are not executed as memory accesses. They are stated as the divergences under Findings.
- **Defined but wrong:** the sentinel match for codepoint 0 is ordinary defined behaviour that corrupts the ring. It is stated under Findings.
- **Codepoint 0 with a non-empty bucket:** a lookup of 0 whose bucket is non-empty walks past the sentinel and inserts 0 as if it were a new codepoint, hash 0, in a slot that then counts as free. `GetGlyph` excludes 0 altogether.
- **16-bit indices:**
  - `Shape` bounds the table to 2^16 slots.
  - The `u16` wrap of the pen in `initialize_glyph` is modelled only through `U16`.
- `GlyphChains.Find`: takes a fuel bound, which `Lookup` sets to the table size. The source loops without one. `GlyphChains.FindWalksChain` shows that fuel suffices on any chain without repeats, which the cache invariant guarantees.
- `GlyphChains.UnlinkAfter`: takes a fuel bound, for the same reason as `Find`. `GlyphChains.UnlinkChain` shows the bound suffices.
- `GlyphCache.AsciiCellsDisjoint`: is stated only while the ASCII pen stays below 2^16. Past that the source's `u16` pen wraps.
- `GlyphCache.GetGlyph`: states the returned codepoint for ASCII codepoints only when the ASCII block holds its own codepoints, as an initialized font does.
- `render_codepoint` in `app.cpp` is not part of this model. It reads a glyph field that the glyph cache does not define.
- `get_data_index_from_glyph_pointer` is pointer arithmetic. Slots are indices in this model.
- `cstr_to_string` and the string-literal operator are constructors of strings.

## Findings

| source | as written | input that shows it | evidently intended | confidence | as-written member | corrected member |
|---|---|---|---|---|---|---|
| utf8_textedit.h:44-48 | `get_max(0, input.size - 4)` is computed on the unsigned 64-bit size, so it wraps and the clamp never takes effect. `end_at` is `size - 4`, and the loop reads `input.str[-1]` when every byte is a continuation byte. | the empty string, or the single byte `0x80`; the empty string also arises when typing into a full buffer with nothing selected | scan at most the last four bytes, never before index 0 | not executed | TextBuffer.TruncateAsWritten, TextBuffer.TruncateAsWrittenReadsBeforeStart, TextBuffer.FullBufferTruncatesEmptyInsert | TextBuffer.TruncateInvalidEnding, TextBuffer.TruncateWellFormedPrefix |
| app_glyph_cache.h:204-212 | the hash table has `count` entries. The key `1 + (hash & (count - 1))` ranges over `1..count`. | any codepoint whose low bits are all ones, e.g. `count - 1`, gets key `count`, one past the table | a table of `count + 1` entries, or keys `hash & mask` | not executed | GlyphCache.KeyOverrunsAllocation | GlyphCache.InitFont, GlyphCache.InitFontCache |
| app_glyph_cache.h:302-339 | the chain walk compares `glyph->hash == hash` starting from `data_table + hash_table[key]`. An empty bucket points at the sentinel, whose hash is 0. | `get_glyph(0)` with bucket `Key(0)` empty returns the sentinel and relinks it to itself. The ring then loses every other slot and the next miss reuses slot 0. | codepoint 0 is never looked up, or empty buckets end the walk | not executed | GlyphCache.GetGlyphUnguarded, GlyphCache.SentinelLookupDetaches | GlyphCache.GetGlyph, GlyphCache.GetGlyphKeepsCache |
