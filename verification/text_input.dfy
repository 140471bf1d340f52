/** The single-line text field of `utf8_textedit.h`: a bounded buffer with a
    cursor and a selection mark, written to through `text_replace_range` and
    moved by codepoints, words or to the ends; and the keys of `app.cpp` that
    drive it. */
module TextInputs {
  import opened Utf8Strings
  import opened Utf8WellFormed
  import opened TextBuffer
  import opened TextNavigation

  /** `Text_Input` without its scroll animation: the buffer, the cursor, the
      other end of the selection, and whether the field must be redrawn. */
  datatype TextInput = TextInput(buffer: MutableString, cursor: int, mark: int, dirty: bool)
  {
    /** Both ends of the selection lie in `[0, size]`, which every operation
        keeps. */
    predicate Valid()
    {
      buffer.Valid() && 0 <= cursor <= |buffer.bytes| && 0 <= mark <= |buffer.bytes|
    }

    /** Both ends of the selection sit between whole codepoints of a
        well-formed buffer. */
    predicate OnBoundaries()
    {
      WellFormed(buffer.bytes) && Boundary(buffer.bytes, cursor) && Boundary(buffer.bytes, mark)
    }
  }

  /** An empty field of the given capacity. */
  function Empty(cap: nat): (r: TextInput)
    ensures r.Valid() && r.OnBoundaries()
  {
    TextInput(MutableString([], cap), 0, 0, false)
  }

  /** `text_input_has_selection`. */
  predicate HasSelection(ti: TextInput): (r: bool)
    ensures ti.Valid() ==>
              var span := SelectionSpan(|ti.buffer.bytes|, ti.cursor, ti.mark);
              (r <==> span.start < span.end)
  {
    ti.cursor != ti.mark
  }

  /** `text_input_write`: replace the selection by the text; when that did
      anything, both ends move to the end of what was written and the field
      is dirty, and otherwise nothing changes. */
  function Write(ti: TextInput, text: seq<byte>): (r: TextInput)
    requires ti.buffer.Valid()
    ensures r.buffer.Valid() && r.buffer.cap == ti.buffer.cap
    ensures r == ti || !HasSelection(r)
    ensures ti.Valid() ==> r.Valid()
    ensures var res := ReplaceRange(ti.buffer, ti.cursor, ti.mark, text);
            && (res.didAnything ==>
                  r.buffer == res.buffer && r.cursor == r.mark == res.cursor && r.dirty)
            && (!res.didAnything ==> r == ti)
  {
    var res := ReplaceRange(ti.buffer, ti.cursor, ti.mark, text);
    if res.didAnything then TextInput(res.buffer, res.cursor, res.cursor, true)
    else ti
  }

  // ---------------------------------------------------------------------
  // text_input_move_cursor
  // ---------------------------------------------------------------------

  /** The `u32` flag word of `text_input_move_cursor`. */
  type Flags = x: int | 0 <= x < 0x1_0000_0000

  const SELECT: Flags := 1
  const BY_WORDS: Flags := 2
  const BY_MAX: Flags := 4

  /** `flags & bit` is non-zero, for a single-bit `bit`. */
  predicate Has(flags: Flags, bit: Flags)
    requires bit == SELECT || bit == BY_WORDS || bit == BY_MAX
  {
    (flags / bit) % 2 == 1
  }

  /** Where the cursor goes when it is not collapsing a selection: to an end
      of the text, by words, or by codepoints, in that order of precedence. */
  function Target(ti: TextInput, moveBy: int, flags: Flags): (r: int)
    ensures 0 <= r <= |ti.buffer.bytes|
    ensures Has(flags, BY_MAX) ==> r == (if moveBy >= 0 then |ti.buffer.bytes| else 0)
    ensures !Has(flags, BY_MAX) && Has(flags, BY_WORDS) ==>
              r == MoveByWords(ti.buffer.bytes, ti.cursor, moveBy)
    ensures !Has(flags, BY_MAX) && !Has(flags, BY_WORDS) ==>
              r == MoveByCodepoints(ti.buffer.bytes, ti.cursor, moveBy)
    ensures ti.Valid() ==> (moveBy >= 0 ==> r >= ti.cursor) && (moveBy < 0 ==> r <= ti.cursor)
  {
    if Has(flags, BY_MAX) then (if moveBy >= 0 then |ti.buffer.bytes| else 0)
    else if Has(flags, BY_WORDS) then MoveByWords(ti.buffer.bytes, ti.cursor, moveBy)
    else MoveByCodepoints(ti.buffer.bytes, ti.cursor, moveBy)
  }

  /** `text_input_move_cursor`: with no flags, a selection collapses to its
      far end in the direction of the move; otherwise the cursor moves, and
      the mark follows it unless the move extends the selection. The buffer
      never changes and the field is always dirty afterwards. */
  function MoveCursor(ti: TextInput, moveBy: int, flags: Flags): (r: TextInput)
    ensures r.buffer == ti.buffer && r.dirty
    ensures ti.Valid() ==> r.Valid()
    ensures flags == 0 && HasSelection(ti) ==>
              && !HasSelection(r)
              && (r.cursor == ti.cursor || r.cursor == ti.mark)
              && (moveBy > 0 ==> r.cursor >= ti.cursor && r.cursor >= ti.mark)
              && (moveBy <= 0 ==> r.cursor <= ti.cursor && r.cursor <= ti.mark)
    ensures !(flags == 0 && HasSelection(ti)) ==>
              && r.cursor == Target(ti, moveBy, flags)
              && (Has(flags, SELECT) ==> r.mark == ti.mark)
              && (!Has(flags, SELECT) ==> !HasSelection(r))
  {
    var ti := ti.(dirty := true);
    if flags == 0 && HasSelection(ti) then
      var p := if moveBy > 0 then Max(ti.cursor, ti.mark) else Min(ti.cursor, ti.mark);
      ti.(cursor := p, mark := p)
    else
      var c := Target(ti, moveBy, flags);
      ti.(cursor := c, mark := if Has(flags, SELECT) then ti.mark else c)
  }

  // ---------------------------------------------------------------------
  // The keys of app.cpp
  // ---------------------------------------------------------------------

  /** The keyboard events the text field reacts to. */
  datatype Key =
    | Typed(text: seq<byte>)
    | Backspace(control: bool)
    | Delete(control: bool)
    | Arrow(left: bool, shift: bool, control: bool)
    | HomeEnd(home: bool, shift: bool)
    | SelectAllKey

  /** Backspace and Delete: without a selection, first select one codepoint
      (or word, with Control) behind or ahead of the cursor; then write
      nothing over the selection. */
  function Erase(ti: TextInput, backward: bool, control: bool): (r: TextInput)
    requires ti.buffer.Valid()
    ensures r.buffer.cap == ti.buffer.cap
    ensures |r.buffer.bytes| <= |ti.buffer.bytes|
    ensures ti.Valid() ==> r.Valid()
  {
    var flags := if control then SELECT + BY_WORDS else SELECT;
    var moved := if !HasSelection(ti) then MoveCursor(ti, if backward then -1 else 1, flags) else ti;
    ReplaceRangeShrinks(moved.buffer, moved.cursor, moved.mark);
    Write(moved, [])
  }

  /** Control+A: move to the start, then extend the selection to the end. */
  function SelectAll(ti: TextInput): (r: TextInput)
    ensures r.buffer == ti.buffer && r.dirty
    ensures r.mark == 0 && r.cursor == |ti.buffer.bytes|
  {
    MoveCursor(MoveCursor(ti, -1, BY_MAX), 1, BY_MAX + SELECT)
  }

  /** What the field does with one key. */
  function HandleKey(ti: TextInput, key: Key): (r: TextInput)
    requires ti.buffer.Valid()
    ensures r.buffer.cap == ti.buffer.cap
    ensures ti.Valid() ==> r.Valid()
  {
    match key
    case Typed(text) => Write(ti, text)
    case Backspace(control) => Erase(ti, true, control)
    case Delete(control) => Erase(ti, false, control)
    case Arrow(left, shift, control) =>
      var flags := (if shift then SELECT else 0) + (if control then BY_WORDS else 0);
      MoveCursor(ti, if left then -1 else 1, flags)
    case HomeEnd(home, shift) =>
      MoveCursor(ti, if home then -1 else 1, if shift then BY_MAX + SELECT else BY_MAX)
    case SelectAllKey => SelectAll(ti)
  }

  // ---------------------------------------------------------------------
  // Properties
  // ---------------------------------------------------------------------

  /** Deleting without inserting never grows the buffer. */
  lemma ReplaceRangeShrinks(buffer: MutableString, a: int, b: int)
    requires buffer.Valid()
    ensures |ReplaceRange(buffer, a, b, []).buffer.bytes| <= |buffer.bytes|
  {
    var span := SelectionSpan(|buffer.bytes|, a, b);
    ReplaceRangeWhenFits(buffer, a, b, []);
  }

  /** A write over a selection on codepoint boundaries, of well-formed text,
      leaves a well-formed buffer with both ends on boundaries. */
  lemma WriteKeepsBoundaries(ti: TextInput, text: seq<byte>)
    requires ti.Valid() && ti.OnBoundaries() && WellFormed(text)
    ensures Write(ti, text).OnBoundaries()
  {
    ReplaceRangeKeepsWellFormed(ti.buffer, ti.cursor, ti.mark, text);
  }

  /** When the text fits, a write puts all of it in place of the selection
      and leaves the cursor right after it; it does nothing exactly when
      there is neither a selection nor text. */
  lemma WriteWhenFits(ti: TextInput, text: seq<byte>)
    requires ti.Valid()
    requires |ti.buffer.bytes| - (Max(ti.cursor, ti.mark) - Min(ti.cursor, ti.mark)) + |text| <= ti.buffer.cap
    ensures var lo := Min(ti.cursor, ti.mark);
            var hi := Max(ti.cursor, ti.mark);
            var r := Write(ti, text);
            if HasSelection(ti) || |text| > 0 then
              && r.buffer.bytes == ti.buffer.bytes[..lo] + text + ti.buffer.bytes[hi..]
              && r.cursor == r.mark == lo + |text|
              && r.dirty
            else r == ti
  {
    ReplaceRangeWhenFits(ti.buffer, ti.cursor, ti.mark, text);
  }

  /** Selecting what a write put in and writing the old selection back over
      it restores the buffer. */
  lemma WriteUndo(ti: TextInput, text: seq<byte>)
    requires ti.Valid()
    requires ReplaceRange(ti.buffer, ti.cursor, ti.mark, text).didAnything
    ensures var lo := Min(ti.cursor, ti.mark);
            var hi := Max(ti.cursor, ti.mark);
            var w := Write(ti, text);
            Write(w.(mark := lo), ti.buffer.bytes[lo..hi]).buffer == ti.buffer
  {
    var lo, hi := Min(ti.cursor, ti.mark), Max(ti.cursor, ti.mark);
    var res := ReplaceRange(ti.buffer, ti.cursor, ti.mark, text);
    var w := Write(ti, text);
    assert w.buffer == res.buffer && w.cursor == res.cursor;
    var span := SelectionSpan(|ti.buffer.bytes|, ti.cursor, ti.mark);
    assert span.start == lo && span.end == hi;
    ReplaceRangeUndo(ti.buffer, ti.cursor, ti.mark, text);
    ReplaceRangeSymmetric(res.buffer, res.cursor, lo, ti.buffer.bytes[lo..hi]);
  }

  /** Which end of the selection is the cursor does not matter to a
      replacement. */
  lemma ReplaceRangeSymmetric(buffer: MutableString, a: int, b: int, insert: seq<byte>)
    requires buffer.Valid()
    ensures ReplaceRange(buffer, a, b, insert) == ReplaceRange(buffer, b, a, insert)
  {
    assert SelectionSpan(|buffer.bytes|, a, b) == SelectionSpan(|buffer.bytes|, b, a);
  }

  /** A cursor move on a well-formed buffer keeps both ends on codepoint
      boundaries. */
  lemma MoveCursorKeepsBoundaries(ti: TextInput, moveBy: int, flags: Flags)
    requires ti.Valid() && ti.OnBoundaries()
    ensures MoveCursor(ti, moveBy, flags).OnBoundaries()
  {
    EndsAreBoundaries(ti.buffer.bytes);
    MoveByCodepointsOnBoundary(ti.buffer.bytes, ti.cursor, moveBy);
    MoveByWordsOnBoundary(ti.buffer.bytes, ti.cursor, moveBy);
  }

  /** With a selection, Backspace and Delete remove exactly the selected
      bytes and leave both ends where the selection began. */
  lemma EraseSelection(ti: TextInput, backward: bool, control: bool)
    requires ti.Valid() && HasSelection(ti)
    ensures var lo := Min(ti.cursor, ti.mark);
            var hi := Max(ti.cursor, ti.mark);
            var r := Erase(ti, backward, control);
            && r.buffer.bytes == ti.buffer.bytes[..lo] + ti.buffer.bytes[hi..]
            && r.cursor == r.mark == lo
  {
    WriteWhenFits(ti, []);
  }

  /** Without a selection, Backspace and Delete (without Control) select
      one codepoint with the cursor and write nothing over it. */
  lemma EraseSelectsCodepoint(ti: TextInput, backward: bool)
    requires ti.buffer.Valid() && !HasSelection(ti)
    ensures var moveBy := if backward then -1 else 1;
            var moved := ti.(dirty := true, cursor := MoveByCodepoints(ti.buffer.bytes, ti.cursor, moveBy));
            Erase(ti, backward, false) == Write(moved, [])
  {
    assert Has(SELECT, SELECT) && !Has(SELECT, BY_WORDS) && !Has(SELECT, BY_MAX);
  }

  /** Backspace without a selection removes the one codepoint in front of
      the cursor, and does nothing at the start of the text. */
  lemma BackspaceRemovesCodepoint(ti: TextInput)
    requires ti.Valid() && !HasSelection(ti)
    ensures var r := Erase(ti, true, false);
            && r.buffer.cap == ti.buffer.cap
            && (ti.cursor == 0 ==> r.buffer == ti.buffer)
            && (ti.cursor > 0 ==>
                  var k := ConsumeReverse(ti.buffer.bytes[..ti.cursor]).len;
                  && 1 <= k <= ti.cursor
                  && r.buffer.bytes == ti.buffer.bytes[..ti.cursor - k] + ti.buffer.bytes[ti.cursor..]
                  && r.cursor == r.mark == ti.cursor - k)
  {
    EraseSelectsCodepoint(ti, true);
    var bytes := ti.buffer.bytes;
    var moved := ti.(dirty := true, cursor := MoveByCodepoints(bytes, ti.cursor, -1));
    if ti.cursor > 0 {
      MoveOneBack(bytes, ti.cursor);
      var k := ConsumeReverse(bytes[..ti.cursor]).len;
      WriteWhenFits(moved, []);
      assert bytes[..ti.cursor - k] + [] == bytes[..ti.cursor - k];
    } else {
      WriteWhenFits(moved, []);
    }
  }

  /** Delete without a selection removes the one codepoint after the cursor,
      and does nothing at the end of the text. */
  lemma DeleteRemovesCodepoint(ti: TextInput)
    requires ti.Valid() && !HasSelection(ti)
    ensures var r := Erase(ti, false, false);
            && r.buffer.cap == ti.buffer.cap
            && (ti.cursor == |ti.buffer.bytes| ==> r.buffer == ti.buffer)
            && (ti.cursor < |ti.buffer.bytes| ==>
                  var k := Consume(ti.buffer.bytes[ti.cursor..]).len;
                  && 1 <= k <= |ti.buffer.bytes| - ti.cursor
                  && r.buffer.bytes == ti.buffer.bytes[..ti.cursor] + ti.buffer.bytes[ti.cursor + k..]
                  && r.cursor == r.mark == ti.cursor)
  {
    EraseSelectsCodepoint(ti, false);
    var bytes := ti.buffer.bytes;
    var moved := ti.(dirty := true, cursor := MoveByCodepoints(bytes, ti.cursor, 1));
    if ti.cursor < |bytes| {
      MoveOneForward(bytes, ti.cursor);
      WriteWhenFits(moved, []);
      assert bytes[..ti.cursor] + [] == bytes[..ti.cursor];
    } else {
      WriteWhenFits(moved, []);
    }
  }

  /** Control+A followed by Backspace or Delete empties the field. */
  lemma SelectAllThenErase(ti: TextInput, backward: bool, control: bool)
    requires ti.buffer.Valid()
    ensures var r := Erase(SelectAll(ti), backward, control);
            r.buffer.bytes == [] && r.cursor == r.mark == 0
  {
    var all := SelectAll(ti);
    if HasSelection(all) {
      EraseSelection(all, backward, control);
    }
  }

  /** Every key keeps a well-formed field on codepoint boundaries, as long
      as typed text is itself well-formed. */
  lemma HandleKeyKeepsBoundaries(ti: TextInput, key: Key)
    requires ti.Valid() && ti.OnBoundaries()
    requires key.Typed? ==> WellFormed(key.text)
    ensures HandleKey(ti, key).OnBoundaries()
  {
    match key
    case Typed(text) => WriteKeepsBoundaries(ti, text);
    case Backspace(control) => EraseKeepsBoundaries(ti, true, control);
    case Delete(control) => EraseKeepsBoundaries(ti, false, control);
    case Arrow(left, shift, control) =>
      var flags := (if shift then SELECT else 0) + (if control then BY_WORDS else 0);
      MoveCursorKeepsBoundaries(ti, if left then -1 else 1, flags);
    case HomeEnd(home, shift) =>
      MoveCursorKeepsBoundaries(ti, if home then -1 else 1, if shift then BY_MAX + SELECT else BY_MAX);
    case SelectAllKey =>
      MoveCursorKeepsBoundaries(ti, -1, BY_MAX);
      MoveCursorKeepsBoundaries(MoveCursor(ti, -1, BY_MAX), 1, BY_MAX + SELECT);
  }

  /** Backspace and Delete keep a well-formed field on boundaries. */
  lemma EraseKeepsBoundaries(ti: TextInput, backward: bool, control: bool)
    requires ti.Valid() && ti.OnBoundaries()
    ensures Erase(ti, backward, control).OnBoundaries()
  {
    var flags := if control then SELECT + BY_WORDS else SELECT;
    var moved := if !HasSelection(ti) then MoveCursor(ti, if backward then -1 else 1, flags) else ti;
    MoveCursorKeepsBoundaries(ti, if backward then -1 else 1, flags);
    WriteKeepsBoundaries(moved, []);
  }

  // ---------------------------------------------------------------------
  // The eight-byte field of tests.cpp
  // ---------------------------------------------------------------------

  /** `"12345678"`. */
  const DIGITS: seq<byte> := [0x31, 0x32, 0x33, 0x34, 0x35, 0x36, 0x37, 0x38]

  /** `"ł"` (U+0142) followed by `"x"`. */
  const L_STROKE_X: seq<byte> := [0xC5, 0x82, 0x78]

  /** Writing 14 ASCII bytes into an empty field of capacity 8 keeps the
      first eight, with the cursor after them. */
  lemma EightByteFieldFills()
    ensures var t := Write(Empty(8), DIGITS + [0x61, 0x62, 0x63, 0x64, 0x65, 0x66]);
            t.buffer.bytes == DIGITS && t.cursor == t.mark == 8
  {
    var insert := DIGITS + [0x61, 0x62, 0x63, 0x64, 0x65, 0x66];
    assert insert[..8] == DIGITS;
    assert Class(DIGITS[7]) == 1;
    var kept := TruncateInvalidEnding(DIGITS);
    assert !BadLead(DIGITS, |kept|);
  }

  /** Selecting the last byte of the full field and typing `"łx"` does
      nothing: only one byte would fit, and it is an incomplete `"ł"`. */
  lemma EightByteFieldRejectsHalfCodepoint()
    ensures var full := TextInput(MutableString(DIGITS, 8), 8, 8, true);
            var t := Write(MoveCursor(full, -1, SELECT), L_STROKE_X);
            t.buffer.bytes == DIGITS && t.mark == 8 && t.cursor == 7
  {
    var full := TextInput(MutableString(DIGITS, 8), 8, 8, true);
    MoveOneBack(DIGITS, 8);
    assert DIGITS[..8] == DIGITS;
    assert ConsumeReverse(DIGITS).len == 1;
    assert L_STROKE_X[..1] == [0xC5];
    assert BadLead([0xC5], 0);
  }

  /** Selecting the last two bytes and typing `"łx"` writes the whole `"ł"`
      and drops the `"x"`. */
  lemma EightByteFieldTakesWholeCodepoint()
    ensures var half := TextInput(MutableString(DIGITS, 8), 7, 8, true);
            var t := Write(MoveCursor(half, -1, SELECT), L_STROKE_X);
            t.buffer.bytes == DIGITS[..6] + [0xC5, 0x82] && t.cursor == t.mark == 8
  {
    SelectLastTwo();
    WriteOverLastTwo();
  }

  /** One codepoint back with `SELECT` from the end of the selection
      widens it over the last two digits. */
  lemma SelectLastTwo()
    ensures MoveCursor(TextInput(MutableString(DIGITS, 8), 7, 8, true), -1, SELECT)
            == TextInput(MutableString(DIGITS, 8), 6, 8, true)
  {
    MoveOneBack(DIGITS, 7);
    assert ConsumeReverse(DIGITS[..7]).len == 1;
  }

  /** Typing `"łx"` over the last two digits fits `"ł"` exactly. */
  lemma WriteOverLastTwo()
    ensures var t := Write(TextInput(MutableString(DIGITS, 8), 6, 8, true), L_STROKE_X);
            t.buffer.bytes == DIGITS[..6] + [0xC5, 0x82] && t.cursor == t.mark == 8
  {
    assert L_STROKE_X[..2] == [0xC5, 0x82];
    var kept := TruncateInvalidEnding([0xC5, 0x82]);
    assert !BadLead([0xC5, 0x82], |kept|);
  }

  /** The three steps above in sequence, as the field goes through them. */
  lemma EightByteFieldScenario()
    ensures var t1 := Write(Empty(8), DIGITS + [0x61, 0x62, 0x63, 0x64, 0x65, 0x66]);
            var t2 := Write(MoveCursor(t1, -1, SELECT), L_STROKE_X);
            var t3 := Write(MoveCursor(t2, -1, SELECT), L_STROKE_X);
            && t1.buffer.bytes == DIGITS && t1.cursor == t1.mark == 8
            && t2.buffer.bytes == DIGITS && t2.mark == 8 && t2.cursor == 7
            && t3.buffer.bytes == DIGITS[..6] + [0xC5, 0x82] && t3.cursor == t3.mark == 8
  {
    EightByteFieldFills();
    EightByteFieldRejectsHalfCodepoint();
    EightByteFieldTakesWholeCodepoint();
    var t1 := Write(Empty(8), DIGITS + [0x61, 0x62, 0x63, 0x64, 0x65, 0x66]);
    assert t1 == TextInput(MutableString(DIGITS, 8), 8, 8, true);
    var t2 := Write(MoveCursor(t1, -1, SELECT), L_STROKE_X);
    assert t2 == TextInput(MutableString(DIGITS, 8), 7, 8, true);
  }
}
