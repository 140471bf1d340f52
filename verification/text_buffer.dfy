/** The bounded edit buffer of `utf8_textedit.h`: repairing a cut-off UTF-8
    ending and replacing a byte range within a fixed capacity. */
module TextBuffer {
  import opened Utf8Strings
  import opened Utf8WellFormed

  /** `Mutable_String`: the live bytes `str[0..size)` and the capacity of the
      array that holds them. */
  datatype MutableString = MutableString(bytes: seq<byte>, cap: nat)
  {
    /** `size <= cap`, which every operation keeps. */
    predicate Valid() { |bytes| <= cap }
  }

  // ---------------------------------------------------------------------
  // truncate_invalid_utf8_ending
  // ---------------------------------------------------------------------

  /** How the backward scan of `truncate_invalid_utf8_ending` ends: with the
      size of the result, or by reading the byte at a negative index. */
  datatype EndingScan = Cut(size: nat) | ReadsBefore(index: int)

  /** Among the last four bytes, the byte at `j` is the last one that is not
      a continuation byte, and its class disagrees with the number of bytes
      from it to the end: the ending is incomplete (or has stray continuation
      bytes) and the cut goes in front of `j`. */
  predicate BadLead(s: seq<byte>, j: int)
  {
    && 0 <= j < |s|
    && |s| - 4 <= j
    && Class(s[j]) != 0
    && Class(s[j]) != |s| - j
    && forall i :: j < i < |s| ==> Class(s[i]) == 0
  }

  /** The scan loop at `index`, scanning down to `endAt` inclusive, with the
      `followers` bytes after `index` all continuation bytes. The limit is
      either the source's `size - 4` or the intended `max(0, size - 4)`. */
  function ScanEnding(s: seq<byte>, index: int, followers: nat, endAt: int): (r: EndingScan)
    requires -1 <= index < |s| && followers == |s| - 1 - index
    requires forall i :: index < i < |s| ==> Class(s[i]) == 0
    requires endAt == |s| - 4 || endAt == Max(0, |s| - 4)
    ensures r.ReadsBefore? <==> endAt < 0 && forall i :: 0 <= i < |s| ==> Class(s[i]) == 0
    ensures r.ReadsBefore? ==> r.index == -1
    ensures r.Cut? ==> r.size <= |s| && (r.size < |s| ==> BadLead(s, r.size))
    ensures forall j :: BadLead(s, j) ==> r == Cut(j)
    decreases index - endAt + 1
  {
    if index < endAt then Cut(|s|)
    else if index < 0 then ReadsBefore(index)
    else if Class(s[index]) == 0 then ScanEnding(s, index - 1, followers + 1, endAt)
    else if Class(s[index]) != followers + 1 then Cut(index)
    else Cut(|s|)
  }

  /** `truncate_invalid_utf8_ending` with the scan window clamped at 0 as
      intended: keep the longest prefix whose last at most four bytes do not
      end in an incomplete or malformed sequence. */
  function TruncateInvalidEnding(s: seq<byte>): (r: seq<byte>)
    ensures |r| <= |s| && r == s[..|r|]
    ensures |r| < |s| ==> BadLead(s, |r|)
    ensures forall j :: BadLead(s, j) ==> |r| == j
  {
    var scan := ScanEnding(s, |s| - 1, 0, Max(0, |s| - 4));
    s[..scan.size]
  }

  const U64_MODULUS: int := 0x1_0000_0000_0000_0000
  const S64_LIMIT: int := 0x8000_0000_0000_0000

  /** The scan limit `end_at` as the source computes it: `input.size - 4` is
      unsigned 64-bit arithmetic and wraps, `get_max(0, ...)` then compares
      unsigned values, and the result lands in a signed 64-bit variable. The
      clamp never takes effect. */
  function EndAtAsWritten(size: nat): (r: int)
    requires size < S64_LIMIT
    ensures r == size - 4
  {
    var difference := (size - 4) % U64_MODULUS;
    var larger := if 0 > difference then 0 else difference;
    if larger >= S64_LIMIT then larger - U64_MODULUS else larger
  }

  /** `truncate_invalid_utf8_ending` as written: with `end_at == size - 4`,
      an input shorter than four bytes made only of continuation bytes
      (the empty input included) sends the scan to index -1. Every other
      input gets the same answer as the corrected function. */
  function TruncateAsWritten(s: seq<byte>): (r: EndingScan)
    requires |s| < S64_LIMIT
    ensures r.ReadsBefore? <==> |s| < 4 && forall i :: 0 <= i < |s| ==> Class(s[i]) == 0
    ensures r.Cut? ==> r.size <= |s| && s[..r.size] == TruncateInvalidEnding(s)
  {
    ScanEnding(s, |s| - 1, 0, EndAtAsWritten(|s|))
  }

  /** The empty input and a lone continuation byte both make the source read
      before the start of the string. */
  lemma TruncateAsWrittenReadsBeforeStart()
    ensures TruncateAsWritten([]) == ReadsBefore(-1)
    ensures TruncateAsWritten([0x80]) == ReadsBefore(-1)
  {
    assert Class(0x80) == 0;
  }

  /** A well-formed string ends with a complete sequence, so no byte of its
      ending is a bad lead. */
  lemma NoBadLeadOnWellFormed(s: seq<byte>)
    requires WellFormed(s)
    ensures forall j :: !BadLead(s, j)
  {
    if |s| > 0 {
      var k := LastCodepoint(s);
      DecodableFollowers(s[k..]);
      forall j
        ensures !BadLead(s, j)
      {
        if k < j < |s| {
          assert s[j] == s[k..][j - k];
        }
      }
    }
  }

  /** On a prefix of well-formed text, truncation keeps exactly the longest
      prefix that ends on a codepoint boundary, dropping at most three bytes. */
  lemma TruncateWellFormedPrefix(w: seq<byte>, n: nat)
    requires WellFormed(w) && n <= |w|
    ensures var r := TruncateInvalidEnding(w[..n]);
            && Boundary(w, |r|)
            && (forall m :: |r| < m <= n ==> !Boundary(w, m))
            && n - 3 <= |r|
  {
    var s := w[..n];
    var b := SplitAt(w, n);
    if b < n {
      SplitIsBadLead(w, n, b);
      NoBoundaryInside(w, n, b);
    } else {
      NoBadLeadOnWellFormed(s);
    }
  }

  /** An offset strictly inside a codepoint cuts it: the lead in front of
      the offset is a bad lead of the prefix. */
  lemma SplitIsBadLead(w: seq<byte>, n: nat, b: nat)
    requires b < n <= |w| && Decodable(w[b..]) && n < b + Class(w[b])
    ensures BadLead(w[..n], b)
  {
    DecodableFollowers(w[b..]);
    var s := w[..n];
    forall i | b < i < n
      ensures Class(s[i]) == 0
    {
      assert s[i] == w[b..][i - b];
    }
  }

  /** No offset strictly inside a codepoint is a boundary. */
  lemma NoBoundaryInside(w: seq<byte>, n: nat, b: nat)
    requires Boundary(w, b) && b < n <= |w| && Decodable(w[b..]) && n < b + Class(w[b])
    ensures forall m :: b < m <= n ==> !Boundary(w, m)
  {
    forall m | b < m <= n
      ensures !Boundary(w, m)
    {
      if Boundary(w, m) {
        BoundaryGap(w, b, m);
      }
    }
  }

  /** Well-formed text comes back unchanged. */
  lemma TruncateKeepsWellFormed(s: seq<byte>)
    requires WellFormed(s)
    ensures TruncateInvalidEnding(s) == s
  {
    assert s[..|s|] == s;
    assert Boundary(s, |s|);
    TruncateWellFormedPrefix(s, |s|);
  }

  // ---------------------------------------------------------------------
  // text_replace_range
  // ---------------------------------------------------------------------

  /** `get_min(get_max(0, x), size)`. */
  function Clamp(x: int, size: nat): (r: nat)
    ensures r <= size
    ensures 0 <= x <= size ==> r == x
    ensures x < 0 ==> r == 0
    ensures size < x ==> r == size
  {
    Min(Max(0, x), size)
  }

  /** A byte range `[start, end)` of the buffer. */
  datatype Span = Span(start: nat, end: nat)

  /** Both selection ends clamped into the buffer and swapped into order. */
  function SelectionSpan(size: nat, a: int, b: int): (r: Span)
    ensures r.start <= r.end <= size
    ensures || (r.start == Clamp(a, size) && r.end == Clamp(b, size))
            || (r.start == Clamp(b, size) && r.end == Clamp(a, size))
  {
    var start, end := Clamp(a, size), Clamp(b, size);
    if start > end then Span(end, start) else Span(start, end)
  }

  /** The length `insert_text` is cut to when the insertion would overflow:
      what was deleted plus the free capacity. */
  function FitLength(size: nat, cap: nat, deleted: nat): nat
    requires deleted <= size <= cap
  {
    deleted + (cap - size)
  }

  /** The bytes of `insert` that are written: all of them when the result
      fits the capacity, otherwise the prefix that fits with any incomplete
      ending removed. */
  function FitInsert(size: nat, cap: nat, deleted: nat, insert: seq<byte>): (r: seq<byte>)
    requires deleted <= size <= cap
    ensures |r| <= |insert| && r == insert[..|r|]
    ensures size - deleted + |r| <= cap
    ensures size - deleted + |insert| <= cap ==> r == insert
    ensures cap < size - deleted + |insert| ==> r == TruncateInvalidEnding(insert[..FitLength(size, cap, deleted)])
  {
    var maxDelta := cap - size;
    var initialDelta := |insert| - deleted;
    if maxDelta < initialDelta then
      var reduce := initialDelta - maxDelta;
      TruncateInvalidEnding(insert[..|insert| - reduce])
    else
      insert
  }

  /** The two early returns of `text_replace_range`: nothing deleted and
      nothing left to insert, or an insertion meant to grow the buffer that
      truncation turned into a shrink. */
  predicate IsNoOp(deleted: nat, insertLength: nat, fittedLength: nat)
  {
    || (fittedLength == deleted && deleted == 0)
    || (insertLength > deleted && fittedLength < deleted)
  }

  /** `Text_Replace_Range_Result` together with the updated buffer. */
  datatype ReplaceResult = ReplaceResult(buffer: MutableString, didAnything: bool, cursor: int)

  /** `text_replace_range` as a function: replace the clamped and ordered
      selection by the part of `insert` that fits. */
  function ReplaceRange(buffer: MutableString, selectionStart: int, selectionEnd: int,
                        insert: seq<byte>): (r: ReplaceResult)
    requires buffer.Valid()
    ensures r.buffer.cap == buffer.cap && r.buffer.Valid()
    ensures !r.didAnything ==> r.buffer == buffer && r.cursor == 0
    ensures var span := SelectionSpan(|buffer.bytes|, selectionStart, selectionEnd);
            var deleted := span.end - span.start;
            r.didAnything <==> !IsNoOp(deleted, |insert|, |FitInsert(|buffer.bytes|, buffer.cap, deleted, insert)|)
    ensures r.didAnything ==>
              var span := SelectionSpan(|buffer.bytes|, selectionStart, selectionEnd);
              && span.start <= r.cursor <= |r.buffer.bytes|
              && r.cursor - span.start <= |insert|
              && r.buffer.bytes[..span.start] == buffer.bytes[..span.start]
              && r.buffer.bytes[r.cursor..] == buffer.bytes[span.end..]
              && r.buffer.bytes[span.start..r.cursor] == insert[..r.cursor - span.start]
              && r.buffer.bytes[span.start..r.cursor]
                   == FitInsert(|buffer.bytes|, buffer.cap, span.end - span.start, insert)
  {
    var size := |buffer.bytes|;
    var span := SelectionSpan(size, selectionStart, selectionEnd);
    var deleted := span.end - span.start;
    var fitted := FitInsert(size, buffer.cap, deleted, insert);
    if IsNoOp(deleted, |insert|, |fitted|) then
      ReplaceResult(buffer, false, 0)
    else
      var bytes := buffer.bytes[..span.start] + fitted + buffer.bytes[span.end..];
      ReplaceResult(buffer.(bytes := bytes), true, span.start + |fitted|)
  }

  /** When the insertion fits the capacity, all of it is written in place of
      the selection, and the call does something exactly when there is
      something to delete or to insert. */
  lemma ReplaceRangeWhenFits(buffer: MutableString, a: int, b: int, insert: seq<byte>)
    requires buffer.Valid()
    requires var span := SelectionSpan(|buffer.bytes|, a, b);
             |buffer.bytes| - (span.end - span.start) + |insert| <= buffer.cap
    ensures var span := SelectionSpan(|buffer.bytes|, a, b);
            var r := ReplaceRange(buffer, a, b, insert);
            && (r.didAnything <==> span.start < span.end || |insert| > 0)
            && (r.didAnything ==>
                  && r.buffer.bytes == buffer.bytes[..span.start] + insert + buffer.bytes[span.end..]
                  && r.cursor == span.start + |insert|)
  {
  }

  /** Replacing the written text by the bytes that were selected restores
      the buffer: the second call always fits, since it brings the size back. */
  lemma ReplaceRangeUndo(buffer: MutableString, a: int, b: int, insert: seq<byte>)
    requires buffer.Valid()
    requires ReplaceRange(buffer, a, b, insert).didAnything
    ensures var span := SelectionSpan(|buffer.bytes|, a, b);
            var r := ReplaceRange(buffer, a, b, insert);
            var undo := ReplaceRange(r.buffer, span.start, r.cursor, buffer.bytes[span.start..span.end]);
            undo.buffer == buffer
  {
    var span := SelectionSpan(|buffer.bytes|, a, b);
    var r := ReplaceRange(buffer, a, b, insert);
    var t := r.buffer.bytes;
    var fitted := t[span.start..r.cursor];
    var removed := buffer.bytes[span.start..span.end];
    assert t == t[..span.start] + fitted + t[r.cursor..];
    assert SelectionSpan(|t|, span.start, r.cursor) == Span(span.start, r.cursor);
    ReplaceRangeWhenFits(r.buffer, span.start, r.cursor, removed);
    assert buffer.bytes == buffer.bytes[..span.start] + removed + buffer.bytes[span.end..];
  }

  /** The part of a well-formed insertion that is written is well-formed. */
  lemma FitInsertKeepsWellFormed(size: nat, cap: nat, deleted: nat, insert: seq<byte>)
    requires deleted <= size <= cap && WellFormed(insert)
    ensures WellFormed(FitInsert(size, cap, deleted, insert))
  {
    var fitted := FitInsert(size, cap, deleted, insert);
    if fitted != insert {
      TruncateWellFormedPrefix(insert, FitLength(size, cap, deleted));
      assert insert[..|fitted|] == fitted;
    }
  }

  /** Splicing well-formed text between two boundaries of well-formed text
      gives well-formed text with a boundary right after the splice. */
  lemma SpliceKeepsWellFormed(t: seq<byte>, start: nat, end: nat, middle: seq<byte>)
    requires WellFormed(t) && WellFormed(middle) && start <= end
    requires Boundary(t, start) && Boundary(t, end)
    ensures var u := t[..start] + middle + t[end..];
            WellFormed(u) && Boundary(u, start + |middle|)
  {
    var head, tail := t[..start], t[end..];
    BoundarySuffix(t, end);
    ConcatWellFormed(head, middle);
    ConcatWellFormed(head + middle, tail);
    var u := head + middle + tail;
    assert u[..start + |middle|] == head + middle;
  }

  /** Both ends of the selection are among the two clamped offsets. */
  lemma SpanOnBoundaries(t: seq<byte>, a: int, b: int)
    requires Boundary(t, Clamp(a, |t|)) && Boundary(t, Clamp(b, |t|))
    ensures var span := SelectionSpan(|t|, a, b);
            Boundary(t, span.start) && Boundary(t, span.end)
  {
  }

  /** With a well-formed buffer, a well-formed insertion and both selection
      ends on codepoint boundaries, the result is well-formed and the cursor
      lands on a boundary: capacity truncation never splits a codepoint. */
  lemma ReplaceRangeKeepsWellFormed(buffer: MutableString, a: int, b: int, insert: seq<byte>)
    requires buffer.Valid() && WellFormed(buffer.bytes) && WellFormed(insert)
    requires Boundary(buffer.bytes, Clamp(a, |buffer.bytes|))
    requires Boundary(buffer.bytes, Clamp(b, |buffer.bytes|))
    ensures var r := ReplaceRange(buffer, a, b, insert);
            WellFormed(r.buffer.bytes) && (r.didAnything ==> Boundary(r.buffer.bytes, r.cursor))
  {
    var r := ReplaceRange(buffer, a, b, insert);
    if r.didAnything {
      var size := |buffer.bytes|;
      var span := SelectionSpan(size, a, b);
      var fitted := FitInsert(size, buffer.cap, span.end - span.start, insert);
      SpanOnBoundaries(buffer.bytes, a, b);
      FitInsertKeepsWellFormed(size, buffer.cap, span.end - span.start, insert);
      PartsKeepWellFormed(r.buffer.bytes, buffer.bytes, span.start, span.end, r.cursor, fitted);
    }
  }

  /** A sequence assembled from well-formed parts between two boundaries is
      well-formed, with a boundary after the middle part. */
  lemma PartsKeepWellFormed(u: seq<byte>, t: seq<byte>, start: nat, end: nat, cursor: nat, middle: seq<byte>)
    requires WellFormed(t) && WellFormed(middle) && start <= end
    requires Boundary(t, start) && Boundary(t, end) && start <= cursor <= |u|
    requires u[..start] == t[..start] && u[cursor..] == t[end..] && u[start..cursor] == middle
    ensures WellFormed(u) && Boundary(u, cursor)
  {
    SpliceKeepsWellFormed(t, start, end, middle);
    SpliceFromParts(u, t, start, end, cursor, middle);
  }

  /** A sequence whose head, middle and tail agree with the parts of a
      splice is that splice. */
  lemma SpliceFromParts(u: seq<byte>, t: seq<byte>, start: nat, end: nat, cursor: nat, middle: seq<byte>)
    requires start <= end <= |t| && start <= cursor <= |u|
    requires u[..start] == t[..start] && u[cursor..] == t[end..] && u[start..cursor] == middle
    ensures u == t[..start] + middle + t[end..] && cursor == start + |middle|
  {
    assert u == u[..start] + u[start..cursor] + u[cursor..];
  }

  /** Inserting into a full buffer with nothing selected cuts the insertion
      to zero bytes before truncating it, so the source hands the empty
      string to `truncate_invalid_utf8_ending`, which then reads before it. */
  lemma FullBufferTruncatesEmptyInsert(buffer: MutableString, a: int, b: int, insert: seq<byte>)
    requires buffer.Valid() && |buffer.bytes| == buffer.cap
    requires Clamp(a, |buffer.bytes|) == Clamp(b, |buffer.bytes|) && |insert| > 0
    ensures var span := SelectionSpan(|buffer.bytes|, a, b);
            && span.start == span.end
            && buffer.cap < |buffer.bytes| + |insert|
            && insert[..FitLength(|buffer.bytes|, buffer.cap, 0)] == []
            && TruncateAsWritten([]).ReadsBefore?
  {
    TruncateAsWrittenReadsBeforeStart();
  }

  /** The shift loop for a growing buffer: move `str[end..size)` up by
      `delta`, from the last byte down so no byte is overwritten before it
      is read. */
  method ShiftUp(str: array<byte>, end: nat, size: nat, delta: nat)
    requires end <= size && size + delta <= str.Length
    modifies str
    ensures str[..end] == old(str[..end])
    ensures str[end + delta..size + delta] == old(str[end..size])
  {
    ghost var before := str[..];
    var index: int := size - 1;
    while index >= end
      invariant end - 1 <= index < size
      invariant forall k :: 0 <= k <= index ==> str[k] == before[k]
      invariant forall j :: index + delta < j < size + delta ==> str[j] == before[j - delta]
    {
      str[index + delta] := str[index];
      index := index - 1;
    }
    assert forall k :: 0 <= k < end ==> str[..end][k] == before[..end][k];
    assert forall k :: 0 <= k < size - end ==>
             str[end + delta..size + delta][k] == str[end + delta + k] == before[end..size][k];
  }

  /** The shift loop for a shrinking buffer: move `str[end..size)` down by
      `shrink`, from the first byte up. */
  method ShiftDown(str: array<byte>, end: nat, size: nat, shrink: nat)
    requires shrink <= end <= size <= str.Length
    modifies str
    ensures str[..end - shrink] == old(str[..end - shrink])
    ensures str[end - shrink..size - shrink] == old(str[end..size])
  {
    ghost var before := str[..];
    var index := end;
    while index < size
      invariant end <= index <= size
      invariant forall k :: 0 <= k < end - shrink ==> str[k] == before[k]
      invariant forall k :: end <= k < index ==> str[k - shrink] == before[k]
      invariant forall k :: index <= k < size ==> str[k] == before[k]
    {
      str[index - shrink] := str[index];
      index := index + 1;
    }
  }

  /** The copy loop: write `insert` at `start`. */
  method CopyIn(str: array<byte>, start: nat, insert: seq<byte>)
    requires start + |insert| <= str.Length
    modifies str
    ensures str[..start] == old(str[..start])
    ensures str[start..start + |insert|] == insert
    ensures str[start + |insert|..] == old(str[start + |insert|..])
  {
    var index := 0;
    while index < |insert|
      invariant 0 <= index <= |insert|
      invariant str[..start] == old(str[..start])
      invariant str[start..start + index] == insert[..index]
      invariant str[start + |insert|..] == old(str[start + |insert|..])
    {
      str[start + index] := insert[index];
      index := index + 1;
    }
  }

  /** The two shift loops: move the tail `str[end..size)` so that it starts
      at `newEnd`, the end of the insertion. */
  method ShiftTail(str: array<byte>, start: nat, end: nat, size: nat, newEnd: nat)
    requires start <= end <= size <= str.Length && start <= newEnd
    requires newEnd + (size - end) <= str.Length
    modifies str
    ensures str[..start] == old(str[..start])
    ensures str[newEnd..newEnd + (size - end)] == old(str[end..size])
  {
    if newEnd > end {
      ShiftUp(str, end, size, newEnd - end);
      assert str[..start] == str[..end][..start];
    } else if newEnd < end {
      ShiftDown(str, end, size, end - newEnd);
      assert str[..start] == str[..newEnd][..start];
    }
  }

  lemma JoinThree<T>(s: seq<T>, a: nat, b: nat, n: nat)
    requires a <= b <= n <= |s|
    ensures s[..n] == s[..a] + s[a..b] + s[b..n]
  {
  }

  /** The in-place half of `text_replace_range`: the live bytes in an array
      of `cap` bytes, the tail shifted to its new place, the insertion copied
      in front of it. */
  method SpliceInPlace(bytes: seq<byte>, cap: nat, start: nat, end: nat, text: seq<byte>)
    returns (r: seq<byte>)
    requires start <= end <= |bytes| <= cap && |bytes| - (end - start) + |text| <= cap
    ensures r == bytes[..start] + text + bytes[end..]
  {
    var size := |bytes|;
    var str := new byte[cap](i => if 0 <= i < size then bytes[i] else 0);
    assert str[..size] == bytes;
    assert str[..start] == bytes[..start] && str[end..size] == bytes[end..];
    var newEnd := start + |text|;
    var newSize := newEnd + (size - end);
    ShiftTail(str, start, end, size, newEnd);
    ghost var shifted := str[..];
    CopyIn(str, start, text);
    assert str[newEnd..newSize] == shifted[newEnd..newSize] by {
      assert str[newEnd..] == shifted[newEnd..];
      assert str[newEnd..newSize] == str[newEnd..][..size - end];
      assert shifted[newEnd..newSize] == shifted[newEnd..][..size - end];
    }
    JoinThree(str[..], start, newEnd, newSize);
    r := str[..newSize];
  }

  /** `text_replace_range` on the array behind the buffer: clamp and order
      the selection, cut the insertion to the capacity, return early in the
      two no-op cases, then shift the tail and copy the insertion in place. */
  method TextReplaceRange(buffer: MutableString, selectionStart: int, selectionEnd: int,
                          insert: seq<byte>) returns (r: ReplaceResult)
    requires buffer.Valid()
    ensures r == ReplaceRange(buffer, selectionStart, selectionEnd, insert)
  {
    var span := SelectionSpan(|buffer.bytes|, selectionStart, selectionEnd);
    var toDelete := span.end - span.start;
    var text := FitInsert(|buffer.bytes|, buffer.cap, toDelete, insert);
    if IsNoOp(toDelete, |insert|, |text|) {
      return ReplaceResult(buffer, false, 0);
    }
    var bytes := SpliceInPlace(buffer.bytes, buffer.cap, span.start, span.end, text);
    r := ReplaceResult(buffer.(bytes := bytes), true, span.start + |text|);
  }
}
