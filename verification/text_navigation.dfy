/** Cursor movement over the bytes of a buffer, by codepoints and by words,
    as `str_move_pos_by_codepoints` and `str_move_pos_by_words` do it. The
    loops are written over a decoding step passed as a parameter, so that
    what they do with the steps is stated once for any decoder; the
    movement functions instantiate them with `Consume` and `ConsumeReverse`. */
module TextNavigation {
  import opened Utf8Strings
  import opened Utf8WellFormed

  /** One decoding step: reads a codepoint from the front (or the back) of
      the bytes and says how many bytes it covered. */
  type Step = seq<byte> -> Decoded

  /** The step covers one to four bytes of non-empty input and never more
      bytes than there are. */
  ghost predicate Advances(step: Step)
  {
    forall t: seq<byte> :: |t| > 0 ==> 1 <= step(t).len <= 4 && step(t).len <= |t|
  }

  lemma DecodersAdvance()
    ensures Advances(Consume) && Advances(ConsumeReverse)
  {
  }

  // ---------------------------------------------------------------------
  // By codepoints.
  // ---------------------------------------------------------------------

  /** The forward loop of `str_move_pos_by_codepoints`: the bytes covered by
      up to `count` forward steps from the start of `t`. */
  function StepsForward(step: Step, t: seq<byte>, count: nat): (r: nat)
    requires Advances(step)
    ensures Min(count, |t|) <= r <= |t|
    ensures r <= 4 * count
    decreases count
  {
    if count == 0 || |t| == 0 then 0
    else
      var inc := step(t).len;
      inc + StepsForward(step, t[inc..], count - 1)
  }

  /** The backward loop of `str_move_pos_by_codepoints`: the bytes covered by
      up to `count` backward steps from the end of `t`. */
  function StepsBackward(step: Step, t: seq<byte>, count: nat): (r: nat)
    requires Advances(step)
    ensures Min(count, |t|) <= r <= |t|
    ensures r <= 4 * count
    decreases count
  {
    if count == 0 || |t| == 0 then 0
    else
      var dec := step(t).len;
      dec + StepsBackward(step, t[..|t| - dec], count - 1)
  }

  /** The codepoint loops on UTF-8: `Consume` forward, `ConsumeReverse` back. */
  function ForwardCodepoints(t: seq<byte>, count: nat): (r: nat)
    ensures Min(count, |t|) <= r <= |t|
  {
    DecodersAdvance();
    StepsForward(Consume, t, count)
  }

  function BackwardCodepoints(t: seq<byte>, count: nat): (r: nat)
    ensures Min(count, |t|) <= r <= |t|
  {
    DecodersAdvance();
    StepsBackward(ConsumeReverse, t, count)
  }

  /** `str_move_pos_by_codepoints`: a position outside `[0, size]` is clamped
      and returned without moving; otherwise the position moves by up to
      `|moveBy|` codepoints, stopping at the ends of the text. */
  function MoveByCodepoints(text: seq<byte>, pos: int, moveBy: int): (r: int)
    ensures 0 <= r <= |text|
    ensures pos > |text| ==> r == |text|
    ensures pos < 0 ==> r == 0
    ensures 0 <= pos <= |text| ==>
              && (moveBy == 0 ==> r == pos)
              && (moveBy > 0 ==> pos + Min(moveBy, |text| - pos) <= r <= pos + 4 * moveBy)
              && (moveBy < 0 ==> pos - 4 * -moveBy <= r <= pos - Min(-moveBy, pos))
  {
    DecodersAdvance();
    if pos > |text| then |text|
    else if pos < 0 then 0
    else if moveBy > 0 then pos + ForwardCodepoints(text[pos..], moveBy)
    else if moveBy < 0 then pos - BackwardCodepoints(text[..pos], -moveBy)
    else pos
  }

  /** Where `count` forward steps from offset `p` of `w` end. */
  function EndForward(step: Step, w: seq<byte>, p: nat, count: nat): nat
    requires Advances(step) && p <= |w|
  {
    p + StepsForward(step, w[p..], count)
  }

  /** Forward steps from a position in a set closed under forward steps
      end in that set. */
  lemma StepsForwardClosed(step: Step, w: seq<byte>, good: nat -> bool, p: nat, count: nat)
    requires Advances(step) && p <= |w| && good(p)
    requires forall q: nat {:trigger step(w[q..])} :: q < |w| && good(q) ==> good(q + step(w[q..]).len)
    ensures good(p + StepsForward(step, w[p..], count))
  {
    EndForwardClosed(step, w, good, p, count);
  }

  lemma {:induction false} EndForwardClosed(step: Step, w: seq<byte>, good: nat -> bool, p: nat, count: nat)
    requires Advances(step) && p <= |w| && good(p)
    requires forall q: nat {:trigger step(w[q..])} :: q < |w| && good(q) ==> good(q + step(w[q..]).len)
    ensures good(EndForward(step, w, p, count))
    decreases count
  {
    if count > 0 && p < |w| {
      var inc := step(w[p..]).len;
      assert good(p + inc);
      StepsForwardUnfold(step, w, p, count);
      EndForwardClosed(step, w, good, p + inc, count - 1);
      assert EndForward(step, w, p, count) == EndForward(step, w, p + inc, count - 1);
    } else {
      assert EndForward(step, w, p, count) == p;
    }
  }

  /** One forward step from offset `p`, then the rest from where it ends. */
  lemma StepsForwardUnfold(step: Step, w: seq<byte>, p: nat, count: nat)
    requires Advances(step) && p < |w| && count > 0
    ensures var inc := step(w[p..]).len;
            && p + inc <= |w|
            && StepsForward(step, w[p..], count) == inc + StepsForward(step, w[p + inc..], count - 1)
  {
    var inc := step(w[p..]).len;
    assert w[p..][inc..] == w[p + inc..];
  }

  /** Backward steps from a position in a set closed under backward steps
      end in that set. */
  lemma {:induction false} StepsBackwardClosed(step: Step, w: seq<byte>, good: nat -> bool, e: nat, count: nat)
    requires Advances(step) && e <= |w| && good(e)
    requires forall q: nat {:trigger step(w[..q])} :: 0 < q <= |w| && good(q) ==> good(q - step(w[..q]).len)
    ensures good(e - StepsBackward(step, w[..e], count))
    decreases count
  {
    if count > 0 && e > 0 {
      var dec := step(w[..e]).len;
      assert w[..e][..e - dec] == w[..e - dec];
      assert StepsBackward(step, w[..e], count) == dec + StepsBackward(step, w[..e - dec], count - 1);
      StepsBackwardClosed(step, w, good, e - dec, count - 1);
    }
  }

  /** On well-formed text the boundaries are closed under forward steps. */
  lemma BoundariesClosedForward(w: seq<byte>)
    requires WellFormed(w)
    ensures forall q: nat {:trigger Consume(w[q..])} :: q < |w| && Boundary(w, q) ==>
              Boundary(w, q + Consume(w[q..]).len)
  {
    forall q: nat | q < |w| && Boundary(w, q)
      ensures Boundary(w, q + Consume(w[q..]).len)
    {
      ForwardStepOnWellFormed(w, q);
    }
  }

  /** The boundaries are closed under backward steps. */
  lemma BoundariesClosedBackward(w: seq<byte>)
    ensures forall q: nat {:trigger ConsumeReverse(w[..q])} :: 0 < q <= |w| && Boundary(w, q) ==>
              Boundary(w, q - ConsumeReverse(w[..q]).len)
  {
    forall q: nat | 0 < q <= |w| && Boundary(w, q)
      ensures Boundary(w, q - ConsumeReverse(w[..q]).len)
    {
      PreviousBoundary(w, q);
    }
  }

  /** Forward codepoint steps from a boundary of well-formed text end on a
      boundary. */
  lemma ForwardCodepointsOnBoundary(w: seq<byte>, p: nat, count: nat)
    requires WellFormed(w) && Boundary(w, p)
    ensures Boundary(w, p + ForwardCodepoints(w[p..], count))
  {
    var fwd: Step, back: Step := Consume, ConsumeReverse;
    var good := (q: nat) => Boundary(w, q);
    ForwardPremises(fwd, back, good, w);
    StepsForwardClosed(fwd, w, good, p, count);
    ForwardEndAsCodepoints(fwd, good, w, p, count);
  }

  /** Where forward `utf8_consume` steps end, read as `ForwardCodepoints`. */
  lemma ForwardEndAsCodepoints(fwd: Step, good: nat -> bool, w: seq<byte>, p: nat, count: nat)
    requires fwd == Consume && Advances(fwd) && p <= |w|
    requires forall q: nat :: good(q) == Boundary(w, q)
    requires good(p + StepsForward(fwd, w[p..], count))
    ensures Boundary(w, p + ForwardCodepoints(w[p..], count))
  {
    assert ForwardCodepoints(w[p..], count) == StepsForward(fwd, w[p..], count);
  }

  /** Backward codepoint steps from a boundary of well-formed text end on a
      boundary. */
  lemma BackwardCodepointsOnBoundary(w: seq<byte>, e: nat, count: nat)
    requires WellFormed(w) && Boundary(w, e)
    ensures Boundary(w, e - BackwardCodepoints(w[..e], count))
  {
    var fwd: Step, back: Step := Consume, ConsumeReverse;
    var good := (q: nat) => Boundary(w, q);
    BackwardPremises(fwd, back, good, w);
    StepsBackwardClosed(back, w, good, e, count);
    BackwardEndAsCodepoints(back, good, w, e, count);
  }

  /** Where backward `utf8_consume_reverse` steps end, read as
      `BackwardCodepoints`. */
  lemma BackwardEndAsCodepoints(back: Step, good: nat -> bool, w: seq<byte>, e: nat, count: nat)
    requires back == ConsumeReverse && Advances(back) && e <= |w|
    requires forall q: nat :: good(q) == Boundary(w, q)
    requires good(e - StepsBackward(back, w[..e], count))
    ensures Boundary(w, e - BackwardCodepoints(w[..e], count))
  {
    assert BackwardCodepoints(w[..e], count) == StepsBackward(back, w[..e], count);
  }

  /** On well-formed text, moving by codepoints from a boundary (or from a
      position that gets clamped) ends on a boundary: it never lands inside
      a codepoint. */
  lemma MoveByCodepointsOnBoundary(text: seq<byte>, pos: int, moveBy: int)
    requires WellFormed(text)
    requires 0 <= pos <= |text| ==> Boundary(text, pos)
    ensures Boundary(text, MoveByCodepoints(text, pos, moveBy))
  {
    if 0 <= pos <= |text| && moveBy > 0 {
      MoveForwardLands(text, pos, moveBy);
    } else if 0 <= pos <= |text| && moveBy < 0 {
      MoveBackwardLands(text, pos, moveBy);
    } else {
      EndsAreBoundaries(text);
    }
  }

  lemma MoveForwardLands(text: seq<byte>, pos: int, moveBy: int)
    requires WellFormed(text) && Boundary(text, pos) && moveBy > 0
    ensures Boundary(text, MoveByCodepoints(text, pos, moveBy))
  {
    ForwardCodepointsOnBoundary(text, pos, moveBy);
  }

  lemma MoveBackwardLands(text: seq<byte>, pos: int, moveBy: int)
    requires WellFormed(text) && Boundary(text, pos) && moveBy < 0
    ensures Boundary(text, MoveByCodepoints(text, pos, moveBy))
  {
    BackwardCodepointsOnBoundary(text, pos, -moveBy);
  }

  /** One codepoint forward from inside the text is one forward decoding step. */
  lemma MoveOneForward(text: seq<byte>, pos: int)
    requires 0 <= pos < |text|
    ensures MoveByCodepoints(text, pos, 1) == pos + Consume(text[pos..]).len
  {
  }

  /** One codepoint back from inside the text is one backward decoding step. */
  lemma MoveOneBack(text: seq<byte>, pos: int)
    requires 0 < pos <= |text|
    ensures MoveByCodepoints(text, pos, -1) == pos - ConsumeReverse(text[..pos]).len
  {
  }

  /** On well-formed text, one codepoint forward and one back returns to the
      starting boundary. */
  lemma ForwardThenBack(text: seq<byte>, pos: nat)
    requires WellFormed(text) && Boundary(text, pos) && pos < |text|
    ensures MoveByCodepoints(text, MoveByCodepoints(text, pos, 1), -1) == pos
  {
    BackAfterForward(text, pos);
    var k := Consume(text[pos..]).len;
    ForwardOneThen(text, pos, -1);
    MoveOneBack(text, pos + k);
  }

  /** Any move that follows one codepoint forward starts from the end of
      that forward step. */
  lemma ForwardOneThen(text: seq<byte>, pos: nat, moveBy: int)
    requires pos < |text|
    ensures MoveByCodepoints(text, MoveByCodepoints(text, pos, 1), moveBy)
            == MoveByCodepoints(text, pos + Consume(text[pos..]).len, moveBy)
  {
    MoveOneForward(text, pos);
  }

  /** On well-formed text, one codepoint back and one forward returns to the
      starting boundary. */
  lemma BackThenForward(text: seq<byte>, pos: nat)
    requires Boundary(text, pos) && 0 < pos
    ensures MoveByCodepoints(text, MoveByCodepoints(text, pos, -1), 1) == pos
  {
    var c := ConsumeReverse(text[..pos]);
    BackwardStepOnWellFormed(text, pos);
    MoveOneBack(text, pos);
    MoveOneForward(text, pos - c.len);
  }

  // ---------------------------------------------------------------------
  // By words.
  // ---------------------------------------------------------------------

  /** `is_word_separator`: whitespace and the ASCII punctuation ranges
      `!`..`/`, `:`..`@`, `[`..`^` and `{`..`~`. Letters, digits, `_`, the
      backquote and everything beyond ASCII belong to words. */
  predicate IsWordSeparator(c: nat): (r: bool)
    ensures r <==> IsWhitespace(c) || (0x21 <= c <= 0x7E && !IsAsciiAlphanumeric(c) && c != '_' as nat && c != '`' as nat)
  {
    || IsWhitespace(c)
    || (0x21 <= c <= 0x2F)
    || (0x3A <= c <= 0x40)
    || (0x5B <= c <= 0x5E)
    || (0x7B <= c <= 0x7E)
  }

  /** An ASCII letter or digit. */
  predicate IsAsciiAlphanumeric(c: nat)
  {
    ('0' as nat <= c <= '9' as nat) || ('A' as nat <= c <= 'Z' as nat) || ('a' as nat <= c <= 'z' as nat)
  }

  /** The state of a word walk: how many words are still to be passed, and
      whether the walk is skipping separators (the last codepoint read was a
      separator, or none was read yet). */
  datatype WordWalk = WordWalk(count: nat, skipping: bool)

  /** What the loop does with one codepoint: stop in front of it, or step
      over it into a new state. */
  datatype Move = Stop | Go(next: WordWalk)

  /** A forward walk only leaves the skipping state while words remain. */
  predicate ForwardState(s: WordWalk)
  {
    s.skipping || s.count > 0
  }

  /** One turn of the forward loop of `str_move_pos_by_words`: a separator
      ends the current word (one word fewer to pass) or is skipped; a word
      codepoint stops the walk when no words remain, and otherwise starts or
      continues a word. */
  function ForwardTurn(s: WordWalk, separator: bool): (m: Move)
    requires ForwardState(s)
    ensures m.Go? ==> ForwardState(m.next)
  {
    if separator then
      if s.skipping then Go(s) else Go(WordWalk(s.count - 1, true))
    else if s.count == 0 then Stop
    else Go(WordWalk(s.count, false))
  }

  /** One turn of the backward loop: a separator after a word counts that
      word, and stops the walk on the last one; a word codepoint is stepped
      over. */
  function BackwardTurn(s: WordWalk, separator: bool): (m: Move)
    requires s.count > 0
    ensures m.Go? ==> m.next.count > 0
  {
    if separator then
      if s.skipping then Go(s)
      else if s.count == 1 then Stop
      else Go(WordWalk(s.count - 1, true))
    else Go(WordWalk(s.count, false))
  }

  /** The forward walk stops exactly on a word codepoint once no words
      remain, and enters a state with no words left only over a separator. */
  lemma ForwardTurnStops(s: WordWalk, separator: bool)
    requires ForwardState(s)
    ensures ForwardTurn(s, separator).Stop? <==> !separator && s.count == 0
    ensures var m := ForwardTurn(s, separator);
            m.Go? && m.next.count == 0 ==> separator
  {
  }

  /** The backward walk stops exactly on a separator that ends the last
      word, and leaves the skipping state only over a word codepoint. */
  lemma BackwardTurnStops(s: WordWalk, separator: bool)
    requires s.count > 0
    ensures BackwardTurn(s, separator).Stop? <==> separator && !s.skipping && s.count == 1
    ensures var m := BackwardTurn(s, separator);
            m.Go? && !m.next.skipping ==> !separator
  {
  }

  /** The forward loop of `str_move_pos_by_words` over the rest `t` of the
      text: the bytes it moves. */
  function WordsForward(step: Step, t: seq<byte>, s: WordWalk): (r: nat)
    requires Advances(step) && ForwardState(s)
    ensures r <= |t|
    decreases |t|
  {
    if |t| == 0 then 0
    else
      var c := step(t);
      match ForwardTurn(s, IsWordSeparator(c.codepoint))
      case Stop => 0
      case Go(next) => c.len + WordsForward(step, t[c.len..], next)
  }

  /** The backward loop of `str_move_pos_by_words` over the text `t` before
      the position: the bytes it moves back. */
  function WordsBackward(step: Step, t: seq<byte>, s: WordWalk): (r: nat)
    requires Advances(step) && s.count > 0
    ensures r <= |t|
    decreases |t|
  {
    if |t| == 0 then 0
    else
      var c := step(t);
      match BackwardTurn(s, IsWordSeparator(c.codepoint))
      case Stop => 0
      case Go(next) => c.len + WordsBackward(step, t[..|t| - c.len], next)
  }

  /** The word loops on UTF-8, starting to skip separators with `count`
      words to pass. */
  function ForwardWords(t: seq<byte>, count: nat): (r: nat)
    ensures r <= |t|
  {
    DecodersAdvance();
    WordsForward(Consume, t, WordWalk(count, true))
  }

  function BackwardWords(t: seq<byte>, count: nat): (r: nat)
    requires count > 0
    ensures r <= |t|
  {
    DecodersAdvance();
    WordsBackward(ConsumeReverse, t, WordWalk(count, true))
  }

  /** `str_move_pos_by_words`: a position outside `[0, size]` is clamped and
      returned without moving; otherwise it moves forward or back by
      `|moveBy|` words, never past the ends of the text. */
  function MoveByWords(text: seq<byte>, pos: int, moveBy: int): (r: int)
    ensures 0 <= r <= |text|
    ensures pos > |text| ==> r == |text|
    ensures pos < 0 ==> r == 0
    ensures 0 <= pos <= |text| ==>
              && (moveBy == 0 ==> r == pos)
              && (moveBy > 0 ==> pos <= r)
              && (moveBy < 0 ==> r <= pos)
  {
    if pos > |text| then |text|
    else if pos < 0 then 0
    else if moveBy > 0 then pos + ForwardWords(text[pos..], moveBy)
    else if moveBy < 0 then pos - BackwardWords(text[..pos], -moveBy)
    else pos
  }

  /** The forward word walk is a number of forward steps. */
  lemma {:induction false} WordsForwardBySteps(step: Step, t: seq<byte>, s: WordWalk)
    returns (k: nat)
    requires Advances(step) && ForwardState(s)
    ensures WordsForward(step, t, s) == StepsForward(step, t, k)
    decreases |t|
  {
    k := 0;
    if |t| > 0 {
      var c := step(t);
      var m := ForwardTurn(s, IsWordSeparator(c.codepoint));
      if m.Go? {
        var j := WordsForwardBySteps(step, t[c.len..], m.next);
        assert WordsForward(step, t, s) == c.len + WordsForward(step, t[c.len..], m.next);
        k := j + 1;
        assert StepsForward(step, t, k) == c.len + StepsForward(step, t[c.len..], j);
      }
    }
  }

  /** The backward word walk is a number of backward steps. */
  lemma {:induction false} WordsBackwardBySteps(step: Step, t: seq<byte>, s: WordWalk)
    returns (k: nat)
    requires Advances(step) && s.count > 0
    ensures WordsBackward(step, t, s) == StepsBackward(step, t, k)
    decreases |t|
  {
    k := 0;
    if |t| > 0 {
      var c := step(t);
      var m := BackwardTurn(s, IsWordSeparator(c.codepoint));
      if m.Go? {
        var j := WordsBackwardBySteps(step, t[..|t| - c.len], m.next);
        k := j + 1;
      }
    }
  }

  /** The forward word walk stops on a word codepoint or at the end, and
      stops without moving only when no words remain. */
  lemma {:induction false} WordsForwardStopsOnWord(step: Step, t: seq<byte>, s: WordWalk)
    requires Advances(step) && ForwardState(s)
    ensures var r := WordsForward(step, t, s);
            && (r < |t| ==> !IsWordSeparator(step(t[r..]).codepoint))
            && (r == 0 < |t| ==> s.count == 0)
    decreases |t|
  {
    if |t| > 0 {
      var c := step(t);
      var m := ForwardTurn(s, IsWordSeparator(c.codepoint));
      ForwardTurnStops(s, IsWordSeparator(c.codepoint));
      if m.Go? {
        var u := t[c.len..];
        WordsForwardStopsOnWord(step, u, m.next);
        var r' := WordsForward(step, u, m.next);
        assert r' < |u| ==> t[c.len + r'..] == u[r'..];
      } else {
        assert t[0..] == t;
      }
    }
  }

  /** Where the forward word walk stops inside the text after moving, the
      codepoint just passed was a separator: it starts at `m`, which is
      itself `j` steps from the start. */
  lemma {:induction false} WordsForwardSeparatorBefore(step: Step, t: seq<byte>, s: WordWalk)
    returns (m: nat, j: nat)
    requires Advances(step) && ForwardState(s)
    ensures var r := WordsForward(step, t, s);
            0 < r < |t| ==>
              && m == StepsForward(step, t, j)
              && m + step(t[m..]).len == r
              && IsWordSeparator(step(t[m..]).codepoint)
    decreases |t|
  {
    m, j := 0, 0;
    if |t| > 0 {
      var c := step(t);
      var turn := ForwardTurn(s, IsWordSeparator(c.codepoint));
      if turn.Go? {
        var m', j' := WordsForwardSeparatorBefore(step, t[c.len..], turn.next);
        m, j := SeparatorBeforeStep(step, t, s, turn.next, m', j');
      }
    }
  }

  /** The step case of `WordsForwardSeparatorBefore`: from the result for
      the text after the first codepoint to the result for the whole text. */
  lemma SeparatorBeforeStep(step: Step, t: seq<byte>, s: WordWalk, next: WordWalk, m': nat, j': nat)
    returns (m: nat, j: nat)
    requires Advances(step) && ForwardState(s) && |t| > 0
    requires ForwardTurn(s, IsWordSeparator(step(t).codepoint)) == Go(next)
    requires var u := t[step(t).len..];
             var r := WordsForward(step, u, next);
             0 < r < |u| ==>
               && m' == StepsForward(step, u, j')
               && m' + step(u[m'..]).len == r
               && IsWordSeparator(step(u[m'..]).codepoint)
    ensures var r := WordsForward(step, t, s);
            0 < r < |t| ==>
              && m == StepsForward(step, t, j)
              && m + step(t[m..]).len == r
              && IsWordSeparator(step(t[m..]).codepoint)
  {
    var u := t[step(t).len..];
    var r' := WordsForward(step, u, next);
    if r' == 0 {
      m, j := SeparatorBeforeIsFirst(step, t, s, next);
    } else if r' < |u| {
      m, j := SeparatorBeforeCarries(step, t, s, next, m', j');
    } else {
      m, j := 0, 0;
      WordsForwardGo(step, t, s, next);
    }
  }

  /** When the walk stops right after the first codepoint, that codepoint
      is the separator before the stop. */
  lemma SeparatorBeforeIsFirst(step: Step, t: seq<byte>, s: WordWalk, next: WordWalk)
    returns (m: nat, j: nat)
    requires Advances(step) && ForwardState(s) && |t| > 0
    requires ForwardTurn(s, IsWordSeparator(step(t).codepoint)) == Go(next)
    requires WordsForward(step, t[step(t).len..], next) == 0
    ensures var r := WordsForward(step, t, s);
            0 < r < |t| ==>
              && m == StepsForward(step, t, j)
              && m + step(t[m..]).len == r
              && IsWordSeparator(step(t[m..]).codepoint)
  {
    m, j := 0, 0;
    var c := step(t);
    assert WordsForward(step, t, s) == c.len;
    if c.len < |t| {
      ForwardStopRightAfterSeparator(step, t, s);
      assert t[0..] == t;
    }
  }

  /** When the walk goes on past the first codepoint, the separator found
      for the rest of the text is the one for the whole text, one step
      further in. */
  lemma SeparatorBeforeCarries(step: Step, t: seq<byte>, s: WordWalk, next: WordWalk, m': nat, j': nat)
    returns (m: nat, j: nat)
    requires Advances(step) && ForwardState(s) && |t| > 0
    requires ForwardTurn(s, IsWordSeparator(step(t).codepoint)) == Go(next)
    requires var u := t[step(t).len..];
             var r' := WordsForward(step, u, next);
             && 0 < r' < |u|
             && m' == StepsForward(step, u, j')
             && m' + step(u[m'..]).len == r'
             && IsWordSeparator(step(u[m'..]).codepoint)
    ensures var r := WordsForward(step, t, s);
            0 < r < |t| ==>
              && m == StepsForward(step, t, j)
              && m + step(t[m..]).len == r
              && IsWordSeparator(step(t[m..]).codepoint)
  {
    var c := step(t);
    var u := t[c.len..];
    WordsForwardGo(step, t, s, next);
    ForwardSeparatorCarries(step, t, u, m', j');
    m, j := c.len + m', j' + 1;
  }

  /** One step of the forward walk that goes on past the first codepoint. */
  lemma WordsForwardGo(step: Step, t: seq<byte>, s: WordWalk, next: WordWalk)
    requires Advances(step) && ForwardState(s) && |t| > 0
    requires ForwardTurn(s, IsWordSeparator(step(t).codepoint)) == Go(next)
    ensures WordsForward(step, t, s) == step(t).len + WordsForward(step, t[step(t).len..], next)
  {
  }

  /** A forward walk that steps over the first codepoint and stops right
      after it, inside the text, has just stepped over a separator. */
  lemma ForwardStopRightAfterSeparator(step: Step, t: seq<byte>, s: WordWalk)
    requires Advances(step) && ForwardState(s) && |t| > 0
    requires var c := step(t);
             var turn := ForwardTurn(s, IsWordSeparator(c.codepoint));
             && turn.Go?
             && c.len < |t|
             && WordsForward(step, t[c.len..], turn.next) == 0
    ensures IsWordSeparator(step(t).codepoint)
  {
    var c := step(t);
    var turn := ForwardTurn(s, IsWordSeparator(c.codepoint));
    WordsForwardStopsOnWord(step, t[c.len..], turn.next);
    ForwardTurnStops(s, IsWordSeparator(c.codepoint));
  }

  /** A position `j` forward steps into the text after the first codepoint
      is `j + 1` steps into the whole text, and the text after it is the
      same in both. */
  lemma ForwardSeparatorCarries(step: Step, t: seq<byte>, u: seq<byte>, m: nat, j: nat)
    requires Advances(step) && |t| > 0 && u == t[step(t).len..]
    requires m == StepsForward(step, u, j) && m < |u|
    ensures step(t).len + m == StepsForward(step, t, j + 1)
    ensures step(t[step(t).len + m..]) == step(u[m..])
  {
    assert t[step(t).len + m..] == u[m..];
  }

  /** Where the backward word walk stops after the start of the text, the
      codepoint in front of it is a separator; and it moves at least one
      codepoint when it starts among separators. */
  lemma {:induction false} WordsBackwardStopsAfterSeparator(step: Step, t: seq<byte>, s: WordWalk)
    requires Advances(step) && s.count > 0
    ensures var q := |t| - WordsBackward(step, t, s);
            && (0 < q ==> IsWordSeparator(step(t[..q]).codepoint))
            && (q == |t| > 0 ==> !s.skipping)
    decreases |t|
  {
    if |t| > 0 {
      var c := step(t);
      var turn := BackwardTurn(s, IsWordSeparator(c.codepoint));
      BackwardTurnStops(s, IsWordSeparator(c.codepoint));
      if turn.Go? {
        var u := t[..|t| - c.len];
        WordsBackwardStopsAfterSeparator(step, u, turn.next);
        var q := |u| - WordsBackward(step, u, turn.next);
        assert t[..q] == u[..q];
      } else {
        assert t[..|t|] == t;
      }
    }
  }

  /** A backward walk that steps over the last codepoint and stops right
      after it, inside the text, has just stepped over a word codepoint. */
  lemma BackwardStopRightAfterWord(step: Step, t: seq<byte>, s: WordWalk)
    requires Advances(step) && s.count > 0 && |t| > 0
    requires var c := step(t);
             var turn := BackwardTurn(s, IsWordSeparator(c.codepoint));
             && turn.Go?
             && 0 < |t| - c.len
             && WordsBackward(step, t[..|t| - c.len], turn.next) == 0
    ensures !IsWordSeparator(step(t).codepoint)
  {
    var c := step(t);
    var turn := BackwardTurn(s, IsWordSeparator(c.codepoint));
    WordsBackwardStopsAfterSeparator(step, t[..|t| - c.len], turn.next);
    BackwardTurnStops(s, IsWordSeparator(c.codepoint));
  }

  /** Where the backward word walk stops inside the text after moving, the
      codepoint just passed was a word codepoint: it ends at `m`, which is
      itself `j` backward steps from the end. */
  lemma {:induction false} WordsBackwardWordAfter(step: Step, t: seq<byte>, s: WordWalk)
    returns (m: nat, j: nat)
    requires Advances(step) && s.count > 0
    ensures var q := |t| - WordsBackward(step, t, s);
            0 < q < |t| ==>
              && m == |t| - StepsBackward(step, t, j)
              && m - step(t[..m]).len == q
              && !IsWordSeparator(step(t[..m]).codepoint)
    decreases |t|
  {
    m, j := |t|, 0;
    assert StepsBackward(step, t, 0) == 0;
    if |t| > 0 {
      var c := step(t);
      var turn := BackwardTurn(s, IsWordSeparator(c.codepoint));
      if turn.Go? {
        var u := t[..|t| - c.len];
        var m', j' := WordsBackwardWordAfter(step, u, turn.next);
        m, j := WordAfterStep(step, t, s, u, turn.next, m', j');
      }
    }
  }

  /** The step case of `WordsBackwardWordAfter`: from the result for the
      text before the last codepoint to the result for the whole text. */
  lemma WordAfterStep(step: Step, t: seq<byte>, s: WordWalk, u: seq<byte>, next: WordWalk, m': nat, j': nat)
    returns (m: nat, j: nat)
    requires Advances(step) && s.count > 0 && |t| > 0 && u == t[..|t| - step(t).len]
    requires BackwardTurn(s, IsWordSeparator(step(t).codepoint)) == Go(next)
    requires var q := |u| - WordsBackward(step, u, next);
             0 < q < |u| ==>
               && m' == |u| - StepsBackward(step, u, j')
               && m' - step(u[..m']).len == q
               && !IsWordSeparator(step(u[..m']).codepoint)
    ensures var q := |t| - WordsBackward(step, t, s);
            0 < q < |t| ==>
              && m == |t| - StepsBackward(step, t, j)
              && m - step(t[..m]).len == q
              && !IsWordSeparator(step(t[..m]).codepoint)
  {
    m, j := |t|, 0;
    assert StepsBackward(step, t, 0) == 0;
    var q := |u| - WordsBackward(step, u, next);
    assert WordsBackward(step, t, s) == step(t).len + WordsBackward(step, u, next);
    if 0 < q == |u| {
      BackwardStopRightAfterWord(step, t, s);
      assert t[..|t|] == t;
    } else if 0 < q {
      BackwardWordAfterCarries(step, t, u, m', j');
      m, j := m', j' + 1;
    }
  }

  /** A position `j` backward steps from the end of the text before the
      last codepoint is `j + 1` steps from the end of the whole text, and
      the text before it is the same in both. */
  lemma BackwardWordAfterCarries(step: Step, t: seq<byte>, u: seq<byte>, m: nat, j: nat)
    requires Advances(step) && |t| > 0 && u == t[..|t| - step(t).len]
    requires m == |u| - StepsBackward(step, u, j)
    ensures m == |t| - StepsBackward(step, t, j + 1)
    ensures step(t[..m]) == step(u[..m])
  {
    assert t[..m] == u[..m];
  }

  /** One turn of the forward word loop over an ASCII byte, which
      `utf8_consume` reads as a one-byte codepoint: given the bytes the loop
      moves over after it, the bytes it moves from it. */
  lemma AsciiWordStep(text: seq<byte>, k: nat, s: WordWalk, rest: nat)
    requires k < |text| && text[k] < 0x80 && ForwardState(s)
    requires Advances(Consume)
    requires var m := ForwardTurn(s, IsWordSeparator(text[k]));
             m.Go? ==> WordsForward(Consume, text[k + 1..], m.next) == rest
    ensures var m := ForwardTurn(s, IsWordSeparator(text[k]));
            WordsForward(Consume, text[k..], s) == if m.Stop? then 0 else 1 + rest
  {
    assert text[k..][0] == text[k];
    assert text[k..][1..] == text[k + 1..];
  }

  /** The word-move example `"Ab   Cd   Ef"`: one word forward from offset 2
      skips the spaces, passes `"Cd"` and the spaces after it, and stops in
      front of `"E"` at offset 10. */
  lemma MoveByWordsExample()
    ensures MoveByWords([0x41, 0x62, 0x20, 0x20, 0x20, 0x43, 0x64, 0x20, 0x20, 0x20, 0x45, 0x66], 2, 1) == 10
  {
    MoveOverSpacedWord([0x41, 0x62, 0x20, 0x20, 0x20, 0x43, 0x64, 0x20, 0x20, 0x20, 0x45, 0x66]);
  }

  /** The walk of the example over any text with the same bytes from
      offset 2 to offset 10. */
  lemma MoveOverSpacedWord(t: seq<byte>)
    requires |t| == 12 && t[2] == t[3] == t[4] == t[7] == t[8] == t[9] == 0x20
    requires t[5] == 0x43 && t[6] == 0x64 && t[10] == 0x45
    ensures MoveByWords(t, 2, 1) == 10
  {
    DecodersAdvance();
    SpacesBeforeWord(t);
    WordThenSpaces(t);
    SpacesBeforeWords(t);
  }

  /** From offset 8 with no words left, the walk passes the two spaces and
      stops in front of `"E"`. */
  lemma SpacesBeforeWord(t: seq<byte>)
    requires |t| == 12 && t[8] == t[9] == 0x20 && t[10] == 0x45
    requires Advances(Consume)
    ensures WordsForward(Consume, t[8..], WordWalk(0, true)) == 2
  {
    AsciiWordStep(t, 10, WordWalk(0, true), 0);
    AsciiWordStep(t, 9, WordWalk(0, true), 0);
    AsciiWordStep(t, 8, WordWalk(0, true), 1);
  }

  /** From offset 5 with one word left, the walk passes `"Cd"` and one space,
      and then goes on as from offset 8 with no words left. */
  lemma WordThenSpaces(t: seq<byte>)
    requires |t| == 12 && t[5] == 0x43 && t[6] == 0x64 && t[7] == 0x20
    requires Advances(Consume)
    requires WordsForward(Consume, t[8..], WordWalk(0, true)) == 2
    ensures WordsForward(Consume, t[5..], WordWalk(1, true)) == 5
  {
    AsciiWordStep(t, 7, WordWalk(1, false), 2);
    AsciiWordStep(t, 6, WordWalk(1, false), 3);
    AsciiWordStep(t, 5, WordWalk(1, true), 4);
  }

  /** From offset 2 the walk skips the three leading spaces and goes on as
      from offset 5; the move is that walk. */
  lemma SpacesBeforeWords(t: seq<byte>)
    requires |t| == 12 && t[2] == t[3] == t[4] == 0x20
    requires Advances(Consume)
    requires WordsForward(Consume, t[5..], WordWalk(1, true)) == 5
    ensures MoveByWords(t, 2, 1) == 10
  {
    AsciiWordStep(t, 4, WordWalk(1, true), 5);
    AsciiWordStep(t, 3, WordWalk(1, true), 6);
    AsciiWordStep(t, 2, WordWalk(1, true), 7);
  }

  /** Moving forward by words from a boundary of well-formed text lands on
      a boundary. */
  lemma MoveForwardByWordsLands(text: seq<byte>, pos: int, moveBy: int)
    requires WellFormed(text) && Boundary(text, pos) && moveBy > 0
    ensures Boundary(text, MoveByWords(text, pos, moveBy))
  {
    var k := WordsForwardAsCodepoints(text, pos, moveBy);
    ForwardCodepointsOnBoundary(text, pos, k);
  }

  /** A forward word move is a forward codepoint move of some count. */
  lemma WordsForwardAsCodepoints(text: seq<byte>, pos: nat, moveBy: int) returns (k: nat)
    requires pos <= |text| && moveBy > 0
    ensures MoveByWords(text, pos, moveBy) == pos + ForwardCodepoints(text[pos..], k)
  {
    DecodersAdvance();
    k := WordsForwardBySteps(Consume, text[pos..], WordWalk(moveBy, true));
  }

  /** Moving back by words from a boundary of well-formed text lands on a
      boundary. */
  lemma MoveBackByWordsLands(text: seq<byte>, pos: int, moveBy: int)
    requires WellFormed(text) && Boundary(text, pos) && moveBy < 0
    ensures Boundary(text, MoveByWords(text, pos, moveBy))
  {
    DecodersAdvance();
    var k := WordsBackwardBySteps(ConsumeReverse, text[..pos], WordWalk(-moveBy, true));
    BackwardCodepointsOnBoundary(text, pos, k);
  }

  /** On well-formed text, moving by words from a boundary (or from a
      position that gets clamped) ends on a boundary. */
  lemma MoveByWordsOnBoundary(text: seq<byte>, pos: int, moveBy: int)
    requires WellFormed(text)
    requires 0 <= pos <= |text| ==> Boundary(text, pos)
    ensures Boundary(text, MoveByWords(text, pos, moveBy))
  {
    if 0 <= pos <= |text| && moveBy > 0 {
      MoveForwardByWordsLands(text, pos, moveBy);
    } else if 0 <= pos <= |text| && moveBy < 0 {
      MoveBackByWordsLands(text, pos, moveBy);
    } else {
      EndsAreBoundaries(text);
    }
  }

  /** On well-formed text the backward decoder undoes a forward step from
      a boundary. */
  lemma BackUndoesForward(w: seq<byte>)
    requires WellFormed(w)
    ensures forall q: nat {:trigger Consume(w[q..])} :: q < |w| && Boundary(w, q) ==>
              ConsumeReverse(w[..q + Consume(w[q..]).len]) == Consume(w[q..])
  {
    forall q: nat | q < |w| && Boundary(w, q)
      ensures ConsumeReverse(w[..q + Consume(w[q..]).len]) == Consume(w[q..])
    {
      BackAfterForward(w, q);
    }
  }

  /** The forward decoder undoes a backward step to a boundary. */
  lemma ForwardUndoesBack(w: seq<byte>)
    ensures forall q: nat {:trigger ConsumeReverse(w[..q])} :: 0 < q <= |w| && Boundary(w, q) ==>
              Consume(w[q - ConsumeReverse(w[..q]).len..]) == ConsumeReverse(w[..q])
  {
    forall q: nat | 0 < q <= |w| && Boundary(w, q)
      ensures Consume(w[q - ConsumeReverse(w[..q]).len..]) == ConsumeReverse(w[..q])
    {
      BackwardStepOnWellFormed(w, q);
    }
  }

  /** Where the forward word walk stops inside the text, having moved: in
      front of a word codepoint. */
  lemma ForwardWordsStopOnWord(fwd: Step, text: seq<byte>, pos: nat, moveBy: nat)
    requires Advances(fwd) && pos <= |text| && moveBy > 0
    ensures var n := WordsForward(fwd, text[pos..], WordWalk(moveBy, true));
            pos + n < |text| ==> 0 < n && !IsWordSeparator(fwd(text[pos + n..]).codepoint)
  {
    var t := text[pos..];
    var n := WordsForward(fwd, t, WordWalk(moveBy, true));
    WordsForwardStopsOnWord(fwd, t, WordWalk(moveBy, true));
    if pos + n < |text| {
      assert t[n..] == text[pos + n..];
    }
  }

  /** Where the forward word walk from a good position stops inside the
      text, having moved: right after a separator as the backward decoder
      reads it, when the good positions are closed under forward steps and
      the backward decoder undoes a forward step from them. */
  lemma ForwardWordsStopAfterSeparator(fwd: Step, back: Step, good: nat -> bool, text: seq<byte>, pos: nat, moveBy: nat)
    requires Advances(fwd) && pos <= |text| && good(pos) && moveBy > 0
    requires forall q: nat {:trigger fwd(text[q..])} :: q < |text| && good(q) ==> good(q + fwd(text[q..]).len)
    requires forall q: nat {:trigger fwd(text[q..])} :: q < |text| && good(q) ==>
               back(text[..q + fwd(text[q..]).len]) == fwd(text[q..])
    ensures var n := WordsForward(fwd, text[pos..], WordWalk(moveBy, true));
            0 < n && pos + n < |text| ==> IsWordSeparator(back(text[..pos + n]).codepoint)
  {
    var t := text[pos..];
    var n := WordsForward(fwd, t, WordWalk(moveBy, true));
    var m, j := WordsForwardSeparatorBefore(fwd, t, WordWalk(moveBy, true));
    if 0 < n && pos + n < |text| {
      StepsForwardClosed(fwd, text, good, pos, j);
      assert t[m..] == text[pos + m..];
      assert back(text[..pos + n]) == fwd(text[pos + m..]);
    }
  }

  /** Where the backward word walk stops after the start of the text: right
      after a separator, having moved. */
  lemma BackwardWordsStopAfterSeparator(back: Step, text: seq<byte>, pos: nat, moveBy: nat)
    requires Advances(back) && pos <= |text| && moveBy > 0
    ensures var q := pos - WordsBackward(back, text[..pos], WordWalk(moveBy, true));
            0 < q ==> q < pos && IsWordSeparator(back(text[..q]).codepoint)
  {
    var t := text[..pos];
    var q := pos - WordsBackward(back, t, WordWalk(moveBy, true));
    WordsBackwardStopsAfterSeparator(back, t, WordWalk(moveBy, true));
    if 0 < q {
      assert t[..q] == text[..q];
    }
  }

  /** Where the backward word walk from a good position stops after the
      start of the text: in front of a word codepoint as the forward decoder
      reads it, when the good positions are closed under backward steps and
      the forward decoder undoes a backward step to them. */
  lemma BackwardWordsStopOnWord(fwd: Step, back: Step, good: nat -> bool, text: seq<byte>, pos: nat, moveBy: nat)
    requires Advances(back) && pos <= |text| && good(pos) && moveBy > 0
    requires forall q: nat {:trigger back(text[..q])} :: 0 < q <= |text| && good(q) ==> good(q - back(text[..q]).len)
    requires forall q: nat {:trigger back(text[..q])} :: 0 < q <= |text| && good(q) ==>
               fwd(text[q - back(text[..q]).len..]) == back(text[..q])
    ensures var q := pos - WordsBackward(back, text[..pos], WordWalk(moveBy, true));
            0 < q < pos ==> !IsWordSeparator(fwd(text[q..]).codepoint)
  {
    var t := text[..pos];
    var q := pos - WordsBackward(back, t, WordWalk(moveBy, true));
    var m, j := WordsBackwardWordAfter(back, t, WordWalk(moveBy, true));
    if 0 < q < pos {
      StepsBackwardClosed(back, text, good, pos, j);
      assert t[..m] == text[..m];
    }
  }

  /** On well-formed text, `utf8_consume`, `utf8_consume_reverse` and the
      codepoint boundaries meet the premises of the forward stop lemma. */
  lemma ForwardPremises(fwd: Step, back: Step, good: nat -> bool, text: seq<byte>)
    requires WellFormed(text) && fwd == Consume && back == ConsumeReverse
    requires forall q: nat :: good(q) == Boundary(text, q)
    ensures Advances(fwd)
    ensures forall q: nat {:trigger fwd(text[q..])} :: q < |text| && good(q) ==> good(q + fwd(text[q..]).len)
    ensures forall q: nat {:trigger fwd(text[q..])} :: q < |text| && good(q) ==>
              back(text[..q + fwd(text[q..]).len]) == fwd(text[q..])
  {
    DecodersAdvance();
    BoundariesClosedForward(text);
    BackUndoesForward(text);
    ForwardPremisesAsSteps(fwd, back, good, text);
  }

  /** The UTF-8 facts behind `ForwardPremises`, read with step parameters. */
  lemma ForwardPremisesAsSteps(fwd: Step, back: Step, good: nat -> bool, text: seq<byte>)
    requires fwd == Consume && back == ConsumeReverse
    requires forall q: nat :: good(q) == Boundary(text, q)
    requires forall q: nat {:trigger Consume(text[q..])} :: q < |text| && Boundary(text, q) ==>
               Boundary(text, q + Consume(text[q..]).len)
    requires forall q: nat {:trigger Consume(text[q..])} :: q < |text| && Boundary(text, q) ==>
               ConsumeReverse(text[..q + Consume(text[q..]).len]) == Consume(text[q..])
    ensures forall q: nat {:trigger fwd(text[q..])} :: q < |text| && good(q) ==> good(q + fwd(text[q..]).len)
    ensures forall q: nat {:trigger fwd(text[q..])} :: q < |text| && good(q) ==>
              back(text[..q + fwd(text[q..]).len]) == fwd(text[q..])
  {
    forall q: nat | q < |text| && good(q)
      ensures good(q + fwd(text[q..]).len)
      ensures back(text[..q + fwd(text[q..]).len]) == fwd(text[q..])
    {
      var e := q + Consume(text[q..]).len;
      assert Boundary(text, e);
      assert ConsumeReverse(text[..e]) == Consume(text[q..]);
    }
  }

  /** The same for the backward stop lemma. */
  lemma BackwardPremises(fwd: Step, back: Step, good: nat -> bool, text: seq<byte>)
    requires WellFormed(text) && fwd == Consume && back == ConsumeReverse
    requires forall q: nat :: good(q) == Boundary(text, q)
    ensures Advances(back)
    ensures forall q: nat {:trigger back(text[..q])} :: 0 < q <= |text| && good(q) ==> good(q - back(text[..q]).len)
    ensures forall q: nat {:trigger back(text[..q])} :: 0 < q <= |text| && good(q) ==>
              fwd(text[q - back(text[..q]).len..]) == back(text[..q])
  {
    DecodersAdvance();
    BoundariesClosedBackward(text);
    ForwardUndoesBack(text);
  }

  /** On well-formed text, a forward word move from a boundary that ends
      inside the text, having moved, ends right after a separator: the
      codepoint `utf8_consume_reverse` reads before the new position
      separates words. */
  lemma MoveForwardStopsAfterSeparator(text: seq<byte>, pos: int, moveBy: int)
    requires WellFormed(text) && Boundary(text, pos) && moveBy > 0
    ensures var r := MoveByWords(text, pos, moveBy);
            pos < r < |text| ==> IsWordSeparator(ConsumeReverse(text[..r]).codepoint)
  {
    ForwardWordsStopAfterUtf8Separator(text, pos, moveBy);
    assert MoveByWords(text, pos, moveBy) == pos + ForwardWords(text[pos..], moveBy);
  }

  /** The forward word loop with `utf8_consume` from a boundary stops, when
      it moved and did not reach the end, right after a separator that
      `utf8_consume_reverse` reads. */
  lemma ForwardWordsStopAfterUtf8Separator(text: seq<byte>, pos: nat, moveBy: nat)
    requires WellFormed(text) && Boundary(text, pos) && moveBy > 0
    ensures var n := ForwardWords(text[pos..], moveBy);
            0 < n && pos + n < |text| ==> IsWordSeparator(ConsumeReverse(text[..pos + n]).codepoint)
  {
    var fwd: Step, back: Step := Consume, ConsumeReverse;
    Utf8ForwardStop(fwd, back, text, pos, moveBy);
    ForwardStopAsUtf8(fwd, back, text, pos, moveBy);
  }

  /** The conclusion of the forward stop lemma, read with the UTF-8
      decoders in place of the step parameters. */
  lemma ForwardStopAsUtf8(fwd: Step, back: Step, text: seq<byte>, pos: nat, moveBy: nat)
    requires fwd == Consume && back == ConsumeReverse && Advances(fwd) && pos <= |text| && moveBy > 0
    requires EndsAfterSeparator(back, text, pos, WordsForward(fwd, text[pos..], WordWalk(moveBy, true)))
    ensures EndsAfterSeparator(ConsumeReverse, text, pos, ForwardWords(text[pos..], moveBy))
  {
  }

  /** A move of `n` bytes from `pos` that went somewhere and stopped
      inside `text` stopped right after a separator, as `back` reads the
      codepoint before the stop. */
  predicate EndsAfterSeparator(back: Step, text: seq<byte>, pos: nat, n: nat)
  {
    0 < n && pos + n < |text| ==> IsWordSeparator(back(text[..pos + n]).codepoint)
  }

  /** `ForwardWordsStopAfterSeparator` for the UTF-8 decoders and the
      codepoint boundaries. */
  lemma Utf8ForwardStop(fwd: Step, back: Step, text: seq<byte>, pos: nat, moveBy: nat)
    requires WellFormed(text) && Boundary(text, pos) && moveBy > 0
    requires fwd == Consume && back == ConsumeReverse
    ensures Advances(fwd)
    ensures var n := WordsForward(fwd, text[pos..], WordWalk(moveBy, true));
            0 < n && pos + n < |text| ==> IsWordSeparator(back(text[..pos + n]).codepoint)
  {
    var good := (q: nat) => Boundary(text, q);
    ForwardPremises(fwd, back, good, text);
    ForwardWordsStopAfterSeparator(fwd, back, good, text, pos, moveBy);
  }

  /** On well-formed text, a backward word move from a boundary that ends
      after the start, having moved, ends in front of a word codepoint as
      `utf8_consume` reads it. */
  lemma MoveBackStopsOnWord(text: seq<byte>, pos: int, moveBy: int)
    requires WellFormed(text) && Boundary(text, pos) && moveBy < 0
    ensures var r := MoveByWords(text, pos, moveBy);
            0 < r < pos ==> !IsWordSeparator(Consume(text[r..]).codepoint)
  {
    var count: nat := -moveBy;
    BackwardWordsStopOnUtf8Word(text, pos, count);
    BackStopAsMove(text, pos, moveBy, count);
  }

  /** The conclusion of `BackwardWordsStopOnUtf8Word`, read as a move. */
  lemma BackStopAsMove(text: seq<byte>, pos: nat, moveBy: int, count: nat)
    requires pos <= |text| && moveBy < 0 && count == -moveBy
    requires EndsOnWord(Consume, text, pos, BackwardWords(text[..pos], count))
    ensures var r := MoveByWords(text, pos, moveBy);
            0 < r < pos ==> !IsWordSeparator(Consume(text[r..]).codepoint)
  {
    assert MoveByWords(text, pos, moveBy) == pos - BackwardWords(text[..pos], -moveBy);
  }

  /** `BackwardWordsStopOnWord` for `BackwardWords`. */
  lemma BackwardWordsStopOnUtf8Word(text: seq<byte>, pos: nat, moveBy: nat)
    requires WellFormed(text) && Boundary(text, pos) && moveBy > 0
    ensures EndsOnWord(Consume, text, pos, BackwardWords(text[..pos], moveBy))
  {
    var fwd: Step, back: Step := Consume, ConsumeReverse;
    Utf8BackStop(fwd, back, text, pos, moveBy);
    BackStopAsUtf8(fwd, back, text, pos, moveBy);
  }

  /** The conclusion of the backward stop lemma, read with the UTF-8
      decoders in place of the step parameters. */
  lemma BackStopAsUtf8(fwd: Step, back: Step, text: seq<byte>, pos: nat, moveBy: nat)
    requires fwd == Consume && back == ConsumeReverse && Advances(back) && pos <= |text| && moveBy > 0
    requires EndsOnWord(fwd, text, pos, WordsBackward(back, text[..pos], WordWalk(moveBy, true)))
    ensures EndsOnWord(Consume, text, pos, BackwardWords(text[..pos], moveBy))
  {
  }

  /** A move of `n` bytes back from `pos` that went somewhere and stopped
      after the start of `text` stopped in front of a word codepoint, as
      `fwd` reads it. */
  predicate EndsOnWord(fwd: Step, text: seq<byte>, pos: nat, n: nat)
  {
    0 < n < pos <= |text| ==> !IsWordSeparator(fwd(text[pos - n..]).codepoint)
  }

  /** `BackwardWordsStopOnWord` for the UTF-8 decoders and the codepoint
      boundaries. */
  lemma Utf8BackStop(fwd: Step, back: Step, text: seq<byte>, pos: nat, moveBy: nat)
    requires WellFormed(text) && Boundary(text, pos) && moveBy > 0
    requires fwd == Consume && back == ConsumeReverse
    ensures Advances(back)
    ensures EndsOnWord(fwd, text, pos, WordsBackward(back, text[..pos], WordWalk(moveBy, true)))
  {
    var good := (q: nat) => Boundary(text, q);
    BackwardPremises(fwd, back, good, text);
    BackwardWordsStopOnWord(fwd, back, good, text, pos, moveBy);
  }
}
