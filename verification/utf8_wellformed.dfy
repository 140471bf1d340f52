/**
  Well-formed text in the decoder's own terms, and the codec's round trips.

  A byte string is well-formed when `utf8_consume` can walk it from start to
  end without ever falling back to the invalid codepoint.  Because the
  decoder is lenient this admits overlong forms and surrogates; it is the
  notion the text editor needs, since every editing and navigation step is
  built from these decoders.
 */
module Utf8WellFormed {
  import opened Utf8Strings

  /** `s` is a concatenation of sequences the forward decoder accepts. */
  predicate WellFormed(s: seq<byte>)
    decreases |s|
  {
    |s| == 0 || (Decodable(s) && WellFormed(s[Class(s[0])..]))
  }

  /** Offset `q` of `t` lies on a codepoint boundary: the text before it is well-formed. */
  predicate Boundary(t: seq<byte>, q: int)
  {
    0 <= q <= |t| && WellFormed(t[..q])
  }

  /** Both ends of well-formed text are boundaries. */
  lemma EndsAreBoundaries(t: seq<byte>)
    requires WellFormed(t)
    ensures Boundary(t, 0) && Boundary(t, |t|)
  {
    assert t[..|t|] == t;
  }

  // ---------------------------------------------------------------------
  // Round trips of the single-codepoint codec.
  // ---------------------------------------------------------------------

  /** Decoding what `utf8_write` produced gives back the codepoint and the
      written length, whatever bytes follow it. */
  lemma EncodeConsumeRoundTrip(cp: nat, rest: seq<byte>)
    requires cp <= MAX_CODEPOINT
    ensures Consume(Encode(cp) + rest) == Decoded(|Encode(cp)|, cp)
  {
    var e := Encode(cp);
    var s := e + rest;
    assert forall i :: 0 <= i < |e| ==> s[i] == e[i];
    if cp <= 0x7F {
    } else if cp <= 0x7FF {
      TwoByteDigits(cp);
    } else if cp <= 0xFFFF {
      ThreeByteDigits(cp);
    } else {
      FourByteDigits(cp);
    }
  }

  lemma TwoByteDigits(cp: nat)
    requires 0x7F < cp <= 0x7FF
    ensures var e := Encode(cp);
            (e[0] % 0x20) * 0x40 + Low6(e[1]) == cp
  {
    var e := Encode(cp);
    assert e[0] % 0x20 == cp / 0x40;
  }

  lemma ThreeByteDigits(cp: nat)
    requires 0x7FF < cp <= 0xFFFF
    ensures var e := Encode(cp);
            (e[0] % 0x10) * 0x1000 + Low6(e[1]) * 0x40 + Low6(e[2]) == cp
  {
    var e := Encode(cp);
    var d1 := cp / 0x40;
    assert cp / 0x1000 == d1 / 0x40;
    assert e[0] % 0x10 == d1 / 0x40;
    assert Low6(e[1]) == d1 % 0x40;
    assert Low6(e[2]) == cp % 0x40;
    assert d1 == (d1 / 0x40) * 0x40 + d1 % 0x40;
    assert cp == d1 * 0x40 + cp % 0x40;
  }

  lemma FourByteDigits(cp: nat)
    requires 0xFFFF < cp <= MAX_CODEPOINT
    ensures var e := Encode(cp);
            (e[0] % 0x8) * 0x4_0000 + Low6(e[1]) * 0x1000 + Low6(e[2]) * 0x40 + Low6(e[3]) == cp
  {
    var e := Encode(cp);
    var d1 := cp / 0x40;
    var d2 := d1 / 0x40;
    assert cp / 0x1000 == d2;
    assert cp / 0x4_0000 == d2 / 0x40;
    assert e[0] % 0x8 == d2 / 0x40;
    assert Low6(e[1]) == d2 % 0x40;
    assert Low6(e[2]) == d1 % 0x40;
    assert Low6(e[3]) == cp % 0x40;
    assert d2 == (d2 / 0x40) * 0x40 + d2 % 0x40;
    assert d1 == d2 * 0x40 + d1 % 0x40;
    assert cp == d1 * 0x40 + cp % 0x40;
  }

  /** An encoded codepoint is a well-formed string. */
  lemma EncodeWellFormed(cp: nat)
    requires cp <= MAX_CODEPOINT
    ensures WellFormed(Encode(cp))
  {
    var e := Encode(cp);
    assert Decodable(e);
    assert e[Class(e[0])..] == [];
  }

  /** Decoding backwards from the end of anything followed by an encoded
      codepoint also gives back the codepoint and its length. */
  lemma EncodeConsumeReverseRoundTrip(before: seq<byte>, cp: nat)
    requires cp <= MAX_CODEPOINT
    ensures ConsumeReverse(before + Encode(cp)) == Decoded(|Encode(cp)|, cp)
  {
    var e := Encode(cp);
    EncodeConsumeRoundTrip(cp, []);
    assert e + [] == e;
    EncodeWellFormed(cp);
    ReverseOfCompleteEnding(before + e, |e|);
    assert (before + e)[|before + e| - |e|..] == e;
  }

  // ---------------------------------------------------------------------
  // Structure of well-formed strings.
  // ---------------------------------------------------------------------

  /** Well-formed strings are closed under concatenation. */
  lemma {:induction false} ConcatWellFormed(a: seq<byte>, b: seq<byte>)
    requires WellFormed(a) && WellFormed(b)
    ensures WellFormed(a + b)
    decreases |a|
  {
    if |a| == 0 {
      assert a + b == b;
    } else {
      var c := Class(a[0]);
      DecodableExtends(a, b);
      assert (a + b)[c..] == a[c..] + b;
      ConcatWellFormed(a[c..], b);
    }
  }

  /** Appending bytes does not change what the decoder accepts at the start. */
  lemma DecodableExtends(a: seq<byte>, b: seq<byte>)
    requires Decodable(a)
    ensures Decodable(a + b) && Class((a + b)[0]) == Class(a[0])
  {
    var s := a + b;
    assert forall k :: 0 <= k < |a| ==> s[k] == a[k];
  }

  /** Removing a well-formed prefix from a well-formed string leaves a well-formed string. */
  lemma {:induction false} SuffixWellFormed(a: seq<byte>, b: seq<byte>)
    requires WellFormed(a) && WellFormed(a + b)
    ensures WellFormed(b)
    decreases |a|
  {
    if |a| == 0 {
      assert a + b == b;
    } else {
      var c := Class(a[0]);
      assert (a + b)[c..] == a[c..] + b;
      SuffixWellFormed(a[c..], b);
    }
  }

  /** The text after a boundary of a well-formed string is well-formed too. */
  lemma BoundarySuffix(t: seq<byte>, q: int)
    requires WellFormed(t) && Boundary(t, q)
    ensures WellFormed(t[q..])
  {
    assert t == t[..q] + t[q..];
    SuffixWellFormed(t[..q], t[q..]);
  }

  /** A non-empty well-formed string ends with one complete codepoint that
      starts `|s| - k` bytes before the end, after well-formed text. */
  lemma {:induction false} LastCodepoint(s: seq<byte>) returns (k: nat)
    requires WellFormed(s) && |s| > 0
    ensures k < |s| && WellFormed(s[..k])
    ensures Decodable(s[k..]) && Class(s[k]) == |s| - k
    decreases |s|
  {
    var c := Class(s[0]);
    if c == |s| {
      k := 0;
      assert s[..0] == [];
      assert s[0..] == s;
    } else {
      var j := LastCodepoint(s[c..]);
      k := c + j;
      assert s[c..][..j] == s[c..k];
      assert s[..k] == s[..c] + s[c..k];
      assert s[c..][j..] == s[k..];
      assert Decodable(s[..c]) && s[..c][c..] == [];
      ConcatWellFormed(s[..c], s[c..k]);
    }
  }

  /** Every offset of a well-formed string sits either on a boundary or
      strictly inside the codepoint that starts at the last boundary before it. */
  lemma {:induction false} SplitAt(w: seq<byte>, n: nat) returns (b: nat)
    requires WellFormed(w) && n <= |w|
    ensures b <= n && Boundary(w, b)
    ensures b < n ==> Decodable(w[b..]) && n < b + Class(w[b])
    decreases |w|
  {
    if n == 0 {
      b := 0;
      assert w[..0] == [];
    } else {
      var c := Class(w[0]);
      if n < c {
        b := 0;
        assert w[..0] == [];
        assert w[0..] == w;
      } else {
        var j := SplitAt(w[c..], n - c);
        b := c + j;
        assert w[c..][..j] == w[c..b];
        assert w[..b] == w[..c] + w[c..b];
        assert w[c..][j..] == w[b..];
        assert Decodable(w[..c]) && w[..c][c..] == [];
        ConcatWellFormed(w[..c], w[c..b]);
      }
    }
  }

  /** `utf8_consume_reverse` on a string that ends with one complete
      codepoint of length `len` decodes exactly that codepoint. */
  lemma ReverseOfCompleteEnding(s: seq<byte>, len: nat)
    requires 1 <= len <= |s|
    requires Decodable(s[|s| - len..]) && Class(s[|s| - len]) == len
    ensures ConsumeReverse(s) == Consume(s[|s| - len..])
    ensures ConsumeReverse(s).len == len && ConsumeReverse(s).codepoint != INVALID
  {
    var tail := s[|s| - len..];
    assert forall i :: |s| - len < i < |s| ==> s[i] == tail[i - (|s| - len)];
    assert forall i :: |s| - len < i < |s| ==> Class(s[i]) == 0;
    assert IsLeadOrAscii(s[|s| - len]);
    var length := ScanBack(s, 0);
    assert length == len;
  }

  /** On well-formed text the backward decoder reads the last codepoint,
      exactly as the forward decoder reads it from its first byte. */
  lemma ReverseOnWellFormed(s: seq<byte>)
    requires WellFormed(s) && |s| > 0
    ensures var r := ConsumeReverse(s);
            && r.codepoint != INVALID
            && Boundary(s, |s| - r.len)
            && r == Consume(s[|s| - r.len..])
  {
    var k := LastCodepoint(s);
    ReverseOfCompleteEnding(s, |s| - k);
  }

  /** Cutting at `i` and `j` and joining the pieces back. */
  lemma SliceJoin<T>(t: seq<T>, i: nat, j: nat)
    requires i <= j <= |t|
    ensures t[..j] == t[..i] + t[i..j]
    ensures t[i..][..j - i] == t[i..j]
    ensures t[i..] == t[i..j] + t[j..]
  {
  }

  /** The first sequence the decoder accepts is on its own a well-formed string. */
  lemma FirstCodepointWellFormed(u: seq<byte>)
    requires Decodable(u)
    ensures WellFormed(u[..Class(u[0])])
  {
    var c := Class(u[0]);
    var v := u[..c];
    assert forall k :: 0 <= k < c ==> v[k] == u[k];
    assert Decodable(v);
    assert v[c..] == [];
  }

  /** The bytes after the lead of an accepted sequence are continuation bytes. */
  lemma DecodableFollowers(u: seq<byte>)
    requires Decodable(u)
    ensures 1 <= Class(u[0]) <= |u|
    ensures forall i :: 1 <= i < Class(u[0]) ==> Class(u[i]) == 0
  {
  }

  /** From a boundary of well-formed text, the next codepoint is decodable
      and its class leads to the next boundary. */
  lemma NextBoundary(t: seq<byte>, q: int)
    requires WellFormed(t) && Boundary(t, q) && q < |t|
    ensures Decodable(t[q..]) && q + Class(t[q]) <= |t|
    ensures Boundary(t, q + Class(t[q]))
  {
    BoundarySuffix(t, q);
    HeadWellFormed(t[q..]);
    JoinAtBoundary(t, q, Class(t[q]));
  }

  /** A well-formed piece starting at a boundary extends the boundary. */
  lemma JoinAtBoundary(t: seq<byte>, q: nat, c: nat)
    requires q + c <= |t| && Boundary(t, q) && WellFormed(t[q..][..c])
    ensures Boundary(t, q + c)
  {
    assert t[q..][..c] == t[q..q + c];
    ConcatWellFormed(t[..q], t[q..q + c]);
    assert t[..q] + t[q..q + c] == t[..q + c];
  }

  /** Non-empty well-formed text starts with an accepted sequence that is
      well-formed on its own. */
  lemma HeadWellFormed(u: seq<byte>)
    requires WellFormed(u) && |u| > 0
    ensures Decodable(u) && Class(u[0]) <= |u| && WellFormed(u[..Class(u[0])])
  {
    DecodableFollowers(u);
    FirstCodepointWellFormed(u);
  }

  /** A forward step from a boundary of well-formed text decodes a whole
      codepoint and lands on the next boundary. */
  lemma ForwardStepOnWellFormed(t: seq<byte>, q: int)
    requires WellFormed(t) && Boundary(t, q) && q < |t|
    ensures var c := Consume(t[q..]);
            && c.codepoint != INVALID
            && Boundary(t, q + c.len)
  {
    NextBoundary(t, q);
    var u := t[q..];
    assert u[0] == t[q];
    assert Consume(u).len == Class(t[q]);
  }

  /** A backward step from a boundary of well-formed text lands on the
      previous boundary. */
  lemma PreviousBoundary(t: seq<byte>, q: int)
    requires Boundary(t, q) && q > 0
    ensures ConsumeReverse(t[..q]).len <= q
    ensures Boundary(t, q - ConsumeReverse(t[..q]).len)
  {
    var p := t[..q];
    var k := LastCodepoint(p);
    ReverseOfCompleteEnding(p, q - k);
    assert p[..k] == t[..k];
  }

  /** A backward step from a boundary of well-formed text decodes the whole
      codepoint before it and lands on the previous boundary. */
  lemma BackwardStepOnWellFormed(t: seq<byte>, q: int)
    requires Boundary(t, q) && q > 0
    ensures var c := ConsumeReverse(t[..q]);
            && c.codepoint != INVALID
            && c.len <= q
            && Boundary(t, q - c.len)
            && c == Consume(t[q - c.len..])
  {
    var p := t[..q];
    var k := LastCodepoint(p);
    ReverseOfCompleteEnding(p, q - k);
    assert p[..k] == t[..k];
    assert p[k..] == t[k..q];
    SliceJoin(t, k, q);
    ConsumePrefixAgrees(t[k..q], t[q..]);
  }

  /** The forward decoder only looks at the bytes of the sequence it accepts. */
  lemma ConsumePrefixAgrees(a: seq<byte>, rest: seq<byte>)
    requires Decodable(a) && Class(a[0]) == |a|
    ensures Consume(a + rest) == Consume(a)
  {
    var s := a + rest;
    assert forall i :: 0 <= i < |a| ==> s[i] == a[i];
  }

  /** The backward decoder ignores whatever precedes a well-formed tail. */
  lemma ReverseIgnoresPrefix(a: seq<byte>, b: seq<byte>)
    requires WellFormed(b) && |b| > 0
    ensures ConsumeReverse(a + b) == ConsumeReverse(b)
  {
    assert (a + b)[|a|..] == b;
    EndsWithSameReverse(a + b, b);
  }

  /** A string that ends with a non-empty well-formed string decodes the
      same backwards as that string. */
  lemma EndsWithSameReverse(s: seq<byte>, b: seq<byte>)
    requires WellFormed(b) && 0 < |b| <= |s| && s[|s| - |b|..] == b
    ensures ConsumeReverse(s) == ConsumeReverse(b)
  {
    var k := LastCodepoint(b);
    SameEndingSameReverse(s, b, |b| - k);
  }

  /** A string that ends with `b`, where `b` ends in a complete sequence of
      length `len`, decodes the same backwards as `b`. */
  lemma SameEndingSameReverse(s: seq<byte>, b: seq<byte>, len: nat)
    requires 1 <= len <= |b| <= |s| && s[|s| - |b|..] == b
    requires Decodable(b[|b| - len..]) && Class(b[|b| - len]) == len
    ensures ConsumeReverse(s) == ConsumeReverse(b)
  {
    assert s[|s| - len..] == b[|b| - len..];
    ReverseOfCompleteEnding(b, len);
    assert s[|s| - len] == b[|b| - len];
    ReverseOfCompleteEnding(s, len);
  }

  // ---------------------------------------------------------------------
  // Whole-string walks.
  // ---------------------------------------------------------------------

  /** Repeated `utf8_consume` with `str_skip`, as the forward test walk does. */
  function ForwardDecode(s: seq<byte>): (r: seq<Decoded>)
    ensures |r| <= |s|
    decreases |s|
  {
    if |s| == 0 then [] else [Consume(s)] + ForwardDecode(s[Consume(s).len..])
  }

  /** Repeated `utf8_consume_reverse` with `str_chop`, as the backward test walk does. */
  function BackwardDecode(s: seq<byte>): (r: seq<Decoded>)
    ensures |r| <= |s|
    decreases |s|
  {
    if |s| == 0 then []
    else [ConsumeReverse(s)] + BackwardDecode(s[..|s| - ConsumeReverse(s).len])
  }

  function Reverse<T>(xs: seq<T>): (r: seq<T>)
    ensures |r| == |xs|
    ensures forall i :: 0 <= i < |xs| ==> r[i] == xs[|xs| - 1 - i]
  {
    if |xs| == 0 then [] else Reverse(xs[1..]) + [xs[0]]
  }

  /** The forward walk over a concatenation whose first part is well-formed
      is the walk over the first part followed by the walk over the second. */
  lemma {:induction false} ForwardDecodeConcat(a: seq<byte>, b: seq<byte>)
    requires WellFormed(a)
    ensures ForwardDecode(a + b) == ForwardDecode(a) + ForwardDecode(b)
    decreases |a|
  {
    if |a| == 0 {
      assert a + b == b;
    } else {
      var c := Class(a[0]);
      assert a[..c] + a[c..] == a;
      ConsumePrefixAgrees(a[..c], a[c..] + b);
      ConsumePrefixAgrees(a[..c], a[c..]);
      assert a[..c] + (a[c..] + b) == a + b;
      assert (a + b)[c..] == a[c..] + b;
      ForwardDecodeConcat(a[c..], b);
    }
  }

  /** The backward walk over well-formed text starts with the last codepoint. */
  lemma BackwardDecodeLast(s: seq<byte>, k: nat)
    requires k < |s| && WellFormed(s[..k])
    requires Decodable(s[k..]) && Class(s[k]) == |s| - k
    ensures BackwardDecode(s) == [Consume(s[k..])] + BackwardDecode(s[..k])
  {
    ReverseOfCompleteEnding(s, |s| - k);
    var r := ConsumeReverse(s);
    assert |s| - r.len == k;
    assert BackwardDecode(s) == [r] + BackwardDecode(s[..|s| - r.len]);
  }

  /** The forward walk over well-formed text ends with the last codepoint. */
  lemma ForwardDecodeLast(s: seq<byte>, k: nat)
    requires k < |s| && WellFormed(s[..k])
    requires Decodable(s[k..]) && Class(s[k]) == |s| - k
    ensures ForwardDecode(s) == ForwardDecode(s[..k]) + [Consume(s[k..])]
  {
    var head, last := s[..k], s[k..];
    assert s == head + last;
    ForwardDecodeConcat(head, last);
    assert last[Class(last[0])..] == [];
  }

  lemma ReverseSnoc<T>(xs: seq<T>, x: T)
    ensures Reverse(xs + [x]) == [x] + Reverse(xs)
  {
  }

  /** On well-formed text the backward walk reads exactly the steps of the
      forward walk, in reverse order. */
  lemma {:induction false} BackwardDecodeIsReversedForward(s: seq<byte>)
    requires WellFormed(s)
    ensures BackwardDecode(s) == Reverse(ForwardDecode(s))
    decreases |s|
  {
    if |s| > 0 {
      var k := LastCodepoint(s);
      BackwardDecodeLast(s, k);
      ForwardDecodeLast(s, k);
      BackwardDecodeIsReversedForward(s[..k]);
      ReverseSnoc(ForwardDecode(s[..k]), Consume(s[k..]));
    }
  }

  /** Two boundaries of a string are at least one whole codepoint apart. */
  lemma BoundaryGap(w: seq<byte>, b: nat, m: nat)
    requires Boundary(w, b) && Boundary(w, m) && b < m
    ensures Decodable(w[b..]) && b + Class(w[b]) <= m
  {
    var u := w[..m];
    assert u[..b] == w[..b];
    NextBoundary(u, b);
    assert u[b..] + w[m..] == w[b..];
    DecodableExtends(u[b..], w[m..]);
  }

  /** The first accepted sequence on its own is still accepted. */
  lemma DecodablePrefix(u: seq<byte>)
    requires Decodable(u)
    ensures var v := u[..Class(u[0])];
            Decodable(v) && Class(v[0]) == |v|
  {
  }

  /** The forward decoder reads the same codepoint from a string as from
      its first accepted sequence alone. */
  lemma ConsumeFirstSequence(u: seq<byte>)
    requires Decodable(u)
    ensures Consume(u) == Consume(u[..Class(u[0])])
  {
    var c := Class(u[0]);
    DecodablePrefix(u);
    assert u[..c] + u[c..] == u;
    ConsumePrefixAgrees(u[..c], u[c..]);
  }

  /** The backward decoder at the end of an accepted sequence reads it. */
  lemma ReverseAtSequenceEnd(t: seq<byte>, p: nat)
    requires p < |t| && Decodable(t[p..])
    ensures var c := Class(t[p]);
            && p + c <= |t|
            && ConsumeReverse(t[..p + c]) == Consume(t[p..][..c])
  {
    var c := Class(t[p]);
    var u := t[..p + c];
    DecodablePrefix(t[p..]);
    assert u[p..] == t[p..][..c];
    ReverseOfCompleteEnding(u, c);
  }

  /** A backward step right after a forward step from a boundary of
      well-formed text goes back exactly over the codepoint just read. */
  lemma BackAfterForward(t: seq<byte>, p: nat)
    requires WellFormed(t) && Boundary(t, p) && p < |t|
    ensures var c := Consume(t[p..]);
            && p + c.len <= |t|
            && ConsumeReverse(t[..p + c.len]) == c
  {
    NextBoundary(t, p);
    ReverseAtSequenceEnd(t, p);
    var c, u := Class(t[p]), t[p..];
    assert u[0] == t[p];
    ReverseReadsFirstSequence(t[..p + c], u);
    assert Consume(u).len == c;
  }

  /** When the backward decode of `w` reads the first accepted sequence of
      `u`, it reads what the forward decode of `u` reads. */
  lemma ReverseReadsFirstSequence(w: seq<byte>, u: seq<byte>)
    requires Decodable(u) && ConsumeReverse(w) == Consume(u[..Class(u[0])])
    ensures Consume(u).len == Class(u[0]) && ConsumeReverse(w) == Consume(u)
  {
    ConsumeFirstSequence(u);
  }
}
