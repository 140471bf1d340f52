/**
  Byte strings and the single-codepoint UTF-8 codec of `utf8_strings.h`.

  A `String` of the source is a pointer plus a 64-bit size; here it is a
  `seq<byte>`, so the size is `|s|`.  The slicing helpers never fail: they
  clamp their arguments.  The decoder is lenient: it accepts every lead byte
  of class 2, 3 or 4 followed by the right number of continuation bytes and
  does not reject overlong forms or surrogates.
 */
module Utf8Strings {

  /** An unsigned 8-bit value, the `u8` of the source. */
  type byte = x: int | 0 <= x < 0x100

  /** `~0u`: the codepoint the decoders report for bytes they cannot decode. */
  const INVALID: nat := 0xFFFF_FFFF

  /** The largest Unicode scalar value. */
  const MAX_CODEPOINT: nat := 0x10_FFFF

  function Min(a: int, b: int): int { if a > b then b else a }
  function Max(a: int, b: int): int { if a > b then a else b }

  // ---------------------------------------------------------------------
  // Slicing.  Every helper clamps instead of failing.
  // ---------------------------------------------------------------------

  /** `str_prefix`: the first `size` bytes, or all of them when there are fewer. */
  function Prefix(t: seq<byte>, size: nat): (r: seq<byte>)
    ensures |r| == Min(size, |t|)
    ensures forall k :: 0 <= k < |r| ==> r[k] == t[k]
  {
    t[..Min(size, |t|)]
  }

  /** `str_postfix`: the last `size` bytes, or all of them when there are fewer. */
  function Postfix(t: seq<byte>, size: nat): (r: seq<byte>)
    ensures |r| == Min(size, |t|)
    ensures forall k :: 0 <= k < |r| ==> r[k] == t[|t| - |r| + k]
  {
    var size := Min(|t|, size);
    t[|t| - size..]
  }

  /** `str_skip`: drop the first `distance` bytes, or everything when there are fewer. */
  function Skip(t: seq<byte>, distance: nat): (r: seq<byte>)
    ensures |r| == |t| - Min(distance, |t|)
    ensures forall k :: 0 <= k < |r| ==> r[k] == t[Min(distance, |t|) + k]
  {
    t[Min(distance, |t|)..]
  }

  /** `str_chop`: drop the last `distance` bytes, or everything when there are fewer. */
  function Chop(t: seq<byte>, distance: nat): (r: seq<byte>)
    ensures distance > |t| ==> r == []
    ensures distance <= |t| ==> |r| == |t| - distance
    ensures forall k :: 0 <= k < |r| ==> r[k] == t[k]
  {
    if distance > |t| then t[..0] else t[..|t| - distance]
  }

  /** `str_substr`: at most `length` bytes starting `distance` bytes in. */
  function Substr(t: seq<byte>, distance: nat, length: nat): (r: seq<byte>)
    ensures var from := Min(distance, |t|);
            r == t[from..from + Min(length, |t| - from)]
  {
    var rest := Skip(t, distance);
    Prefix(rest, length)
  }

  /** A prefix and the matching skip put the string back together. */
  lemma PrefixSkipSplit(t: seq<byte>, n: nat)
    ensures Prefix(t, n) + Skip(t, n) == t
  {
    assert Prefix(t, n) == t[..Min(n, |t|)];
  }

  /** A chop and the matching postfix put the string back together. */
  lemma ChopPostfixSplit(t: seq<byte>, n: nat)
    requires n <= |t|
    ensures Chop(t, n) + Postfix(t, n) == t
  {
    assert Chop(t, n) == t[..|t| - n];
  }

  // ---------------------------------------------------------------------
  // Character classes.
  // ---------------------------------------------------------------------

  /** `is_whitespace`.  The range starts at 0x08 (backspace), although the
      source's comment lists only tab through carriage return and space. */
  predicate IsWhitespace(c: nat): (r: bool)
    ensures r <==> c in {0x08, 0x09, 0x0A, 0x0B, 0x0C, 0x0D, 0x20}
  {
    c == 0x20 || (0x08 <= c && c <= 0x0D)
  }

  /** `utf8_top5b_class`: the length of the sequence a byte starts, indexed by
      its top five bits; 0 marks a continuation byte and 5 an invalid lead. */
  const TOP5_CLASS: seq<nat> :=
    [1, 1, 1, 1, 1, 1, 1, 1, 1, 1, 1, 1, 1, 1, 1, 1,
     0, 0, 0, 0, 0, 0, 0, 0, 2, 2, 2, 2, 3, 3, 4, 5]

  /** The class of a byte: the length of the sequence it leads. */
  function Class(b: byte): (c: nat)
    ensures c <= 5
    ensures c == 0 <==> !IsLeadOrAscii(b)
  {
    if b < 0x80 then 1
    else if b < 0xC0 then 0
    else if b < 0xE0 then 2
    else if b < 0xF0 then 3
    else if b < 0xF8 then 4
    else 5
  }

  /** Looking the class up by `byte >> 3` in the table, as the source does,
      gives the same answer for every byte. */
  lemma ClassMatchesTable(b: byte)
    ensures TOP5_CLASS[b / 8] == Class(b)
  {
  }

  /** The bit test of `utf8_consume_reverse`: top bits `11` or top bit `0`. */
  predicate IsLeadOrAscii(b: byte)
  {
    b >= 0xC0 || b < 0x80
  }

  // ---------------------------------------------------------------------
  // Decoding one codepoint.
  // ---------------------------------------------------------------------

  /** `Unicode_Consume` / `Unicode_Consume_Reverse`: the number of bytes a step
      covers (`inc` forward, `dec` backward) and the codepoint it read. */
  datatype Decoded = Decoded(len: nat, codepoint: nat)

  /** The result every decoding failure collapses to. */
  const FALLBACK: Decoded := Decoded(1, INVALID)

  /** `s` starts with a sequence the decoder accepts: a lead of class 1 to 4
      followed by that many bytes in all, the extra ones being continuation bytes. */
  predicate Decodable(s: seq<byte>)
  {
    && |s| > 0
    && 1 <= Class(s[0]) <= 4
    && Class(s[0]) <= |s|
    && (Class(s[0]) >= 2 ==> Class(s[1]) == 0)
    && (Class(s[0]) >= 3 ==> Class(s[2]) == 0)
    && (Class(s[0]) >= 4 ==> Class(s[3]) == 0)
  }

  /** `byte & Bitmask_6`: the payload bits of a continuation byte. */
  function Low6(b: byte): nat { b % 0x40 }

  /** The codepoints of accepted two-, three- and four-byte sequences: the
      payload bits of the lead followed by six bits per continuation byte. */
  function Value2(a: byte, b: byte): (r: nat)
    ensures r < 0x800
  { (a % 0x20) * 0x40 + Low6(b) }
  function Value3(a: byte, b: byte, c: byte): (r: nat)
    ensures r < 0x1_0000
  { (a % 0x10) * 0x1000 + Low6(b) * 0x40 + Low6(c) }
  function Value4(a: byte, b: byte, c: byte, d: byte): (r: nat)
    ensures r < 0x20_0000
  { (a % 0x8) * 0x4_0000 + Low6(b) * 0x1000 + Low6(c) * 0x40 + Low6(d) }

  /** `utf8_consume(str, max)` with `max == |s|`. */
  function Consume(s: seq<byte>): (r: Decoded)
    ensures 1 <= r.len <= 4
    ensures |s| > 0 ==> r.len <= |s|
    ensures forall k :: 1 <= k < r.len && k < |s| ==> Class(s[k]) == 0
    ensures Decodable(s) <==> r.codepoint != INVALID
    ensures !Decodable(s) ==> r == FALLBACK
    ensures Decodable(s) ==> r.len == Class(s[0]) && r.codepoint < 0x20_0000
  {
    if |s| == 0 then FALLBACK
    else
      match Class(s[0])
      case 1 => Decoded(1, s[0])
      case 2 =>
        if 1 < |s| && Class(s[1]) == 0 then Decoded(2, Value2(s[0], s[1]))
        else FALLBACK
      case 3 =>
        if 2 < |s| && Class(s[1]) == 0 && Class(s[2]) == 0 then Decoded(3, Value3(s[0], s[1], s[2]))
        else FALLBACK
      case 4 =>
        if 3 < |s| && Class(s[1]) == 0 && Class(s[2]) == 0 && Class(s[3]) == 0 then
          Decoded(4, Value4(s[0], s[1], s[2], s[3]))
        else FALLBACK
      case _ => FALLBACK
  }

  /** The loop of `utf8_consume_reverse`: how many bytes back from the end the
      nearest lead or ASCII byte sits, looking at most four bytes back; 0 when
      there is none. `length` bytes have been looked at already. */
  function ScanBack(s: seq<byte>, length: nat): (r: nat)
    requires length <= 4
    ensures r == 0 || (length < r <= 4 && r <= |s| && IsLeadOrAscii(s[|s| - r]))
    ensures r == 0 || forall i :: |s| - r < i < |s| - length ==> !IsLeadOrAscii(s[i])
    ensures r == 0 ==> forall i :: 0 <= i < |s| - length && |s| - 4 <= i ==> !IsLeadOrAscii(s[i])
    decreases 4 - length
  {
    if length >= 4 || length >= |s| then 0
    else if IsLeadOrAscii(s[|s| - (length + 1)]) then length + 1
    else ScanBack(s, length + 1)
  }

  /** `utf8_consume_reverse(str, max)` with `max == |s|`: scan back to the first
      byte that is not a continuation byte, then decode forward from there.
      `len` is the forward length of that decode, not the distance scanned. */
  function ConsumeReverse(s: seq<byte>): (r: Decoded)
    ensures 1 <= r.len <= 4
    ensures |s| > 0 ==> r.len <= |s|
    ensures (forall k :: 0 <= k < |s| && |s| - 4 <= k ==> Class(s[k]) == 0) ==> r == FALLBACK
  {
    var length := ScanBack(s, 0);
    if length == 0 then FALLBACK else Consume(s[|s| - length..])
  }

  /** The scan steps back over a stray continuation byte to the ASCII byte
      before it, but reports the length of that byte's own decode: a caller
      moving back by `len` lands on the continuation byte. */
  lemma ConsumeReverseReportsForwardLength()
    ensures ConsumeReverse([0x41, 0x80]) == Decoded(1, 0x41)
  {
    assert ScanBack([0x41, 0x80], 0) == 2;
  }

  // ---------------------------------------------------------------------
  // Encoding one codepoint.
  // ---------------------------------------------------------------------

  /** The byte `'?'` written for codepoints beyond U+10FFFF. */
  const QUESTION_MARK: byte := 0x3F

  /** `utf8_write`: the bytes the source stores for `codepoint` (a `u32`). */
  function Encode(codepoint: nat): (r: seq<byte>)
    requires codepoint <= INVALID
    ensures codepoint <= 0x7F ==> |r| == 1
    ensures 0x7F < codepoint <= 0x7FF ==> |r| == 2
    ensures 0x7FF < codepoint <= 0xFFFF ==> |r| == 3
    ensures 0xFFFF < codepoint <= MAX_CODEPOINT ==> |r| == 4
    ensures MAX_CODEPOINT < codepoint ==> r == [QUESTION_MARK]
    ensures codepoint <= MAX_CODEPOINT ==> Class(r[0]) == |r|
    ensures forall k :: 1 <= k < |r| ==> Class(r[k]) == 0
  {
    if codepoint <= 0x7F then
      [codepoint]
    else if codepoint <= 0x7FF then
      [0xC0 + (codepoint / 0x40) % 0x20,
       0x80 + codepoint % 0x40]
    else if codepoint <= 0xFFFF then
      [0xE0 + (codepoint / 0x1000) % 0x10,
       0x80 + (codepoint / 0x40) % 0x40,
       0x80 + codepoint % 0x40]
    else if codepoint <= MAX_CODEPOINT then
      [0xF0 + (codepoint / 0x4_0000) % 0x8,
       0x80 + (codepoint / 0x1000) % 0x40,
       0x80 + (codepoint / 0x40) % 0x40,
       0x80 + codepoint % 0x40]
    else
      [QUESTION_MARK]
  }

  // ---------------------------------------------------------------------
  // Comparison.
  // ---------------------------------------------------------------------

  /** `str_equals`: sizes first, then byte by byte. */
  method StrEquals(a: seq<byte>, b: seq<byte>) returns (r: bool)
    ensures r <==> a == b
  {
    if |a| != |b| {
      return false;
    }
    var index := 0;
    while index < |a|
      invariant 0 <= index <= |a|
      invariant a[..index] == b[..index]
    {
      if a[index] != b[index] {
        return false;
      }
      index := index + 1;
    }
    assert a == a[..index] && b == b[..index];
    return true;
  }

  /** The ranges of `unicode_codepoint_to_lower` whose capitals sit 32 below
      their small letters. */
  predicate LowerBy32(cp: nat)
  {
    || (0x0041 <= cp <= 0x005A) || (0x00C0 <= cp <= 0x00D6) || (0x00D8 <= cp <= 0x00DE)
    || (0x0391 <= cp <= 0x03A1) || (0x03A3 <= cp <= 0x03AB) || (0x0410 <= cp <= 0x042F)
  }

  /** The Cyrillic range whose capitals sit 80 below their small letters. */
  predicate LowerBy80(cp: nat)
  {
    0x0400 <= cp <= 0x040F
  }

  /** The ranges of alternating pairs with the capital at the even codepoint. */
  predicate LowerSetsLowBit(cp: nat)
  {
    || (0x0100 <= cp <= 0x012F) || (0x0132 <= cp <= 0x0137) || (0x014A <= cp <= 0x0177)
    || (0x0182 <= cp <= 0x0185) || (0x01A0 <= cp <= 0x01A5) || (0x01DE <= cp <= 0x01EF)
    || (0x01F8 <= cp <= 0x021F) || (0x0222 <= cp <= 0x0233) || (0x0246 <= cp <= 0x024F)
    || (0x03D8 <= cp <= 0x03EF) || (0x0460 <= cp <= 0x0481) || (0x048A <= cp <= 0x04FF)
  }

  /** The ranges of alternating pairs with the capital at the odd codepoint. */
  predicate LowerRoundsUpEven(cp: nat)
  {
    || (0x0139 <= cp <= 0x0148) || (0x0179 <= cp <= 0x017E) || (0x01AF <= cp <= 0x01B0)
    || (0x01B3 <= cp <= 0x01B6) || (0x01CD <= cp <= 0x01DC)
  }

  /** The `switch` of single-codepoint mappings at the end of the table;
      its default leaves the codepoint as it is. */
  function LowerSingle(cp: nat): nat
  {
    match cp
    case 0x0178 => 0x00FF
    case 0x0243 => 0x0180
    case 0x018E => 0x01DD
    case 0x023D => 0x019A
    case 0x0220 => 0x019E
    case 0x01B7 => 0x0292
    case 0x01C4 => 0x01C6
    case 0x01C7 => 0x01C9
    case 0x01CA => 0x01CC
    case 0x01F1 => 0x01F3
    case 0x01F7 => 0x01BF
    case 0x0187 => 0x0188
    case 0x018B => 0x018C
    case 0x0191 => 0x0192
    case 0x0198 => 0x0199
    case 0x01A7 => 0x01A8
    case 0x01AC => 0x01AD
    case 0x01AF => 0x01B0
    case 0x01B8 => 0x01B9
    case 0x01BC => 0x01BD
    case 0x01F4 => 0x01F5
    case 0x023B => 0x023C
    case 0x0241 => 0x0242
    case 0x03FD => 0x037B
    case 0x03FE => 0x037C
    case 0x03FF => 0x037D
    case 0x037F => 0x03F3
    case 0x0386 => 0x03AC
    case 0x0388 => 0x03AD
    case 0x0389 => 0x03AE
    case 0x038A => 0x03AF
    case 0x038C => 0x03CC
    case 0x038E => 0x03CD
    case 0x038F => 0x03CE
    case 0x0370 => 0x0371
    case 0x0372 => 0x0373
    case 0x0376 => 0x0377
    case 0x03F4 => 0x03B8
    case 0x03CF => 0x03D7
    case 0x03F9 => 0x03F2
    case 0x03F7 => 0x03F8
    case 0x03FA => 0x03FB
    case _ => cp
  }

  /** The codepoints the table mentions at all: every other codepoint is
      its own lowercase. */
  predicate InLowerTable(cp: nat)
  {
    LowerBy32(cp) || LowerBy80(cp) || LowerSetsLowBit(cp) || LowerRoundsUpEven(cp) || LowerSingle(cp) != cp
  }

  /** `unicode_codepoint_to_lower`: the fixed lowercase table of the source,
      its groups tried in order. */
  function ToLower(cp: nat): (r: nat)
    ensures !InLowerTable(cp) ==> r == cp
    ensures 0x41 <= cp <= 0x5A ==> r == cp + 32
    ensures cp < 0x41 || (0x5A < cp < 0xC0) || 0x4FF < cp ==> r == cp
    ensures r != cp ==> r <= 0x4FF && cp <= 0x4FF
  {
    if LowerBy32(cp) then cp + 32
    else if LowerBy80(cp) then cp + 80
    // cp |= 1
    else if LowerSetsLowBit(cp) then (if cp % 2 == 0 then cp + 1 else cp)
    // cp += 1; cp &= ~1
    else if LowerRoundsUpEven(cp) then (cp + 1) - (cp + 1) % 2
    else LowerSingle(cp)
  }

  /** Lowering twice is lowering once: no small letter the table produces
      is itself a capital of the table. */
  lemma ToLowerIdempotent(cp: nat)
    ensures ToLower(ToLower(cp)) == ToLower(cp)
  {
    if LowerBy32(cp) {
      By32IsSmall(cp);
    } else if LowerBy80(cp) {
      By80IsSmall(cp);
    } else if LowerSetsLowBit(cp) {
      SetLowBitIsSmall(if cp % 2 == 0 then cp + 1 else cp);
    } else if LowerRoundsUpEven(cp) {
      RoundUpEvenIsSmall((cp + 1) - (cp + 1) % 2);
    } else {
      SinglesAreSmall(cp);
    }
  }

  /** A small letter 32 above its capital is outside the table. */
  lemma By32IsSmall(cp: nat)
    requires LowerBy32(cp)
    ensures ToLower(cp + 32) == cp + 32
  {
    assert !InLowerTable(cp + 32);
  }

  /** A small letter 80 above its capital is outside the table. */
  lemma By80IsSmall(cp: nat)
    requires LowerBy80(cp)
    ensures ToLower(cp + 80) == cp + 80
  {
    assert !InLowerTable(cp + 80);
  }

  /** The odd member of an even-capital pair lowers to itself. */
  lemma SetLowBitIsSmall(r: nat)
    requires r % 2 == 1 && (LowerSetsLowBit(r - 1) || LowerSetsLowBit(r))
    ensures ToLower(r) == r
  {
  }

  /** The even member of an odd-capital pair lowers to itself. */
  lemma RoundUpEvenIsSmall(r: nat)
    requires r % 2 == 0 && (LowerRoundsUpEven(r) || (r >= 1 && LowerRoundsUpEven(r - 1)))
    ensures ToLower(r) == r
  {
  }

  /** Every small letter the `switch` produces, for a codepoint none of the
      ranges claimed first, lies outside the table. */
  lemma SinglesAreSmall(cp: nat)
    requires !LowerBy32(cp) && !LowerBy80(cp) && !LowerSetsLowBit(cp) && !LowerRoundsUpEven(cp)
    ensures ToLower(LowerSingle(cp)) == LowerSingle(cp)
  {
    SingleTargetsMissRanges(cp);
    SingleTargetsFixed(cp);
  }

  /** The `switch` targets lie in none of the ranges, except for the dead
      case 0x01AF that its range claims first. */
  lemma SingleTargetsMissRanges(cp: nat)
    requires !LowerRoundsUpEven(cp)
    ensures var t := LowerSingle(cp);
            t != cp ==> !LowerBy32(t) && !LowerBy80(t) && !LowerSetsLowBit(t) && !LowerRoundsUpEven(t)
  {
  }

  /** The `switch` leaves each of its own targets alone. */
  lemma SingleTargetsFixed(cp: nat)
    ensures LowerSingle(LowerSingle(cp)) == LowerSingle(cp)
  {
  }

  /** `str_equals_ignore_case`: decode one codepoint from each side, compare
      the lowered values, and stop with size equality once a side runs out. */
  function EqualsIgnoreCase(a: seq<byte>, b: seq<byte>): (r: bool)
    ensures r ==> |Codepoints(a)| == |Codepoints(b)|
  {
    EqualsUnderIsPairwise(ToLower, a, b);
    EqualsUnder(ToLower, a, b)
  }

  /** The loop of `str_equals_ignore_case` with the per-codepoint mapping
      `key` as a parameter. */
  function EqualsUnder(key: nat -> nat, a: seq<byte>, b: seq<byte>): bool
    decreases |a|
  {
    if |a| == 0 || |b| == 0 then |a| == |b|
    else
      var ca := Consume(a);
      var cb := Consume(b);
      key(ca.codepoint) == key(cb.codepoint)
      && EqualsUnder(key, Skip(a, ca.len), Skip(b, cb.len))
  }

  /** The codepoints a forward walk with `utf8_consume` reads, in order. */
  function Codepoints(s: seq<byte>): (r: seq<nat>)
    ensures |r| <= |s|
    ensures |s| > 0 ==> |r| > 0 && r[0] == Consume(s).codepoint
    decreases |s|
  {
    if |s| == 0 then [] else [Consume(s).codepoint] + Codepoints(s[Consume(s).len..])
  }

  /** `xs` with `key` applied to every element. */
  function Mapped(key: nat -> nat, xs: seq<nat>): (r: seq<nat>)
    ensures |r| == |xs|
  {
    seq(|xs|, i requires 0 <= i < |xs| => key(xs[i]))
  }

  lemma MappedCons(key: nat -> nat, x: nat, xs: seq<nat>)
    ensures Mapped(key, [x] + xs) == [key(x)] + Mapped(key, xs)
  {
  }

  lemma ConsEquals<T>(x: T, xs: seq<T>, y: T, ys: seq<T>)
    ensures [x] + xs == [y] + ys <==> x == y && xs == ys
  {
    if [x] + xs == [y] + ys {
      assert x == ([x] + xs)[0];
      assert xs == ([x] + xs)[1..];
    }
  }

  /** Equality under a key holds exactly when the two mapped codepoint
      sequences are equal: same count, pairwise equal keys. */
  lemma {:induction false} EqualsUnderIsPairwise(key: nat -> nat, a: seq<byte>, b: seq<byte>)
    ensures EqualsUnder(key, a, b) <==> Mapped(key, Codepoints(a)) == Mapped(key, Codepoints(b))
    decreases |a|
  {
    if |a| == 0 || |b| == 0 {
      assert |Mapped(key, Codepoints(a))| == |Codepoints(a)|;
    } else {
      var ca := Consume(a);
      var cb := Consume(b);
      EqualsUnderIsPairwise(key, a[ca.len..], b[cb.len..]);
      assert Skip(a, ca.len) == a[ca.len..];
      assert Skip(b, cb.len) == b[cb.len..];
      MappedCons(key, ca.codepoint, Codepoints(a[ca.len..]));
      MappedCons(key, cb.codepoint, Codepoints(b[cb.len..]));
      ConsEquals(key(ca.codepoint), Mapped(key, Codepoints(a[ca.len..])),
                 key(cb.codepoint), Mapped(key, Codepoints(b[cb.len..])));
    }
  }

  /** Case-insensitive equality holds exactly when the two strings' lowered
      codepoint sequences are equal. */
  lemma EqualsIgnoreCaseIsPairwise(a: seq<byte>, b: seq<byte>)
    ensures EqualsIgnoreCase(a, b) <==> Mapped(ToLower, Codepoints(a)) == Mapped(ToLower, Codepoints(b))
  {
    EqualsUnderIsPairwise(ToLower, a, b);
  }

  /** Byte-equal strings are equal ignoring case. */
  lemma {:induction false} EqualImpliesEqualsIgnoreCase(a: seq<byte>, b: seq<byte>)
    requires a == b
    ensures EqualsIgnoreCase(a, b)
    decreases |a|
  {
    if |a| > 0 {
      EqualImpliesEqualsIgnoreCase(Skip(a, Consume(a).len), Skip(b, Consume(b).len));
    }
  }
}
