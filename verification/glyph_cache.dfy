/** The glyph cache of `app_glyph_cache.h`: a fixed block of ASCII glyphs,
    and a table of `N + 1` glyph slots (slot 0 a sentinel) threaded on the
    LRU ring and on the collision chains of a power-of-two hash table. The
    rasterizer is a parameter: a function from codepoints to what it
    reports. */
module GlyphCache {
  import opened Bits
  import opened Glyphs
  import opened GlyphRing
  import opened GlyphChains

  /** `TEXTURE_WIDTH`, the width of the glyph texture in pixels. */
  const TEXTURE_WIDTH: nat := 8192

  /** The ASCII block holds the codepoints from `' '`; the fast path of
      `get_glyph` stops before `'~'`, and the block has `'~' - '!' + 1`
      glyphs. */
  const ASCII_FIRST: nat := 0x20
  const ASCII_END: nat := 0x7E
  const ASCII_COUNT: nat := 94

  /** The part of `Font` the cache uses: the largest glyph cell, the texture
      pen, the ASCII block, the data table, the key mask and the hash
      table. */
  datatype Font = Font(maxWidth: nat, maxHeight: nat, texX: nat, texY: nat,
                       ascii: seq<Glyph>, data: seq<Glyph>, mask: nat, table: seq<nat>)

  /** The bucket of a hash: `1 + (hash & mask)`. Bucket 0 is never used. */
  function Key(hash: nat, mask: nat): (k: nat)
    ensures 1 <= k <= mask + 1
  {
    1 + And(hash, mask)
  }

  /** What every operation needs of an initialized font: at least one slot
      besides the sentinel, 16-bit slot indices, one bucket for every key,
      a full ASCII block, and every link naming a slot. The hash table here
      has `mask + 2` entries, one more than the source allocates, so that
      the largest key has a bucket. */
  predicate Shape(f: Font)
  {
    && 2 <= |f.data| <= 0x1_0000
    && |f.table| == f.mask + 2
    && |f.ascii| == ASCII_COUNT
    && TablesInRange(Tables(f.data, f.table))
    && LruLinksInRange(f.data)
  }

  /** `g` has the layout of `f`: the same cell size, pen, ASCII block, mask
      and table sizes. */
  predicate SameLayout(f: Font, g: Font)
  {
    && g.maxWidth == f.maxWidth && g.maxHeight == f.maxHeight
    && g.texX == f.texX && g.texY == f.texY
    && g.ascii == f.ascii && g.mask == f.mask
    && |g.data| == |f.data| && |g.table| == |f.table|
  }

  /** A glyph keeps its texture cell and its ring links. */
  predicate KeepsPlace(g: Glyph, g': Glyph)
  {
    g'.texX == g.texX && g'.texY == g.texY && g'.nextInLru == g.nextInLru && g'.prevInLru == g.prevInLru
  }

  // ----- initialize_font -----

  /** C's signed division, which truncates toward zero. */
  function DivTrunc(a: int, b: nat): (q: int)
    requires b >= 1
  {
    if a >= 0 then a / b else -((-a) / b)
  }

  /** The number of buckets `initialize_font` allocates for `slots` glyph
      slots: `1 << (msb(slots * 4 / 3) + 1)`. */
  function HashTableCount(slots: nat): (count: nat)
    requires slots >= 1
    ensures slots * 4 / 3 < count <= 2 * (slots * 4 / 3)
  {
    var x := slots * 4 / 3;
    var k := Log2(x);
    assert Pow2(k + 1) == 2 * Pow2(k);
    Pow2(k + 1)
  }

  /** The buckets are a power of two, so the key mask keeps the low bits:
      a hash lands in bucket `1 + hash mod count`. */
  lemma KeyIsRemainder(slots: nat, hash: nat)
    requires slots >= 1
    ensures Key(hash, HashTableCount(slots) - 1) == 1 + hash % HashTableCount(slots)
  {
    AndLowMask(hash, Log2(slots * 4 / 3) + 1);
  }

  /** The hash table as the source allocates it: `count` entries, while the
      largest key, taken by every hash whose low bits are all set, is
      `count` itself, one past the last entry. */
  lemma KeyOverrunsAllocation(slots: nat)
    requires slots >= 1
    ensures var count := HashTableCount(slots);
            Key(count - 1, count - 1) == count
  {
    AndSelf(HashTableCount(slots) - 1);
  }

  /** Slot `i` of `n` as `initialize_font` leaves it: zeroed, linked to its
      neighbours on the ring in index order, and, past the sentinel, given
      the next cell of the texture row. */
  function InitSlot(i: nat, n: nat, texX: nat, texY: nat, maxWidth: nat): (g: Glyph)
    requires i < n
  {
    ZERO_GLYPH.(nextInLru := if i == n - 1 then 0 else i + 1,
                prevInLru := if i == 0 then n - 1 else i - 1,
                texX := if i == 0 then 0 else texX + (i - 1) * maxWidth,
                texY := if i == 0 then 0 else texY)
  }

  /** The number of dynamic slots `initialize_font` makes with the pen at
      `texX`: the cells of the largest size that fit in the rest of the
      texture row, by C's truncating division (the rest is negative when
      the ASCII block ran past the row). */
  function SlotCount(texX: nat, maxWidth: nat): (slots: int)
    requires maxWidth >= 1
    ensures slots >= 1 <==> texX + maxWidth <= TEXTURE_WIDTH
    ensures slots >= 1 ==> slots * maxWidth <= TEXTURE_WIDTH - texX < slots * maxWidth + maxWidth
    ensures slots <= TEXTURE_WIDTH
  {
    var rest := TEXTURE_WIDTH - texX;
    if rest >= 0 then
      DivBounds(rest, maxWidth);
      DivTrunc(rest, maxWidth)
    else DivTrunc(rest, maxWidth)
  }

  /** The table half of `initialize_font`, with the pen `texX` where the
      ASCII block left it: one slot per cell that fits, plus the sentinel,
      and a zeroed hash table with a bucket for every key. When not even
      one cell fits the source only asserts; here there is no font. */
  function InitFont(maxWidth: nat, maxHeight: nat, texX: nat, texY: nat, ascii: seq<Glyph>): (r: Option<Font>)
    requires maxWidth >= 1
    ensures r.Some? <==> texX + maxWidth <= TEXTURE_WIDTH
    ensures r.Some? ==>
              && |r.value.table| == r.value.mask + 2
              && |r.value.data| >= 2 && r.value.mask + 1 == HashTableCount(|r.value.data| - 1)
              && (forall h: nat :: Key(h, r.value.mask) < |r.value.table|)
              && r.value.texX == texX + (|r.value.data| - 1) * maxWidth <= TEXTURE_WIDTH
              && TEXTURE_WIDTH < r.value.texX + maxWidth
              && |r.value.data| <= TEXTURE_WIDTH + 1
  {
    var slots := SlotCount(texX, maxWidth);
    if slots <= 0 then None
    else
      var n := slots + 1;
      var count := HashTableCount(slots);
      Some(Font(maxWidth, maxHeight, texX + slots * maxWidth, texY, ascii,
                seq(n, i requires 0 <= i < n => InitSlot(i, n, texX, texY, maxWidth)),
                count - 1, seq(count + 1, _ => 0)))
  }

  /** The first `count` glyphs of the ASCII block, initialized in order with
      the texture pen moving; the pen starts at 0 in a zeroed font. */
  datatype Block = Block(glyphs: seq<Glyph>, penX: nat)

  function AsciiBlock(rasterize: nat -> Raster, maxWidth: nat, maxHeight: nat, count: nat, penY: nat): (r: Block)
    ensures |r.glyphs| == count
    ensures forall i :: 0 <= i < count ==>
              && r.glyphs[i].hash == ASCII_FIRST + i
              && r.glyphs[i].status == Resolve(rasterize(ASCII_FIRST + i), maxWidth, maxHeight)
  {
    if count == 0 then Block([], 0)
    else
      var b := AsciiBlock(rasterize, maxWidth, maxHeight, count - 1, penY);
      var c := ASCII_FIRST + count - 1;
      var g := InitializeGlyph(ZERO_GLYPH, c, rasterize(c), maxWidth, maxHeight, b.penX, penY, true);
      Block(b.glyphs + [g.glyph], g.penX)
  }

  /** While the pen stays below 2^16, the ASCII glyphs that have a bitmap
      get cells side by side, left to right, each a column apart, all left
      of the pen. */
  lemma {:induction false} AsciiCellsDisjoint(rasterize: nat -> Raster, maxWidth: nat, maxHeight: nat,
                                              count: nat, penY: nat)
    requires (count + 1) * maxWidth < 0x1_0000
    ensures var b := AsciiBlock(rasterize, maxWidth, maxHeight, count, penY);
            && b.penX <= count * maxWidth
            && (forall i :: 0 <= i < count && b.glyphs[i].status == Loaded ==>
                  b.glyphs[i].texX + b.glyphs[i].width < b.penX && b.glyphs[i].texY == penY)
            && (forall i, j :: 0 <= i < j < count && b.glyphs[i].status == Loaded && b.glyphs[j].status == Loaded ==>
                  b.glyphs[i].texX + b.glyphs[i].width < b.glyphs[j].texX)
  {
    if count > 0 {
      var b := AsciiBlock(rasterize, maxWidth, maxHeight, count - 1, penY);
      AsciiCellsDisjoint(rasterize, maxWidth, maxHeight, count - 1, penY);
      assert count * maxWidth == (count - 1) * maxWidth + maxWidth;
      assert (count + 1) * maxWidth == count * maxWidth + maxWidth;
      var c := ASCII_FIRST + count - 1;
      InitializeGlyphMovesPen(ZERO_GLYPH, c, rasterize(c), maxWidth, maxHeight, b.penX, penY);
    }
  }

  /** `initialize_font` once the font file is parsed: the ASCII block, then
      the tables in the rest of the texture row. */
  function InitializeFont(rasterize: nat -> Raster, maxWidth: nat, maxHeight: nat): (r: Option<Font>)
    requires maxWidth >= 1
    ensures r.Some? ==> |r.value.ascii| == ASCII_COUNT && AsciiHashes(r.value)
  {
    var b := AsciiBlock(rasterize, maxWidth, maxHeight, ASCII_COUNT, 0);
    InitFont(maxWidth, maxHeight, b.penX, 0, b.glyphs)
  }

  /** Glyph `i` of the ASCII block holds codepoint `' ' + i`. */
  predicate AsciiHashes(f: Font)
  {
    forall i :: 0 <= i < |f.ascii| ==> f.ascii[i].hash == ASCII_FIRST + i
  }

  // ----- get_free_glyph_slot and get_glyph -----

  /** The chain walk of `get_glyph`, from the head of the codepoint's
      bucket. */
  function Lookup(f: Font, cp: nat): (r: Option<nat>)
    requires Shape(f)
    ensures r.Some? ==> r.value < |f.data| && f.data[r.value].hash == cp
  {
    Find(f.data, f.table[Key(cp, f.mask)], cp, |f.data|)
  }

  datatype Freed = Freed(font: Font, slot: nat)

  /** `get_free_glyph_slot`: the oldest slot, the sentinel's predecessor
      on the ring; when it holds a glyph, that glyph is unlinked from its
      bucket's chain and cleared. */
  function GetFreeSlot(f: Font): (r: Freed)
    requires Shape(f)
    ensures Shape(r.font) && SameLayout(f, r.font)
    ensures r.slot == f.data[0].prevInLru && r.font.data[r.slot].hash == 0
    ensures f.data[r.slot].hash == 0 ==> r.font == f
    ensures forall j :: 0 <= j < |f.data| ==> KeepsPlace(f.data[j], r.font.data[j])
    ensures forall j :: 0 <= j < |f.data| && j != r.slot ==> r.font.data[j].hash == f.data[j].hash
  {
    var oldest := f.data[0].prevInLru;
    var h := f.data[oldest].hash;
    if h != 0 then
      var t := Unlink(Tables(f.data, f.table), Key(h, f.mask), oldest, |f.data|);
      Freed(f.(data := t.data[oldest := ClearGlyphFontData(t.data[oldest])], table := t.table), oldest)
    else
      Freed(f, oldest)
  }

  /** The miss half of `get_glyph`: initialize the free slot `s` for `cp`
      (keeping its cell) and push it on the head of the codepoint's
      bucket. */
  function Insert(f: Font, s: nat, cp: nat, raster: Raster): (r: Font)
    requires Shape(f) && s < |f.data|
    ensures Shape(r) && SameLayout(f, r)
    ensures r.data[s].hash == cp && r.data[s].status == Resolve(raster, f.maxWidth, f.maxHeight)
    ensures r.table[Key(cp, f.mask)] == s
    ensures forall j :: 0 <= j < |f.data| ==> KeepsPlace(f.data[j], r.data[j])
    ensures forall j :: 0 <= j < |f.data| && j != s ==> r.data[j].hash == f.data[j].hash
  {
    var init := InitializeGlyph(f.data[s], cp, raster, f.maxWidth, f.maxHeight, f.texX, f.texY, false);
    var t := Push(Tables(f.data[s := init.glyph], f.table), Key(cp, f.mask), s);
    f.(data := t.data, table := t.table)
  }

  datatype Fetched = Fetched(font: Font, glyph: Glyph)

  /** The end of `get_glyph`: move slot `s` to the front of the ring and
      return a copy of it. */
  function Touch(f: Font, s: nat): (r: Fetched)
    requires Shape(f) && s < |f.data|
    ensures Shape(r.font) && SameLayout(f, r.font) && r.font.table == f.table
    ensures forall j :: 0 <= j < |f.data| ==>
              r.font.data[j] == f.data[j].(nextInLru := r.font.data[j].nextInLru,
                                           prevInLru := r.font.data[j].prevInLru)
    ensures r.glyph == r.font.data[s]
  {
    var data := MoveToFront(f.data, s);
    Fetched(f.(data := data), data[s])
  }

  /** The slot a dynamic lookup of `cp` ends on: the one holding it, or the
      oldest. */
  function Slot(f: Font, cp: nat): (s: nat)
    requires Shape(f)
    ensures s < |f.data|
  {
    match Lookup(f, cp)
    case Some(i) => i
    case None => f.data[0].prevInLru
  }

  /** `get_glyph` as written, for any 32-bit codepoint: the ASCII fast path,
      then a walk of the codepoint's chain; on a miss the oldest slot is
      freed and filled; either way the slot becomes the most recent. */
  function GetGlyphUnguarded(f: Font, cp: nat, rasterize: nat -> Raster): (r: Fetched)
    requires Shape(f) && cp < 0x1_0000_0000
    ensures Shape(r.font) && SameLayout(f, r.font)
    ensures ASCII_FIRST <= cp < ASCII_END ==> r == Fetched(f, f.ascii[cp - ASCII_FIRST])
    ensures !(ASCII_FIRST <= cp < ASCII_END) ==>
              && r.glyph.hash == cp
              && r.glyph == r.font.data[Slot(f, cp)]
              && forall j :: 0 <= j < |f.data| ==>
                   r.font.data[j].texX == f.data[j].texX && r.font.data[j].texY == f.data[j].texY
    ensures !(ASCII_FIRST <= cp < ASCII_END) && Lookup(f, cp).Some? ==>
              && r.font.table == f.table
              && forall j :: 0 <= j < |f.data| ==>
                   r.font.data[j] == f.data[j].(nextInLru := r.font.data[j].nextInLru,
                                                prevInLru := r.font.data[j].prevInLru)
    ensures !(ASCII_FIRST <= cp < ASCII_END) && Lookup(f, cp).None? ==>
              r.glyph.status == Resolve(rasterize(cp), f.maxWidth, f.maxHeight)
  {
    if ASCII_FIRST <= cp < ASCII_END then Fetched(f, f.ascii[cp - ASCII_FIRST])
    else
      match Lookup(f, cp)
      case Some(i) => Touch(f, i)
      case None =>
        var freed := GetFreeSlot(f);
        Touch(Insert(freed.font, freed.slot, cp, rasterize(cp)), freed.slot)
  }

  /** `get_glyph` for the codepoints it serves correctly: every one but 0,
      which would match the empty sentinel. The glyph it returns holds a
      codepoint. */
  function GetGlyph(f: Font, cp: nat, rasterize: nat -> Raster): (r: Fetched)
    requires Shape(f) && 0 < cp < 0x1_0000_0000
    ensures Shape(r.font) && SameLayout(f, r.font)
    ensures AsciiHashes(f) || !(ASCII_FIRST <= cp < ASCII_END) ==> r.glyph.hash == cp != 0
  {
    GetGlyphUnguarded(f, cp, rasterize)
  }

  // ----- the cache invariant -----

  /** The sentinel holds no codepoint and links to no chain. */
  predicate SentinelEmpty(data: seq<Glyph>)
  {
    |data| >= 1 && data[0].hash == 0 && data[0].nextInCollision == 0
  }

  /** Slot `x` holds a codepoint whose bucket is `k`. */
  predicate Belongs(f: Font, x: nat, k: nat)
  {
    x < |f.data| && f.data[x].hash != 0 && Key(f.data[x].hash, f.mask) == k
  }

  /** `chains[k]` is the chain of bucket `k`, without repeats, and holds
      only codepoints of that bucket. */
  ghost predicate ChainsHold(f: Font, chains: seq<seq<nat>>)
  {
    && |chains| == |f.table|
    && (forall k :: 0 <= k < |chains| ==> Linked(f.data, f.table[k], chains[k]) && Distinct(chains[k]))
    && (forall k, x :: 0 <= k < |chains| && x in chains[k] ==> Belongs(f, x, k))
  }

  /** Every slot that holds a codepoint is on its bucket's chain. */
  ghost predicate Occupied(f: Font, chains: seq<seq<nat>>)
  {
    forall i :: 1 <= i < |f.data| && f.data[i].hash != 0 ==>
      Key(f.data[i].hash, f.mask) < |chains| && i in chains[Key(f.data[i].hash, f.mask)]
  }

  /** No codepoint is held twice. */
  predicate UniqueHashes(data: seq<Glyph>)
  {
    forall i, j :: 1 <= i < j < |data| && data[i].hash != 0 ==> data[i].hash != data[j].hash
  }

  /** Free slots sit behind every occupied one on the ring. */
  ghost predicate FreeLast(data: seq<Glyph>, lru: seq<nat>)
  {
    forall j, k :: 1 <= j < k < |lru| && lru[j] < |data| && lru[k] < |data| && data[lru[j]].hash == 0 ==>
      data[lru[k]].hash == 0
  }

  /** Slot `i` owns the `i`-th cell of the row that ends at the pen. */
  predicate Cells(f: Font)
  {
    && f.texX <= TEXTURE_WIDTH
    && forall i :: 1 <= i < |f.data| ==>
         f.data[i].texX + (|f.data| - i) * f.maxWidth == f.texX && f.data[i].texY == f.texY
  }

  /** Everything the cache keeps true, but for where the free slots sit. */
  ghost predicate CacheBody(f: Font, lru: seq<nat>, chains: seq<seq<nat>>)
  {
    && Shape(f)
    && SentinelEmpty(f.data)
    && Ring(f.data, lru)
    && ChainsHold(f, chains)
    && Occupied(f, chains)
    && UniqueHashes(f.data)
    && Cells(f)
  }

  /** The cache invariant: the data table is one ring in the order `lru`,
      bucket `k` heads the chain `chains[k]`, each codepoint is held once
      and sits on its bucket's chain, the free slots are the oldest, and
      every slot keeps its own texture cell. */
  ghost predicate Cache(f: Font, lru: seq<nat>, chains: seq<seq<nat>>)
  {
    CacheBody(f, lru, chains) && FreeLast(f.data, lru)
  }

  // ----- initialization establishes the invariant -----

  /** A fresh font is a cache: the ring in index order, every chain empty,
      every slot free, and the cells side by side within the texture. */
  lemma InitFontCache(maxWidth: nat, maxHeight: nat, texX: nat, texY: nat, ascii: seq<Glyph>)
    requires maxWidth >= 1 && |ascii| == ASCII_COUNT
    requires InitFont(maxWidth, maxHeight, texX, texY, ascii).Some?
    ensures var f := InitFont(maxWidth, maxHeight, texX, texY, ascii).value;
            && Cache(f, seq(|f.data|, i => i), seq(|f.table|, _ => []))
            && forall i :: 1 <= i < |f.data| ==> f.data[i].hash == 0
  {
    var f := InitFont(maxWidth, maxHeight, texX, texY, ascii).value;
    var n := |f.data|;
    IndexOrderRing(f.data);
    InitCells(f, texX);
    var chains: seq<seq<nat>> := seq(|f.table|, _ => []);
    assert ChainsHold(f, chains);
  }

  /** Links from each slot to the next index and back, closed through the
      sentinel, are the ring in index order. */
  lemma IndexOrderRing(data: seq<Glyph>)
    requires |data| >= 1
    requires forall i :: 0 <= i < |data| ==>
               && data[i].nextInLru == (if i == |data| - 1 then 0 else i + 1)
               && data[i].prevInLru == (if i == 0 then |data| - 1 else i - 1)
    ensures Ring(data, seq(|data|, i => i))
  {
    var lru := seq(|data|, i => i);
    forall i | 0 <= i < |data|
      ensures i in lru
    {
      assert lru[i] == i;
    }
  }

  /** Cells handed out left to right from `texX` end at the font's pen. */
  lemma InitCells(f: Font, texX: nat)
    requires f.texX == texX + (|f.data| - 1) * f.maxWidth <= TEXTURE_WIDTH
    requires forall i :: 1 <= i < |f.data| ==>
               f.data[i].texX == texX + (i - 1) * f.maxWidth && f.data[i].texY == f.texY
    ensures Cells(f)
  {
    var n := |f.data|;
    forall i | 1 <= i < n
      ensures f.data[i].texX + (n - i) * f.maxWidth == f.texX
    {
      MulDistributes(i - 1, n - i, f.maxWidth);
    }
  }

  /** The slots' cells lie side by side, each `maxWidth` wide, and within
      the texture. */
  lemma CellsInTexture(f: Font)
    requires Cells(f) && f.maxWidth >= 1
    ensures forall i :: 1 <= i < |f.data| ==> f.data[i].texX + f.maxWidth <= TEXTURE_WIDTH
    ensures forall i, j :: 1 <= i < j < |f.data| ==> f.data[i].texX + f.maxWidth <= f.data[j].texX
  {
    var n := |f.data|;
    forall i, j | 1 <= i < j < n
      ensures f.data[i].texX + f.maxWidth <= f.data[j].texX
    {
      MulDistributes(n - j, j - i, f.maxWidth);
      MulDistributes(1, j - i - 1, f.maxWidth);
    }
    forall i | 1 <= i < n
      ensures f.data[i].texX + f.maxWidth <= TEXTURE_WIDTH
    {
      MulDistributes(1, n - i - 1, f.maxWidth);
    }
  }

  // ----- lookups -----

  /** Under the invariant the chain walk is exact: it finds a slot exactly
      when some slot holds the codepoint, and then it finds that one, never
      the sentinel. */
  lemma LookupFinds(f: Font, lru: seq<nat>, chains: seq<seq<nat>>, cp: nat)
    requires CacheBody(f, lru, chains) && cp != 0
    ensures Lookup(f, cp).Some? <==> exists j :: 1 <= j < |f.data| && f.data[j].hash == cp
    ensures forall j :: 1 <= j < |f.data| && f.data[j].hash == cp ==> Lookup(f, cp) == Some(j)
  {
    var key := Key(cp, f.mask);
    var c := chains[key];
    LinkedInRange(f.data, f.table[key], c);
    DistinctBounded(c, |f.data|);
    FindWalksChain(f.data, f.table[key], c, cp, |f.data|);
    var r := Lookup(f, cp);
    if r.Some? {
      assert r.value in c;
      assert 1 <= r.value;
      forall j | 1 <= j < |f.data| && f.data[j].hash == cp
        ensures r == Some(j)
      {
        SameHashSameSlot(f.data, j, r.value);
      }
    } else {
      forall j | 1 <= j < |f.data|
        ensures f.data[j].hash != cp
      {
        assert f.data[j].hash == cp ==> j in c;
      }
    }
  }

  /** The fast path hands out the ASCII glyph of the codepoint and changes
      nothing. */
  lemma AsciiFastPath(f: Font, cp: nat, rasterize: nat -> Raster)
    requires Shape(f) && AsciiHashes(f) && ASCII_FIRST <= cp < ASCII_END
    ensures var r := GetGlyph(f, cp, rasterize);
            r.font == f && r.glyph.hash == cp
  {
  }

  // ----- the steps of get_glyph keep the invariant -----

  /** Changing nothing but ring links keeps every part of the invariant
      that is not about the ring. */
  lemma RelinkKeeps(f: Font, f': Font, chains: seq<seq<nat>>)
    requires SameLayout(f, f') && f'.table == f.table
    requires forall j :: 0 <= j < |f.data| ==>
               f'.data[j] == f.data[j].(nextInLru := f'.data[j].nextInLru, prevInLru := f'.data[j].prevInLru)
    requires SentinelEmpty(f.data) && ChainsHold(f, chains) && Occupied(f, chains)
    requires UniqueHashes(f.data) && Cells(f)
    ensures SentinelEmpty(f'.data) && ChainsHold(f', chains) && Occupied(f', chains)
    ensures UniqueHashes(f'.data) && Cells(f')
  {
    forall k | 0 <= k < |chains|
      ensures Linked(f'.data, f'.table[k], chains[k])
    {
      LinkedFrame(f.data, f'.data, f.table[k], chains[k]);
    }
  }

  /** Moving a slot to the front keeps the invariant, with the slot
      promoted in the ring order, and makes it the most recent. */
  lemma TouchKeeps(f: Font, lru: seq<nat>, chains: seq<seq<nat>>, p: nat)
    requires CacheBody(f, lru, chains) && 1 <= p < |lru|
    ensures var r := Touch(f, lru[p]);
            && CacheBody(r.font, Promote(lru, p), chains)
            && r.font.data[0].nextInLru == lru[p]
  {
    var r := Touch(f, lru[p]);
    MoveToFrontRing(f.data, lru, p);
    RelinkKeeps(f, r.font, chains);
    var l' := Promote(lru, p);
    assert r.font.data[l'[0]].nextInLru == l'[0 + 1];
  }

  /** Promoting an occupied slot keeps the free slots behind the occupied
      ones. */
  lemma PromoteFreeLast(data: seq<Glyph>, data': seq<Glyph>, lru: seq<nat>, p: nat)
    requires SlotOrder(lru, |data|) && |data'| == |data| && 1 <= p < |lru| && FreeLast(data, lru)
    requires forall j :: 0 <= j < |data| && j != lru[p] ==> data'[j].hash == data[j].hash
    requires data'[lru[p]].hash != 0
    ensures FreeLast(data', Promote(lru, p))
  {
    var l' := Promote(lru, p);
    forall j, k | 1 <= j < k < |l'| && l'[j] < |data'| && l'[k] < |data'| && data'[l'[j]].hash == 0
      ensures data'[l'[k]].hash == 0
    {
      var j' := if j <= p then j - 1 else j;
      var k' := if k <= p then k - 1 else k;
      assert l'[j] == lru[j'] && l'[k] == lru[k'];
      assert lru[j'] != lru[p] && lru[k'] != lru[p];
    }
  }

  /** The bucket lists after `get_free_glyph_slot`: the evicted slot, if it
      held a codepoint, leaves its bucket's chain. */
  ghost function FreedChains(f: Font, chains: seq<seq<nat>>): seq<seq<nat>>
    requires Shape(f)
  {
    var s := f.data[0].prevInLru;
    var k := Key(f.data[s].hash, f.mask);
    if f.data[s].hash != 0 && k < |chains| then chains[k := Without(chains[k], s)] else chains
  }

  /** `get_free_glyph_slot` keeps the invariant and hands out the oldest
      slot, now free and on no chain. */
  lemma FreeSlotKeeps(f: Font, lru: seq<nat>, chains: seq<seq<nat>>)
    requires Cache(f, lru, chains)
    ensures var r := GetFreeSlot(f);
            && Cache(r.font, lru, FreedChains(f, chains))
            && r.slot == lru[|lru| - 1] && r.slot != 0
            && forall k :: 0 <= k < |chains| ==> r.slot !in FreedChains(f, chains)[k]
  {
    var r := GetFreeSlot(f);
    var s := r.slot;
    assert s == lru[|lru| - 1];
    assert s != lru[0];
    if f.data[s].hash != 0 {
      EvictKeeps(f, lru, chains);
    }
    var f' := r.font;
    var chains' := FreedChains(f, chains);
    RingKeptByLinks(f.data, f'.data, lru);
    forall j, k | 1 <= j < k < |lru| && lru[j] < |f'.data| && lru[k] < |f'.data| && f'.data[lru[j]].hash == 0
      ensures f'.data[lru[k]].hash == 0
    {
      if k != |lru| - 1 {
        assert lru[j] != s && lru[k] != s;
      }
    }
    FreeOffChains(f', chains', s);
  }

  /** A free slot is on no chain. */
  lemma FreeOffChains(f: Font, chains: seq<seq<nat>>, s: nat)
    requires ChainsHold(f, chains) && s < |f.data| && f.data[s].hash == 0
    ensures forall k :: 0 <= k < |chains| ==> s !in chains[k]
  {
  }

  /** The eviction in `get_free_glyph_slot` keeps the chains: the evicted
      slot leaves its bucket's chain and every other member stays
      reachable. */
  lemma EvictKeeps(f: Font, lru: seq<nat>, chains: seq<seq<nat>>)
    requires CacheBody(f, lru, chains)
    requires f.data[f.data[0].prevInLru].hash != 0 && f.data[0].prevInLru != 0
    ensures var r := GetFreeSlot(f);
            && SentinelEmpty(r.font.data) && ChainsHold(r.font, FreedChains(f, chains))
            && Occupied(r.font, FreedChains(f, chains)) && UniqueHashes(r.font.data) && Cells(r.font)
  {
    var s := f.data[0].prevInLru;
    var key := Key(f.data[s].hash, f.mask);
    var c := chains[key];
    var t := Unlink(Tables(f.data, f.table), key, s, |f.data|);
    var r := GetFreeSlot(f);
    var d := r.font.data;
    var chains' := FreedChains(f, chains);
    assert chains' == chains[key := Without(c, s)];
    assert s in c;
    LinkedInRange(f.data, f.table[key], c);
    DistinctBounded(c, |f.data|);
    UnlinkChain(Tables(f.data, f.table), key, c, s, |f.data|);
    assert forall j :: 0 <= j < |d| ==> d[j].nextInCollision == t.data[j].nextInCollision;
    forall k | 0 <= k < |chains'|
      ensures Linked(d, r.font.table[k], chains'[k])
    {
      if k == key {
        LinkedFrame(t.data, d, t.table[key], Without(c, s));
      } else {
        forall x | x in chains[k]
          ensures x !in c
        {
          assert Belongs(f, x, k);
          assert x in c ==> Belongs(f, x, key);
        }
        LinkedFrame(f.data, d, f.table[k], chains[k]);
      }
    }
    forall k, x | 0 <= k < |chains'| && x in chains'[k]
      ensures Belongs(r.font, x, k)
    {
      assert x in chains[k];
      assert Belongs(f, x, k);
      assert x == s ==> Belongs(f, s, key);
    }
    assert 0 !in c;
  }

  /** The bucket lists after a miss pushes slot `s` on the codepoint's
      bucket. */
  ghost function Pushed(chains: seq<seq<nat>>, key: nat, s: nat): seq<seq<nat>>
  {
    if key < |chains| then chains[key := [s] + chains[key]] else chains
  }

  /** Filling a free slot with a codepoint no slot holds, and pushing it on
      its bucket, keeps the invariant but for where free slots sit. */
  lemma InsertKeeps(f: Font, lru: seq<nat>, chains: seq<seq<nat>>, s: nat, cp: nat, raster: Raster)
    requires CacheBody(f, lru, chains) && 1 <= s < |f.data| && f.data[s].hash == 0 && cp != 0
    requires forall j :: 1 <= j < |f.data| ==> f.data[j].hash != cp
    ensures CacheBody(Insert(f, s, cp, raster), lru, Pushed(chains, Key(cp, f.mask), s))
  {
    var r := Insert(f, s, cp, raster);
    InsertLinks(f, chains, s, cp, raster);
    InsertBelongs(f, chains, s, cp, raster);
    RingKeptByLinks(f.data, r.data, lru);
    assert SentinelEmpty(r.data);
  }

  /** After an insertion every bucket heads its chain, the codepoint's
      bucket with the new slot in front. */
  lemma InsertLinks(f: Font, chains: seq<seq<nat>>, s: nat, cp: nat, raster: Raster)
    requires Shape(f) && ChainsHold(f, chains) && 1 <= s < |f.data| && f.data[s].hash == 0
    ensures var r := Insert(f, s, cp, raster);
            var chains' := Pushed(chains, Key(cp, f.mask), s);
            forall k :: 0 <= k < |chains'| ==> Linked(r.data, r.table[k], chains'[k]) && Distinct(chains'[k])
  {
    var key := Key(cp, f.mask);
    var init := InitializeGlyph(f.data[s], cp, raster, f.maxWidth, f.maxHeight, f.texX, f.texY, false);
    var d := f.data[s := init.glyph];
    var r := Insert(f, s, cp, raster);
    var chains' := Pushed(chains, key, s);
    forall k | 0 <= k < |chains|
      ensures Linked(d, f.table[k], chains[k])
      ensures s !in chains[k]
    {
      LinkedFrame(f.data, d, f.table[k], chains[k]);
    }
    PushChain(Tables(d, f.table), key, chains[key], s);
    forall k | 0 <= k < |chains'|
      ensures Linked(r.data, r.table[k], chains'[k]) && Distinct(chains'[k])
    {
      if k != key {
        LinkedFrame(d, r.data, f.table[k], chains[k]);
      }
    }
  }

  /** After an insertion every chain member holds a codepoint of its
      bucket. */
  lemma InsertBelongs(f: Font, chains: seq<seq<nat>>, s: nat, cp: nat, raster: Raster)
    requires Shape(f) && ChainsHold(f, chains) && 1 <= s < |f.data| && f.data[s].hash == 0 && cp != 0
    ensures var r := Insert(f, s, cp, raster);
            var chains' := Pushed(chains, Key(cp, f.mask), s);
            forall k, x :: 0 <= k < |chains'| && x in chains'[k] ==> Belongs(r, x, k)
  {
    var r := Insert(f, s, cp, raster);
    var chains' := Pushed(chains, Key(cp, f.mask), s);
    forall k, x | 0 <= k < |chains'| && x in chains'[k]
      ensures Belongs(r, x, k)
    {
      if x != s {
        assert x in chains[k];
        assert Belongs(f, x, k);
      }
    }
  }

  // ----- get_glyph keeps the invariant -----

  /** Where slot `s` sits in `lru`. */
  ghost function IndexOf(lru: seq<nat>, s: nat): (p: nat)
    requires s in lru
    ensures p < |lru| && lru[p] == s
  {
    if lru[0] == s then 0 else 1 + IndexOf(lru[1..], s)
  }

  /** The ring order after `get_glyph(cp)`: the slot it ends on promoted to
      the front. */
  ghost function NextOrder(f: Font, lru: seq<nat>, cp: nat): seq<nat>
    requires Shape(f)
  {
    var s := Slot(f, cp);
    if s in lru && 1 <= IndexOf(lru, s) then Promote(lru, IndexOf(lru, s)) else lru
  }

  /** The bucket lists after `get_glyph(cp)`: unchanged on a hit; on a
      miss, the oldest slot moved from its old chain to the head of the
      codepoint's. */
  ghost function NextChains(f: Font, chains: seq<seq<nat>>, cp: nat): seq<seq<nat>>
    requires Shape(f)
  {
    if Lookup(f, cp).Some? then chains
    else Pushed(FreedChains(f, chains), Key(cp, f.mask), f.data[0].prevInLru)
  }

  /** Every lookup of a codepoint other than 0 outside the ASCII block
      keeps the cache invariant, returns a glyph holding the codepoint, and
      leaves its slot the most recent. */
  lemma GetGlyphKeepsCache(f: Font, lru: seq<nat>, chains: seq<seq<nat>>, cp: nat, rasterize: nat -> Raster)
    requires Cache(f, lru, chains) && 0 < cp < 0x1_0000_0000 && !(ASCII_FIRST <= cp < ASCII_END)
    ensures var r := GetGlyph(f, cp, rasterize);
            && Cache(r.font, NextOrder(f, lru, cp), NextChains(f, chains, cp))
            && r.font.data[0].nextInLru == Slot(f, cp) != 0
            && r.glyph == r.font.data[Slot(f, cp)] && r.glyph.hash == cp
  {
    LookupFinds(f, lru, chains, cp);
    var r := GetGlyph(f, cp, rasterize);
    var s := Slot(f, cp);
    var order, chains' := NextOrder(f, lru, cp), NextChains(f, chains, cp);
    if Lookup(f, cp).Some? {
      HitKeeps(f, lru, chains, cp);
      assert r == Touch(f, s);
      assert chains' == chains;
      SameCache(Touch(f, s).font, order, chains, r.font, order, chains');
    } else {
      MissKeeps(f, lru, chains, cp, rasterize(cp));
      IndexOfLast(lru, |f.data|);
      var freed := GetFreeSlot(f);
      var t := Touch(Insert(freed.font, freed.slot, cp, rasterize(cp)), freed.slot);
      assert r == t;
      assert order == Promote(lru, |lru| - 1);
      assert chains' == Pushed(FreedChains(f, chains), Key(cp, f.mask), freed.slot);
      SameCache(t.font, Promote(lru, |lru| - 1), chains', r.font, order, chains');
    }
  }

  /** The invariant holds of equal states. */
  lemma SameCache(f: Font, lru: seq<nat>, chains: seq<seq<nat>>, f': Font, lru': seq<nat>, chains': seq<seq<nat>>)
    requires Cache(f, lru, chains) && f' == f && lru' == lru && chains' == chains
    ensures Cache(f', lru', chains')
  {
  }

  /** A hit moves the slot holding the codepoint to the front. */
  lemma HitKeeps(f: Font, lru: seq<nat>, chains: seq<seq<nat>>, cp: nat)
    requires Cache(f, lru, chains) && cp != 0 && Lookup(f, cp).Some?
    ensures var s := Lookup(f, cp).value;
            var r := Touch(f, s);
            && s != 0
            && Cache(r.font, NextOrder(f, lru, cp), chains)
            && r.font.data[0].nextInLru == s
  {
    var s := Lookup(f, cp).value;
    assert s != 0;
    assert s in lru;
    var p := IndexOf(lru, s);
    TouchKeeps(f, lru, chains, p);
    PromoteFreeLast(f.data, Touch(f, s).font.data, lru, p);
  }

  /** A miss fills the oldest slot and moves it to the front. */
  lemma MissKeeps(f: Font, lru: seq<nat>, chains: seq<seq<nat>>, cp: nat, raster: Raster)
    requires Cache(f, lru, chains) && cp != 0
    requires forall j :: 1 <= j < |f.data| ==> f.data[j].hash != cp
    ensures var freed := GetFreeSlot(f);
            var r := Touch(Insert(freed.font, freed.slot, cp, raster), freed.slot);
            && freed.slot != 0
            && Cache(r.font, Promote(lru, |lru| - 1), Pushed(FreedChains(f, chains), Key(cp, f.mask), freed.slot))
            && r.font.data[0].nextInLru == freed.slot == lru[|lru| - 1]
  {
    var freed := GetFreeSlot(f);
    var s := freed.slot;
    FreeSlotKeeps(f, lru, chains);
    var p := |lru| - 1;
    var f2 := Insert(freed.font, s, cp, raster);
    var chains2 := Pushed(FreedChains(f, chains), Key(cp, f.mask), s);
    InsertKeeps(freed.font, lru, FreedChains(f, chains), s, cp, raster);
    TouchKeeps(f2, lru, chains2, p);
    PromoteFreeLast(freed.font.data, Touch(f2, s).font.data, lru, p);
  }

  /** Two slots holding the same codepoint are one. */
  lemma SameHashSameSlot(data: seq<Glyph>, i: nat, j: nat)
    requires UniqueHashes(data) && 1 <= i < |data| && 1 <= j < |data| && data[i].hash == data[j].hash != 0
    ensures i == j
  {
  }

  /** In an order without repeats, equal entries are at one index. */
  lemma DistinctIndex(lru: seq<nat>, n: nat, q: nat, k: nat)
    requires SlotOrder(lru, n) && q < |lru| && k < |lru| && lru[q] == lru[k]
    ensures q == k
  {
  }

  /** The last slot of an order without repeats is found at the end. */
  lemma IndexOfLast(lru: seq<nat>, n: nat)
    requires SlotOrder(lru, n)
    ensures IndexOf(lru, lru[|lru| - 1]) == |lru| - 1
  {
    var q := IndexOf(lru, lru[|lru| - 1]);
    DistinctIndex(lru, n, q, |lru| - 1);
  }

  /** A miss evicts a glyph only when no slot is free. */
  lemma EvictsOnlyWhenFull(f: Font, lru: seq<nat>, chains: seq<seq<nat>>)
    requires Cache(f, lru, chains)
    ensures f.data[f.data[0].prevInLru].hash != 0 ==> forall j :: 1 <= j < |f.data| ==> f.data[j].hash != 0
  {
    var n := |lru|;
    if f.data[f.data[0].prevInLru].hash != 0 {
      forall j | 1 <= j < |f.data|
        ensures f.data[j].hash != 0
      {
        assert j in lru;
        var q := IndexOf(lru, j);
        if q != n - 1 {
          assert lru[q] != lru[0];
        }
      }
    }
  }

  // ----- codepoint 0 -----

  /** Looking up codepoint 0 while its bucket is empty matches the empty
      sentinel and moves the sentinel to the front of its own ring: it ends
      up linked only to itself, so the next miss hands out slot 0. */
  lemma SentinelLookupDetaches(f: Font, lru: seq<nat>, chains: seq<seq<nat>>, rasterize: nat -> Raster)
    requires Cache(f, lru, chains) && f.table[Key(0, f.mask)] == 0
    ensures var r := GetGlyphUnguarded(f, 0, rasterize);
            && r.font.data[0].nextInLru == 0 && r.font.data[0].prevInLru == 0
            && r.glyph.hash == 0
            && GetFreeSlot(r.font).slot == 0
  {
    assert Lookup(f, 0) == Some(0);
    var first := f.data[0].nextInLru;
    assert first == lru[1] != 0;
    var last := f.data[0].prevInLru;
    assert last == lru[|lru| - 1] != 0;
    var d := Detach(f.data, 0);
    assert d[0].nextInLru == first;
  }
}
