/** The glyph records of `app_glyph_cache.h` and how one is filled in from
    the rasterizer, which is a parameter of the model. */
module Glyphs {

  /** `Glyph_Status`. A cleared slot is `Empty`. */
  datatype Status = Empty | Invalid | OnlyMetrics | Loaded

  /** `Glyph`: its cell in the glyph texture, its bitmap size and offset,
      its advance, its status, the codepoint it holds (`hash`, 0 for a free
      slot), and the three 16-bit links: the next slot in its hash chain and
      the neighbours in the LRU ring. */
  datatype Glyph = Glyph(
    texX: nat, texY: nat,
    width: nat, height: nat,
    offsetX: int, offsetY: int,
    advance: real,
    status: Status,
    hash: nat,
    nextInCollision: nat, nextInLru: nat, prevInLru: nat)

  /** A glyph whose every field is zero, as freshly allocated memory holds. */
  const ZERO_GLYPH: Glyph := Glyph(0, 0, 0, 0, 0, 0, 0.0, Empty, 0, 0, 0, 0)

  /** What the rasterizer reports for one codepoint: its glyph index (0 when
      the font has none), whether it produced a bitmap, the bitmap's size
      and offset, and the advance already scaled to pixels. */
  datatype Raster = Raster(glyphIndex: int, hasBitmap: bool, width: int, height: int,
                           offsetX: int, offsetY: int, advance: real)

  /** The conversion `(u16)x`: the value modulo 2^16. */
  function U16(x: int): (r: nat)
    ensures r < 0x1_0000
    ensures 0 <= x < 0x1_0000 ==> r == x
  {
    x % 0x1_0000
  }

  /** The conversion `(s16)x`: the value wrapped into `[-2^15, 2^15)`. */
  function S16(x: int): (r: int)
    ensures -0x8000 <= r < 0x8000
    ensures -0x8000 <= x < 0x8000 ==> r == x
  {
    (x + 0x8000) % 0x1_0000 - 0x8000
  }

  /** `clear_glyph_font_data`: forget the glyph's bitmap, metrics, status and
      codepoint, keeping its texture cell and its links. */
  function ClearGlyphFontData(g: Glyph): (r: Glyph)
    ensures r.hash == 0 && r.status == Empty && r.width == 0 && r.height == 0
    ensures r.advance == 0.0 && r.offsetX == 0 && r.offsetY == 0
    ensures r.texX == g.texX && r.texY == g.texY
    ensures r.nextInCollision == g.nextInCollision
    ensures r.nextInLru == g.nextInLru && r.prevInLru == g.prevInLru
  {
    g.(width := 0, height := 0, offsetX := 0, offsetY := 0, advance := 0.0,
       status := Empty, hash := 0)
  }

  /** The status `initialize_glyph` decides: no glyph in the font is
      `Invalid`; a bitmap strictly smaller than the font's largest cell is
      `Loaded`; otherwise a glyph that still advances the pen is
      `OnlyMetrics`; and anything else is `Invalid`. */
  function Resolve(r: Raster, maxWidth: nat, maxHeight: nat): (s: Status)
  {
    if r.glyphIndex <= 0 then Invalid
    else if r.hasBitmap && 0 < r.width < maxWidth && 0 < r.height < maxHeight then Loaded
    else if r.advance != 0.0 then OnlyMetrics
    else Invalid
  }

  /** The glyph `initialize_glyph` leaves, and the font's texture pen after
      it. */
  datatype Initialized = Initialized(glyph: Glyph, penX: nat)

  /** `initialize_glyph`: clear the glyph, record the codepoint, and copy the
      rasterizer's metrics when the font has the glyph. With
      `incrementTexturePosition` (the ASCII block) a loaded glyph takes the
      pen position as its cell and moves the pen past its width; otherwise
      the glyph keeps the cell it has. */
  function InitializeGlyph(g: Glyph, codepoint: nat, r: Raster, maxWidth: nat, maxHeight: nat,
                           penX: nat, penY: nat, incrementTexturePosition: bool): (res: Initialized)
    ensures res.glyph.hash == codepoint
    ensures res.glyph.status == Resolve(r, maxWidth, maxHeight)
    ensures res.glyph.nextInCollision == g.nextInCollision
    ensures res.glyph.nextInLru == g.nextInLru && res.glyph.prevInLru == g.prevInLru
    ensures !incrementTexturePosition ==>
              res.glyph.texX == g.texX && res.glyph.texY == g.texY && res.penX == penX
  {
    var cleared := ClearGlyphFontData(g).(hash := codepoint);
    if r.glyphIndex > 0 then
      var measured := cleared.(offsetX := S16(r.offsetX), offsetY := S16(r.offsetY),
                               width := U16(r.width), height := U16(r.height),
                               advance := r.advance);
      if r.hasBitmap && 0 < r.width < maxWidth && 0 < r.height < maxHeight then
        if incrementTexturePosition then
          Initialized(measured.(status := Loaded, texX := penX, texY := penY),
                      U16(penX + U16(r.width) + 1))
        else
          Initialized(measured.(status := Loaded), penX)
      else if measured.advance != 0.0 then
        Initialized(measured.(status := OnlyMetrics), penX)
      else
        Initialized(measured.(status := Invalid), penX)
    else
      Initialized(cleared.(status := Invalid), penX)
  }

  /** An initialized glyph is never `Empty`; it is `Loaded` exactly when its
      bitmap fits strictly inside a cell of the font's largest size, and its
      recorded size is then the rasterizer's, so it fits its cell. */
  lemma InitializedStatus(g: Glyph, codepoint: nat, r: Raster, maxWidth: nat, maxHeight: nat,
                          penX: nat, penY: nat, increment: bool)
    ensures var res := InitializeGlyph(g, codepoint, r, maxWidth, maxHeight, penX, penY, increment);
            && res.glyph.status != Empty
            && (res.glyph.status == Loaded <==>
                  r.glyphIndex > 0 && r.hasBitmap && 0 < r.width < maxWidth && 0 < r.height < maxHeight)
            && (res.glyph.status == OnlyMetrics ==> r.glyphIndex > 0 && res.glyph.advance != 0.0)
            && (res.glyph.status == Invalid ==> r.glyphIndex <= 0 || res.glyph.advance == 0.0)
            && (res.glyph.status == Loaded && maxWidth <= 0x1_0000 && maxHeight <= 0x1_0000 ==>
                  0 < res.glyph.width < maxWidth && 0 < res.glyph.height < maxHeight)
  {
  }

  /** With the pen moving (the ASCII block), a loaded glyph's cell starts at
      the pen and the pen moves one column past the bitmap; anything else
      leaves the pen where it was. */
  lemma InitializeGlyphMovesPen(g: Glyph, codepoint: nat, r: Raster, maxWidth: nat, maxHeight: nat,
                                penX: nat, penY: nat)
    requires penX + maxWidth < 0x1_0000
    ensures var res := InitializeGlyph(g, codepoint, r, maxWidth, maxHeight, penX, penY, true);
            if res.glyph.status == Loaded then
              && res.glyph.texX == penX && res.glyph.texY == penY
              && res.penX == penX + res.glyph.width + 1
              && res.penX <= penX + maxWidth
            else res.penX == penX
  {
  }
}
