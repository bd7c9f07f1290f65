/**
 * The drawing surface of `impl Widget for &Matrix` (src/matrix/mod.rs): a
 * grid of cells, each with a symbol and a foreground colour, and the
 * destination rectangle. The functions here say what `render` leaves in each
 * cell of the surface.
 */
module Canvas {
  import opened Wrappers
  import opened FadingCharacter
  import opened HotCharacter
  import opened MatrixSpec

  datatype Color = Rgb(r: nat, g: nat, b: nat)

  /** A cell of the surface: its symbol and its foreground colour. */
  datatype BufferCell = BufferCell(symbol: char, fg: Color)

  /** The destination rectangle: origin and size. */
  datatype Rect = Rect(x: nat, y: nat, width: nat, height: nat)

  const White: Color := Rgb(MaxBrightness, MaxBrightness, MaxBrightness)

  /** The colour of a glyph: green at its brightness. */
  function GlyphColor(f: FadingChar): (c: Color)
    ensures c.r == 0 && c.b == 0 && c.g <= MaxBrightness
  {
    Rgb(0, Brightness(f), 0)
  }

  /**
   * The glyph pass at surface position `(i, j)`: the glyph of grid cell
   * `(i - area.x, j - area.y)`, drawn only when that cell lies within
   * `area.width` by `area.height`.
   */
  function GlyphLayer(g: Columns, area: Rect, i: int, j: int, under: BufferCell): BufferCell
  {
    var x, y := i - area.x, j - area.y;
    if 0 <= x < |g| && 0 <= y < |g[x]| && x < area.width && y < area.height && g[x][y].Some? then
      BufferCell(g[x][y].value.c, GlyphColor(g[x][y].value))
    else under
  }

  /**
   * The head pass draws `h` at `(i, j)`. The clip test compares the position
   * AFTER adding the origin of `area` with `area.width` and `area.height`.
   */
  predicate HeadDrawnAt(h: HotChar, area: Rect, i: int, j: int)
  {
    var hx, hy := h.x + area.x, SaturatingFloor(h.y) + area.y;
    hx < area.width && hy < area.height && i == hx && j == hy
  }

  /** The head pass over `hs` in order, on top of `under`: the last head drawn at a position wins. */
  function HeadLayer(hs: seq<HotChar>, area: Rect, i: int, j: int, under: BufferCell): (r: BufferCell)
    ensures r == under || r.fg == White
    ensures (exists m :: 0 <= m < |hs| && HeadDrawnAt(hs[m], area, i, j)) ==> r.fg == White
    decreases |hs|
  {
    if hs == [] then under
    else if HeadDrawnAt(hs[|hs| - 1], area, i, j) then BufferCell(hs[|hs| - 1].c, White)
    else HeadLayer(hs[..|hs| - 1], area, i, j, under)
  }

  /** What `render` leaves at `(i, j)` of a surface that held `under` there. */
  function Rendered(g: Columns, hs: seq<HotChar>, area: Rect, i: int, j: int, under: BufferCell): (r: BufferCell)
    ensures r == under || r.fg == White || (r.fg.r == 0 && r.fg.b == 0 && r.fg.g <= MaxBrightness)
  {
    HeadLayer(hs, area, i, j, GlyphLayer(g, area, i, j, under))
  }

  /** Rendering never changes a cell outside the destination rectangle. */
  lemma {:induction false} RenderedStaysInArea(g: Columns, hs: seq<HotChar>, area: Rect, i: int, j: int, under: BufferCell)
    requires !(area.x <= i < area.x + area.width && area.y <= j < area.y + area.height)
    ensures Rendered(g, hs, area, i, j, under) == under
    decreases |hs|
  {
    if hs != [] {
      RenderedStaysInArea(g, hs[..|hs| - 1], area, i, j, under);
    }
  }

  /** A head drawn at a position overrides whatever glyph is there: the last such head shows, in white. */
  lemma {:induction false} HeadOverridesGlyph(g: Columns, hs: seq<HotChar>, area: Rect, i: int, j: int,
                                              under: BufferCell, k: nat)
    requires k < |hs| && HeadDrawnAt(hs[k], area, i, j)
    requires forall m :: k < m < |hs| ==> !HeadDrawnAt(hs[m], area, i, j)
    ensures Rendered(g, hs, area, i, j, under) == BufferCell(hs[k].c, White)
    decreases |hs|
  {
    if k < |hs| - 1 {
      var init := hs[..|hs| - 1];
      assert forall m :: k < m < |init| ==> init[m] == hs[m];
      HeadOverridesGlyph(g, init, area, i, j, under, k);
    }
  }

  /** Where no head is drawn, the glyph pass shows through unchanged. */
  lemma {:induction false} GlyphShowsWithoutHead(g: Columns, hs: seq<HotChar>, area: Rect, i: int, j: int, under: BufferCell)
    requires forall m :: 0 <= m < |hs| ==> !HeadDrawnAt(hs[m], area, i, j)
    ensures Rendered(g, hs, area, i, j, under) == GlyphLayer(g, area, i, j, under)
    decreases |hs|
  {
    if hs != [] {
      var init := hs[..|hs| - 1];
      assert forall m :: 0 <= m < |init| ==> init[m] == hs[m];
      GlyphShowsWithoutHead(g, init, area, i, j, under);
    }
  }

  /**
   * The head clip is at least as strict as the glyph clip: a head is drawn
   * only when its grid column and row lie within `area.width` and
   * `area.height`. On a rectangle at the origin, the only one the program
   * renders into, the two clips coincide.
   */
  lemma HeadClipWithinGlyphClip(h: HotChar, area: Rect)
    ensures HeadDrawnAt(h, area, h.x + area.x, SaturatingFloor(h.y) + area.y) ==>
              h.x < area.width && SaturatingFloor(h.y) < area.height
    ensures area.x == 0 && area.y == 0 ==>
              (HeadDrawnAt(h, area, h.x, SaturatingFloor(h.y)) <==> h.x < area.width && SaturatingFloor(h.y) < area.height)
  {
  }

  /**
   * With `area.x > 0` a head near the right edge of the rectangle is clipped
   * although a glyph in the same grid cell is drawn: here grid column 1 of a
   * rectangle at x = 1 that is 2 columns wide.
   */
  lemma HeadClipLosesRightEdge(g: Columns, h: HotChar, area: Rect, under: BufferCell)
    requires area == Rect(1, 0, 2, 1) && h.x == 1 && 0.0 <= h.y < 1.0
    requires |g| == 2 && |g[1]| == 1 && g[1][0].Some?
    requires under.symbol != g[1][0].value.c
    ensures GlyphLayer(g, area, h.x + area.x, area.y, under) != under
    ensures !HeadDrawnAt(h, area, h.x + area.x, SaturatingFloor(h.y) + area.y)
  {
  }
}
