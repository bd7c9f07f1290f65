/**
 * `Matrix` (src/matrix/mod.rs): the animation state. It owns the column-major
 * grid of fading glyphs and the list of stream heads, updates both in place
 * once per tick, resizes the grid, and renders both layers into a surface.
 */
module Matrix {
  import opened Wrappers
  import opened Katakana
  import opened FadingCharacter
  import opened HotCharacter
  import opened MatrixSpec
  import opened Canvas

  class Matrix {
    var fadingChars: Columns
    var hotChars: seq<HotChar>
    var width: nat
    var height: nat

    /**
     * The invariant every public operation keeps: the grid is `width` by
     * `height`, holds no faded glyph, and the streams are well formed with
     * the oldest first.
     */
    ghost predicate Valid()
      reads this
    {
      IsGrid(fadingChars, width, height) && NoFaded(fadingChars) && StreamsOk(hotChars)
    }

    /** `Matrix::new`: `width` empty columns of `height` cells, no streams. */
    constructor (width: nat, height: nat)
      ensures Valid()
      ensures this.width == width && this.height == height
      ensures IsGrid(fadingChars, width, height)
      ensures forall x, y :: 0 <= x < width && 0 <= y < height ==> fadingChars[x][y] == None
      ensures hotChars == []
    {
      fadingChars := EmptyGrid(width, height);
      hotChars := [];
      this.width := width;
      this.height := height;
    }

    /** One pass over every cell, updating it in place. */
    method UpdateCells(u: CellUpdate)
      modifies this`fadingChars
      ensures fadingChars == MapCells(old(fadingChars), u)
    {
      ghost var g0 := fadingChars;
      var x := 0;
      while x < |fadingChars|
        invariant 0 <= x <= |fadingChars| == |g0|
        invariant forall i :: 0 <= i < x ==> fadingChars[i] == MapCells(g0, u)[i]
        invariant forall i :: x <= i < |g0| ==> fadingChars[i] == g0[i]
      {
        var col := fadingChars[x];
        var y := 0;
        while y < |col|
          invariant 0 <= y <= |col| == |g0[x]|
          invariant forall j :: 0 <= j < y ==> col[j] == UpdateCell(u, x, j, g0[x][j])
          invariant forall j :: y <= j < |col| ==> col[j] == g0[x][j]
        {
          col := col[y := UpdateCell(u, x, y, col[y])];
          y := y + 1;
        }
        assert col == MapCells(g0, u)[x];
        fadingChars := fadingChars[x := col];
        x := x + 1;
      }
      assert fadingChars == MapCells(g0, u);
    }

    /** Step 3 of `tick`: every stream ticks, and drops a glyph when it enters a new row inside the grid. */
    method AdvanceStreams(headChar: nat -> Katakana, tailChar: nat -> Katakana)
      requires IsGrid(fadingChars, width, height)
      modifies this`fadingChars, this`hotChars
      ensures hotChars == Advanced(old(hotChars), headChar)
      ensures fadingChars == Deposit(old(fadingChars), Events(old(hotChars), headChar), tailChar, width, height)
    {
      ghost var g0, hs0 := fadingChars, hotChars;
      ghost var evs := Events(hs0, headChar);
      var i := 0;
      while i < |hotChars|
        invariant 0 <= i <= |hotChars| == |hs0|
        invariant forall k :: 0 <= k < i ==> hotChars[k] == Advanced(hs0, headChar)[k]
        invariant forall k :: i <= k < |hs0| ==> hotChars[k] == hs0[k]
        invariant fadingChars == Deposit(g0, evs[..i], tailChar, width, height)
      {
        var step := HotCharacter.Tick(hotChars[i], headChar(i));
        hotChars := hotChars[i := step.next];
        match step.spawn {
          case Some(s) =>
            if s.x < width && s.y < height {
              fadingChars := fadingChars[s.x := fadingChars[s.x][s.y := Some(FadingCharacter.New(s.ticksToLive, tailChar(i)))]];
            }
          case None =>
        }
        assert evs[..i + 1][..i] == evs[..i];
        i := i + 1;
      }
      assert evs[..i] == evs;
      assert hotChars == Advanced(hs0, headChar);
    }

    /**
     * `Matrix::tick`: age every glyph, prune the faded ones, let every stream
     * tick and drop its glyph, maybe spawn one stream, and drop the streams
     * that have fallen below the grid. `r` holds the random draws.
     */
    method Tick(r: Draws)
      requires Valid() && DrawsInRange(r, width, height)
      modifies this
      ensures Valid()
      ensures width == old(width) && height == old(height)
      ensures fadingChars == TickedGrid(old(fadingChars), old(hotChars), width, height, r)
      ensures hotChars == TickedStreams(old(hotChars), height, r)
      ensures |hotChars| <= |old(hotChars)| + 1
      ensures forall h :: h in hotChars ==> h.y < height as real
    {
      ghost var g0, hs0 := fadingChars, hotChars;
      UpdateCells(AgeGlyphs(r.swap));
      UpdateCells(PruneFaded);
      AdvanceStreams(r.headChar, r.tailChar);
      match r.spawn {
        case Some(d) =>
          hotChars := hotChars + [HotCharacter.New(d.x, d.speed, d.maxLen, d.c)];
        case None =>
      }
      assert hotChars == Advanced(hs0, r.headChar) + Spawned(r.spawn);
      hotChars := Retain(hotChars, height as real);
      assert hotChars == TickedStreams(hs0, height, r);
      TickedGridNoFaded(g0, hs0, width, height, r);
      TickedStreamsOk(hs0, width, height, r);
    }

    /**
     * `Matrix::resize`: the outer vector is truncated or extended with empty
     * columns, then every column is truncated or extended with `None`.
     */
    method Resize(w: nat, h: nat)
      requires Valid()
      modifies this
      ensures Valid()
      ensures width == w && height == h && hotChars == old(hotChars)
      ensures fadingChars == Resized(old(fadingChars), w, h)
      ensures forall x, y :: 0 <= x < w && 0 <= y < h ==>
                fadingChars[x][y] == if x < old(width) && y < old(height) then old(fadingChars)[x][y] else None
    {
      ghost var g0 := fadingChars;
      width := w;
      height := h;
      if |fadingChars| > w {
        fadingChars := fadingChars[..w];
      } else {
        fadingChars := fadingChars + seq(w - |fadingChars|, _ => seq(h, _ => None));
      }
      ghost var outer := fadingChars;
      var x := 0;
      while x < |fadingChars|
        invariant 0 <= x <= |fadingChars| == w
        invariant forall i :: 0 <= i < x ==> fadingChars[i] == FitColumn(outer[i], h)
        invariant forall i :: x <= i < w ==> fadingChars[i] == outer[i]
        invariant width == w && height == h && hotChars == old(hotChars)
      {
        var col := fadingChars[x];
        if |col| > h {
          col := col[..h];
        } else {
          col := col + seq(h - |col|, _ => None);
        }
        fadingChars := fadingChars[x := col];
        x := x + 1;
      }
      assert fadingChars == Resized(g0, w, h);
      ResizeKeepsOverlap(g0, old(width), old(height), w, h);
    }

    /**
     * `render`: draw every glyph within the rectangle in green at its
     * brightness, then every head that passes its clip test in white.
     * The background fill is not modelled.
     */
    method Render(buf: array2<BufferCell>, area: Rect)
      requires area.x + area.width <= buf.Length0 && area.y + area.height <= buf.Length1
      modifies buf
      ensures forall i, j :: 0 <= i < buf.Length0 && 0 <= j < buf.Length1 ==>
                buf[i, j] == Rendered(fadingChars, hotChars, area, i, j, old(buf[i, j]))
    {
      var x := 0;
      while x < |fadingChars|
        invariant 0 <= x <= |fadingChars|
        invariant forall i, j :: 0 <= i < buf.Length0 && 0 <= j < buf.Length1 ==>
                    buf[i, j] == if i - area.x < x then GlyphLayer(fadingChars, area, i, j, old(buf[i, j])) else old(buf[i, j])
      {
        var col := fadingChars[x];
        var y := 0;
        while y < |col|
          invariant 0 <= y <= |col|
          invariant forall i, j :: 0 <= i < buf.Length0 && 0 <= j < buf.Length1 ==>
                      buf[i, j] == if i - area.x < x || (i - area.x == x && j - area.y < y)
                                   then GlyphLayer(fadingChars, area, i, j, old(buf[i, j])) else old(buf[i, j])
        {
          match col[y] {
            case Some(f) =>
              if x < area.width && y < area.height {
                buf[x + area.x, y + area.y] := BufferCell(f.c, GlyphColor(f));
              }
            case None =>
          }
          y := y + 1;
        }
        x := x + 1;
      }
      var k := 0;
      while k < |hotChars|
        invariant 0 <= k <= |hotChars|
        invariant forall i, j :: 0 <= i < buf.Length0 && 0 <= j < buf.Length1 ==>
                    buf[i, j] == HeadLayer(hotChars[..k], area, i, j, GlyphLayer(fadingChars, area, i, j, old(buf[i, j])))
      {
        var h := hotChars[k];
        var hx := h.x + area.x;
        var hy := SaturatingFloor(h.y) + area.y;
        if hx < area.width && hy < area.height {
          buf[hx, hy] := BufferCell(h.c, White);
        }
        assert hotChars[..k + 1][..k] == hotChars[..k];
        k := k + 1;
      }
      assert hotChars[..k] == hotChars;
    }
  }
}
