/**
 * The state transitions of the animation grid in src/matrix/mod.rs, stated
 * as functions on values. The `Matrix` class performs them in place; the
 * lemmas here say what they mean.
 *
 * The grid is column-major, indexed `[x][y]`, like the source's
 * `Vec<Vec<Option<FadingChar>>>`.
 */
module MatrixSpec {
  import opened Wrappers
  import opened Katakana
  import opened FadingCharacter
  import opened HotCharacter

  type Columns = seq<seq<Option<FadingChar>>>

  /** Lower bound, inclusive, of the speed of a new stream (`0.05..0.5`). */
  const MinSpeed: real := 0.05
  /** Upper bound, exclusive, of the speed of a new stream. */
  const MaxSpeed: real := 0.5
  /** Rows of the grid height that do not count towards the tail length. */
  const TailMargin: nat := 8

  /** `w` columns of `h` cells each. */
  predicate IsGrid(g: Columns, w: nat, h: nat)
  {
    |g| == w && forall x :: 0 <= x < |g| ==> |g[x]| == h
  }

  /** No cell holds a glyph that `has_faded`. */
  predicate NoFaded(g: Columns)
  {
    forall x, y :: 0 <= x < |g| && 0 <= y < |g[x]| && g[x][y].Some? ==> !HasFaded(g[x][y].value)
  }

  /** `vec![vec![None; h]; w]`. */
  function EmptyGrid(w: nat, h: nat): (g: Columns)
    ensures IsGrid(g, w, h) && NoFaded(g)
    ensures forall x, y :: 0 <= x < w && 0 <= y < h ==> g[x][y] == None
  {
    seq(w, _ => seq(h, _ => None))
  }

  // ---------------------------------------------------------------------------
  // The random draws of one tick
  // ---------------------------------------------------------------------------

  /** The outcome of the spawn step when its 0.1 coin comes up. */
  datatype SpawnDraw = SpawnDraw(x: nat, speed: real, maxLen: nat, c: Katakana)

  /**
   * Everything `tick` takes from the random generator:
   * `swap(x, y)` is the 0.002 character change of the glyph at `(x, y)`;
   * `headChar(i)` the character stream `i` takes when its change counter
   * wraps; `tailChar(i)` the character of the glyph stream `i` drops;
   * `spawn` the new stream, if the spawn coin comes up.
   */
  datatype Draws = Draws(
    swap: (nat, nat) -> Option<Katakana>,
    headChar: nat -> Katakana,
    tailChar: nat -> Katakana,
    spawn: Option<SpawnDraw>)

  /** `usize::saturating_sub`. */
  function SaturatingSub(a: nat, b: nat): nat
  {
    if a > b then a - b else 0
  }

  /** The inclusive upper end of `1..=height.saturating_sub(8) + 1`. */
  function MaxTailLen(height: nat): (n: nat)
    ensures n >= 1
    ensures height <= TailMargin ==> n == 1
    ensures height > TailMargin ==> n == height - TailMargin + 1
  {
    SaturatingSub(height, TailMargin) + 1
  }

  /**
   * The ranges of `gen_range(0..width)`, `gen_range(0.05..0.5)` and
   * `gen_range(1..=height.saturating_sub(8) + 1)`. With `width == 0` no draw
   * is in range: there the source's `gen_range(0..0)` panics.
   */
  predicate SpawnInRange(d: SpawnDraw, width: nat, height: nat)
  {
    d.x < width && MinSpeed <= d.speed < MaxSpeed && 1 <= d.maxLen <= MaxTailLen(height)
  }

  predicate DrawsInRange(r: Draws, width: nat, height: nat)
  {
    r.spawn.Some? ==> SpawnInRange(r.spawn.value, width, height)
  }

  // ---------------------------------------------------------------------------
  // Steps 1 and 2 of tick: age every glyph, then prune the faded ones
  // ---------------------------------------------------------------------------

  datatype CellUpdate = AgeGlyphs(swap: (nat, nat) -> Option<Katakana>) | PruneFaded

  function UpdateCell(u: CellUpdate, x: nat, y: nat, cell: Option<FadingChar>): Option<FadingChar>
  {
    match u
    case AgeGlyphs(swap) =>
      (match cell
       case Some(f) => Some(FadingCharacter.Tick(f, swap(x, y)))
       case None => None)
    case PruneFaded =>
      if cell.Some? && HasFaded(cell.value) then None else cell
  }

  /** One pass over every cell of the grid. */
  function MapCells(g: Columns, u: CellUpdate): (r: Columns)
    ensures |r| == |g|
    ensures forall x :: 0 <= x < |g| ==> |r[x]| == |g[x]|
    ensures forall x, y :: 0 <= x < |g| && 0 <= y < |g[x]| ==> r[x][y] == UpdateCell(u, x, y, g[x][y])
  {
    seq(|g|, x requires 0 <= x < |g| =>
      seq(|g[x]|, y requires 0 <= y < |g[x]| => UpdateCell(u, x, y, g[x][y])))
  }

  /** Pruning removes exactly the faded glyphs and keeps every other cell. */
  lemma PruneRemovesExactlyFaded(g: Columns)
    ensures NoFaded(MapCells(g, PruneFaded))
    ensures forall x, y :: 0 <= x < |g| && 0 <= y < |g[x]| ==>
              (MapCells(g, PruneFaded)[x][y] == None <==> g[x][y] == None || HasFaded(g[x][y].value))
    ensures forall x, y :: 0 <= x < |g| && 0 <= y < |g[x]| && MapCells(g, PruneFaded)[x][y].Some? ==>
              MapCells(g, PruneFaded)[x][y] == g[x][y]
  {
  }

  // ---------------------------------------------------------------------------
  // Step 3 of tick: every stream advances and may drop a glyph
  // ---------------------------------------------------------------------------

  /** Every stream after its own tick. */
  function Advanced(hs: seq<HotChar>, headChar: nat -> Katakana): (r: seq<HotChar>)
    ensures |r| == |hs|
    ensures forall i :: 0 <= i < |hs| ==> r[i] == HotCharacter.Tick(hs[i], headChar(i)).next
  {
    seq(|hs|, i requires 0 <= i < |hs| => HotCharacter.Tick(hs[i], headChar(i)).next)
  }

  /** The events the streams report during their ticks, in stream order. */
  function Events(hs: seq<HotChar>, headChar: nat -> Katakana): (r: seq<Option<Spawn>>)
    ensures |r| == |hs|
    ensures forall i :: 0 <= i < |hs| ==> r[i] == HotCharacter.Tick(hs[i], headChar(i)).spawn
  {
    seq(|hs|, i requires 0 <= i < |hs| => HotCharacter.Tick(hs[i], headChar(i)).spawn)
  }

  /** The event asks for a glyph at `(x, y)`. */
  predicate Targets(ev: Option<Spawn>, x: nat, y: nat)
  {
    ev.Some? && ev.value.x == x && ev.value.y == y
  }

  /** Event `i` is the last of `evs` that targets `(x, y)`. */
  predicate LastTarget(evs: seq<Option<Spawn>>, i: nat, x: nat, y: nat)
  {
    i < |evs| && Targets(evs[i], x, y) && forall j :: i < j < |evs| ==> !Targets(evs[j], x, y)
  }

  /**
   * One event: a new glyph at the event's cell, overwriting what was there,
   * when `x < width && y < height`; an event outside the grid is dropped.
   */
  function Place(g: Columns, ev: Option<Spawn>, c: Katakana, w: nat, h: nat): (r: Columns)
    requires IsGrid(g, w, h)
    ensures IsGrid(r, w, h)
    ensures forall x, y :: 0 <= x < w && 0 <= y < h ==>
              r[x][y] == if Targets(ev, x, y) then Some(FadingCharacter.New(ev.value.ticksToLive, c)) else g[x][y]
  {
    match ev
    case Some(s) =>
      if s.x < w && s.y < h then g[s.x := g[s.x][s.y := Some(FadingCharacter.New(s.ticksToLive, c))]]
      else g
    case None => g
  }

  /** The events in order; event `i` takes its glyph's character from `tailChar(i)`. */
  function Deposit(g: Columns, evs: seq<Option<Spawn>>, tailChar: nat -> Katakana, w: nat, h: nat): (r: Columns)
    requires IsGrid(g, w, h)
    ensures IsGrid(r, w, h)
    decreases |evs|
  {
    if evs == [] then g
    else Place(Deposit(g, evs[..|evs| - 1], tailChar, w, h), evs[|evs| - 1], tailChar(|evs| - 1), w, h)
  }

  /** A cell that no event targets keeps what it held. */
  lemma {:induction false} DepositUntouched(g: Columns, evs: seq<Option<Spawn>>, tailChar: nat -> Katakana,
                                            w: nat, h: nat, x: nat, y: nat)
    requires IsGrid(g, w, h) && x < w && y < h
    requires forall i :: 0 <= i < |evs| ==> !Targets(evs[i], x, y)
    ensures Deposit(g, evs, tailChar, w, h)[x][y] == g[x][y]
    decreases |evs|
  {
    if evs != [] {
      var n := |evs|;
      var init := evs[..n - 1];
      assert forall i :: 0 <= i < n - 1 ==> init[i] == evs[i];
      DepositUntouched(g, init, tailChar, w, h, x, y);
    }
  }

  /** A targeted cell holds a new glyph from the last event that targets it. */
  lemma {:induction false} DepositLastTarget(g: Columns, evs: seq<Option<Spawn>>, tailChar: nat -> Katakana,
                                             w: nat, h: nat, x: nat, y: nat, i: nat)
    requires IsGrid(g, w, h) && x < w && y < h
    requires LastTarget(evs, i, x, y)
    ensures Deposit(g, evs, tailChar, w, h)[x][y] == Some(FadingCharacter.New(evs[i].value.ticksToLive, tailChar(i)))
    decreases |evs|
  {
    var n := |evs|;
    var init := evs[..n - 1];
    if i < n - 1 {
      assert forall j :: i <= j < n - 1 ==> init[j] == evs[j];
      assert LastTarget(init, i, x, y);
      DepositLastTarget(g, init, tailChar, w, h, x, y, i);
    }
  }

  /** Glyphs that events drop are never faded, as long as their lifetimes are not negative. */
  lemma {:induction false} DepositKeepsNoFaded(g: Columns, evs: seq<Option<Spawn>>, tailChar: nat -> Katakana,
                                               w: nat, h: nat)
    requires IsGrid(g, w, h) && NoFaded(g)
    requires forall i :: 0 <= i < |evs| && evs[i].Some? ==> evs[i].value.ticksToLive >= 0.0
    ensures NoFaded(Deposit(g, evs, tailChar, w, h))
    decreases |evs|
  {
    if evs != [] {
      DepositKeepsNoFaded(g, evs[..|evs| - 1], tailChar, w, h);
    }
  }

  // ---------------------------------------------------------------------------
  // Steps 4 and 5 of tick: spawn at most one stream, retain the visible ones
  // ---------------------------------------------------------------------------

  /** The stream that the spawn step pushes, if any. */
  function Spawned(spawn: Option<SpawnDraw>): (r: seq<HotChar>)
    requires spawn.Some? ==> spawn.value.speed > 0.0
    ensures |r| <= 1
  {
    match spawn
    case Some(d) => [HotCharacter.New(d.x, d.speed, d.maxLen, d.c)]
    case None => []
  }

  /** `Vec::retain` with `smaller_than(height)`: the streams still above the bottom, in order. */
  function Retain(hs: seq<HotChar>, height: real): (r: seq<HotChar>)
    ensures |r| <= |hs|
    ensures forall h :: h in r <==> h in hs && SmallerThan(h, height)
  {
    if hs == [] then []
    else (if SmallerThan(hs[0], height) then [hs[0]] else []) + Retain(hs[1..], height)
  }

  /** `retain` keeps the order of the streams it keeps. */
  lemma {:induction false} RetainAppend(a: seq<HotChar>, b: seq<HotChar>, height: real)
    ensures Retain(a + b, height) == Retain(a, height) + Retain(b, height)
  {
    if a != [] {
      RetainAppend(a[1..], b, height);
      assert (a + b)[1..] == a[1..] + b;
    } else {
      assert a + b == b;
    }
  }

  // ---------------------------------------------------------------------------
  // One whole tick
  // ---------------------------------------------------------------------------

  /** The grid after `tick`: aged, pruned, then the streams' events placed. */
  function TickedGrid(g: Columns, hs: seq<HotChar>, w: nat, h: nat, r: Draws): (t: Columns)
    requires IsGrid(g, w, h)
    ensures IsGrid(t, w, h)
  {
    Deposit(MapCells(MapCells(g, AgeGlyphs(r.swap)), PruneFaded), Events(hs, r.headChar), r.tailChar, w, h)
  }

  /** The streams after `tick`: advanced, the new one pushed, the fallen ones dropped. */
  function TickedStreams(hs: seq<HotChar>, h: nat, r: Draws): (t: seq<HotChar>)
    requires r.spawn.Some? ==> r.spawn.value.speed > 0.0
    ensures |t| <= |hs| + 1
    ensures forall k :: 0 <= k < |t| ==> t[k].y < h as real
  {
    var t := Retain(Advanced(hs, r.headChar) + Spawned(r.spawn), h as real);
    assert forall k :: 0 <= k < |t| ==> t[k] in t;
    t
  }

  /**
   * A glyph that no stream overwrites is one tick older after `tick` and
   * survives iff its new age is at most its lifetime; an empty cell that no
   * stream writes stays empty.
   */
  lemma TickedGridUntouchedCell(g: Columns, hs: seq<HotChar>, w: nat, h: nat, r: Draws, x: nat, y: nat)
    requires IsGrid(g, w, h) && x < w && y < h
    requires forall i :: 0 <= i < |hs| ==> !Targets(HotCharacter.Tick(hs[i], r.headChar(i)).spawn, x, y)
    ensures g[x][y] == None ==> TickedGrid(g, hs, w, h, r)[x][y] == None
    ensures g[x][y].Some? ==>
              var aged := FadingCharacter.Tick(g[x][y].value, r.swap(x, y));
              aged.elapsedTicks == g[x][y].value.elapsedTicks + 1 &&
              TickedGrid(g, hs, w, h, r)[x][y] == if aged.elapsedTicks as real <= aged.ticksToLive then Some(aged) else None
  {
    var pruned := MapCells(MapCells(g, AgeGlyphs(r.swap)), PruneFaded);
    DepositUntouched(pruned, Events(hs, r.headChar), r.tailChar, w, h, x, y);
  }

  /**
   * A cell that some stream writes during `tick` holds a new glyph, at age 0,
   * from the last stream that writes it.
   */
  lemma TickedGridWrittenCell(g: Columns, hs: seq<HotChar>, w: nat, h: nat, r: Draws, x: nat, y: nat, i: nat)
    requires IsGrid(g, w, h) && x < w && y < h && i < |hs|
    requires Targets(HotCharacter.Tick(hs[i], r.headChar(i)).spawn, x, y)
    requires forall j :: i < j < |hs| ==> !Targets(HotCharacter.Tick(hs[j], r.headChar(j)).spawn, x, y)
    ensures TickedGrid(g, hs, w, h, r)[x][y] ==
              Some(FadingCharacter.New(HotCharacter.Tick(hs[i], r.headChar(i)).spawn.value.ticksToLive, r.tailChar(i)))
    ensures TickedGrid(g, hs, w, h, r)[x][y].value.elapsedTicks == 0
  {
    var pruned := MapCells(MapCells(g, AgeGlyphs(r.swap)), PruneFaded);
    var evs := Events(hs, r.headChar);
    assert LastTarget(evs, i, x, y);
    DepositLastTarget(pruned, evs, r.tailChar, w, h, x, y, i);
  }

  /**
   * After `tick` no cell holds a faded glyph: pruning runs before the
   * streams drop new glyphs, and a new glyph starts at age 0 with a lifetime
   * `tail_len / speed` that is not negative.
   */
  lemma TickedGridNoFaded(g: Columns, hs: seq<HotChar>, w: nat, h: nat, r: Draws)
    requires IsGrid(g, w, h)
    requires forall i :: 0 <= i < |hs| ==> hs[i].speed > 0.0
    ensures NoFaded(TickedGrid(g, hs, w, h, r))
  {
    var pruned := MapCells(MapCells(g, AgeGlyphs(r.swap)), PruneFaded);
    PruneRemovesExactlyFaded(MapCells(g, AgeGlyphs(r.swap)));
    var evs := Events(hs, r.headChar);
    forall i | 0 <= i < |evs| && evs[i].Some?
      ensures evs[i].value.ticksToLive >= 0.0
    {
      var s := HotCharacter.Tick(hs[i], r.headChar(i));
      assert s.spawn.value.ticksToLive * hs[i].speed == hs[i].tailLen as real;
    }
    DepositKeepsNoFaded(pruned, evs, r.tailChar, w, h);
  }

  // ---------------------------------------------------------------------------
  // The stream list between ticks
  // ---------------------------------------------------------------------------

  /** A stream as the spawn step makes it: speed in range, a tail, falling from row 0 down. */
  predicate StreamOk(h: HotChar)
  {
    MinSpeed <= h.speed < MaxSpeed && h.tailLen >= 1 && h.y >= 0.0
  }

  /**
   * Every stream is well formed, and the streams are in the order they were
   * spawned, oldest first: their ages, recovered from position and speed,
   * strictly decrease along the list.
   */
  predicate StreamsOk(hs: seq<HotChar>)
  {
    && (forall i :: 0 <= i < |hs| ==> StreamOk(hs[i]))
    && (forall i, j :: 0 <= i < j < |hs| ==> Age(hs[i]) > Age(hs[j]))
  }

  /** One tick makes a stream exactly one tick older. */
  lemma AgeAfterTick(h: HotChar, c: Katakana)
    requires h.speed > 0.0
    ensures Age(HotCharacter.Tick(h, c).next) == Age(h) + 1.0
  {
    var s := h.speed;
    var a := h.y / s;
    assert (a + 1.0) * s == h.y + s;
    assert (h.y + s) / s * s == h.y + s;
    assert ((h.y + s) / s - (a + 1.0)) * s == 0.0;
  }

  lemma AdvancedKeepsStreamsOk(hs: seq<HotChar>, headChar: nat -> Katakana)
    requires StreamsOk(hs)
    ensures StreamsOk(Advanced(hs, headChar))
    ensures forall i :: 0 <= i < |hs| ==> Age(Advanced(hs, headChar)[i]) == Age(hs[i]) + 1.0
  {
    var adv := Advanced(hs, headChar);
    forall i | 0 <= i < |hs|
      ensures StreamOk(adv[i]) && Age(adv[i]) == Age(hs[i]) + 1.0
    {
      AgeAfterTick(hs[i], headChar(i));
    }
  }

  lemma PrependKeepsStreamsOk(h: HotChar, rest: seq<HotChar>)
    requires StreamOk(h) && StreamsOk(rest)
    requires forall k :: 0 <= k < |rest| ==> Age(h) > Age(rest[k])
    ensures StreamsOk([h] + rest)
  {
    var all := [h] + rest;
    forall i, j | 0 <= i < j < |all|
      ensures Age(all[i]) > Age(all[j])
    {
      assert all[j] == rest[j - 1];
      if i > 0 {
        assert all[i] == rest[i - 1];
      }
    }
  }

  lemma {:induction false} RetainKeepsStreamsOk(hs: seq<HotChar>, height: real)
    requires StreamsOk(hs)
    ensures StreamsOk(Retain(hs, height))
    decreases |hs|
  {
    if hs != [] {
      var tail := hs[1..];
      assert StreamsOk(tail) by {
        forall i, j | 0 <= i < j < |tail|
          ensures Age(tail[i]) > Age(tail[j])
        {
          assert tail[i] == hs[i + 1] && tail[j] == hs[j + 1];
        }
      }
      RetainKeepsStreamsOk(tail, height);
      var rest := Retain(tail, height);
      forall k | 0 <= k < |rest|
        ensures Age(hs[0]) > Age(rest[k])
      {
        assert rest[k] in tail;
        var m :| 0 <= m < |tail| && tail[m] == rest[k];
        assert tail[m] == hs[m + 1];
      }
      if SmallerThan(hs[0], height) {
        PrependKeepsStreamsOk(hs[0], rest);
        assert Retain(hs, height) == [hs[0]] + rest;
      } else {
        assert Retain(hs, height) == rest;
      }
    }
  }

  /**
   * `tick` keeps the stream list well formed, adds at most one stream,
   * which is the spawn draw, and keeps exactly the streams above the bottom.
   */
  lemma TickedStreamsOk(hs: seq<HotChar>, w: nat, h: nat, r: Draws)
    requires StreamsOk(hs) && DrawsInRange(r, w, h)
    ensures StreamsOk(TickedStreams(hs, h, r))
    ensures |TickedStreams(hs, h, r)| <= |hs| + 1
    ensures forall s :: s in TickedStreams(hs, h, r) ==> s.y < h as real
    ensures forall s :: s in TickedStreams(hs, h, r) ==>
              s in Advanced(hs, r.headChar) ||
              (r.spawn.Some? && s == HotCharacter.New(r.spawn.value.x, r.spawn.value.speed, r.spawn.value.maxLen, r.spawn.value.c))
    ensures forall s :: s in Advanced(hs, r.headChar) + Spawned(r.spawn) && s.y < h as real ==> s in TickedStreams(hs, h, r)
  {
    var adv := Advanced(hs, r.headChar);
    AdvancedKeepsStreamsOk(hs, r.headChar);
    var all := adv + Spawned(r.spawn);
    assert StreamsOk(all) by {
      if r.spawn.Some? {
        var d := r.spawn.value;
        var n := HotCharacter.New(d.x, d.speed, d.maxLen, d.c);
        assert all == adv + [n];
        forall i | 0 <= i < |adv|
          ensures Age(adv[i]) > Age(n)
        {
          assert Age(hs[i]) >= 0.0;
        }
      } else {
        assert all == adv;
      }
    }
    RetainKeepsStreamsOk(all, h as real);
  }

  /**
   * In a well-formed stream list `cmp` never answers `Equal` for two
   * different positions: two streams spawned on different ticks cannot share
   * both position and speed.
   */
  lemma StreamsNeverCompareEqual(hs: seq<HotChar>, i: nat, j: nat)
    requires StreamsOk(hs) && i < |hs| && j < |hs| && i != j
    ensures Cmp(hs[i], hs[j]) != Equal
  {
    if i < j {
      assert Age(hs[i]) > Age(hs[j]);
    } else {
      assert Age(hs[j]) > Age(hs[i]);
    }
  }

  // ---------------------------------------------------------------------------
  // resize
  // ---------------------------------------------------------------------------

  /** `truncate(h)` or `resize(h, None)` on one column. */
  function FitColumn(col: seq<Option<FadingChar>>, h: nat): (r: seq<Option<FadingChar>>)
    ensures |r| == h
    ensures forall y :: 0 <= y < h ==> r[y] == if y < |col| then col[y] else None
  {
    if |col| > h then col[..h] else col + seq(h - |col|, _ => None)
  }

  /**
   * `Matrix::resize` on the grid: the outer vector truncated or extended
   * with empty columns, then every column truncated or extended with `None`.
   * A cell that was in range keeps its content; every other cell is empty.
   */
  function Resized(g: Columns, w: nat, h: nat): (r: Columns)
    ensures IsGrid(r, w, h)
    ensures forall x, y :: 0 <= x < w && 0 <= y < h ==>
              r[x][y] == if x < |g| && y < |g[x]| then g[x][y] else None
  {
    var outer := if |g| > w then g[..w] else g + seq(w - |g|, _ => seq(h, _ => None));
    seq(w, x requires 0 <= x < w => FitColumn(outer[x], h))
  }

  /**
   * On a `oldW` by `oldH` grid, resize keeps exactly the cells with
   * `x < min(oldW, w)` and `y < min(oldH, h)`; all other cells are empty.
   */
  lemma ResizeKeepsOverlap(g: Columns, oldW: nat, oldH: nat, w: nat, h: nat)
    requires IsGrid(g, oldW, oldH)
    ensures forall x, y :: 0 <= x < w && 0 <= y < h && x < oldW && y < oldH ==> Resized(g, w, h)[x][y] == g[x][y]
    ensures forall x, y :: 0 <= x < w && 0 <= y < h && (x >= oldW || y >= oldH) ==> Resized(g, w, h)[x][y] == None
    ensures NoFaded(g) ==> NoFaded(Resized(g, w, h))
  {
  }

  /** Growing a grid and shrinking it back gives the original grid. */
  lemma ResizeRoundTrip(g: Columns, w: nat, h: nat, w': nat, h': nat)
    requires IsGrid(g, w, h) && w <= w' && h <= h'
    ensures Resized(Resized(g, w', h'), w, h) == g
  {
    var r := Resized(Resized(g, w', h'), w, h);
    forall x | 0 <= x < w
      ensures r[x] == g[x]
    {
      assert |r[x]| == |g[x]|;
      forall y | 0 <= y < h
        ensures r[x][y] == g[x][y]
      {
      }
    }
  }

  /** Resizing to the size a grid already has changes nothing. */
  lemma ResizeIdempotent(g: Columns, w: nat, h: nat)
    requires IsGrid(g, w, h)
    ensures Resized(g, w, h) == g
  {
    ResizeRoundTrip(g, w, h, w, h);
    var r := Resized(g, w, h);
    forall x | 0 <= x < w
      ensures r[x] == g[x]
    {
      assert |r[x]| == |g[x]|;
    }
  }
}
