# rmatrix core in Dafny

rmatrix is a terminal "digital rain" animation. A `Matrix` holds a
column-major grid of *fading characters*: glyphs that dim over a fixed
lifetime. It also holds a list of *hot characters*: the falling heads of the
streams. Once per tick:

1. every glyph ages by one tick, and now and then it swaps its character;
2. every glyph that has faded is cleared;
3. every head moves down by its speed; on a tick where that takes it into a
   new row (the floor of its position changes), it drops a fresh glyph into
   the row it has just left;
4. with some probability a new head is spawned at the top of a random column;
5. heads that have fallen past the bottom are dropped.

`render` paints the glyphs in green at their brightness, then the heads in
white. The `App` wraps one `Matrix` at twice the terminal's size, forwards
ticks and resizes, and carries the quit flag.

Modules and what they model:

- `Katakana`: `get_random_char`, as a map from a drawn index to the range
  U+30A1..U+30FA.
- `FadingCharacter`: `FadingChar` as a value. `tick` becomes a function
  that returns the aged glyph.
- `HotCharacter`: `HotChar` as a value, with `tick`, `smaller_than`, the
  `Ord` comparison, and repeated ticks (`Run` and `Trail`).
- `MatrixSpec`: the matrix operations as functions on values. This covers
  each tick phase, the whole tick, and resize. It also holds the stream
  invariant `StreamsOk`: heads are well formed and strictly older first.
- `Canvas`: what `render` leaves in each cell of the drawing surface.
- `Matrix`: the `Matrix` class. Its grid and stream list are updated in
  place by loops proved against `MatrixSpec`. `Render` writes into an
  `array2`.
- `Application`: the `App` class and `term_to_matrix_size`.

Randomness is an input. A `Draws` value supplies:

- the swap decision and new character of every glyph;
- the new character of every head;
- the character of every deposited glyph;
- the optional spawn draw (column, speed, tail length, character).

`DrawsInRange` states the ranges `tick` draws from. Drawn characters have
the type `Katakana`. `FromDrawCoversRange` shows that this type holds exactly
the characters `FromDraw` produces, so a draw of that type amounts to drawing
an index below 90. `f64` is modelled as
`real`. The saturating `as u8` and `as usize` casts are explicit clamps.

Two details of the code that the model keeps as written:

- **Tail length.** The code draws from `1..=height.saturating_sub(8) + 1`,
  so on a grid of height 8 or less the tail length is always 1
  (`MaxTailLen`).
- **Head clip.** The code tests a head's column and row *after* adding the
  rectangle's origin (`x + area.x < area.width`). Glyphs are tested before
  the origin is added. `HeadClipWithinGlyphClip` shows the two tests agree
  on a rectangle at the origin, which is the only one the program draws
  into. `HeadClipLosesRightEdge` shows they differ elsewhere.

## Model

| member | source | states |
|---|---|---|
| Katakana.FromDraw | src/matrix/mod.rs:126-128 | a draw below `Count` gives a character in U+30A1..U+30FA, at offset `draw` from the first |
| Katakana.FromDrawCoversRange | src/matrix/mod.rs:126-128 | every character of the inclusive range is produced by some draw |
| Katakana.CountIsNinety | src/matrix/mod.rs:127 | the inclusive range `'ァ'..='ヺ'` holds 90 characters; draw 0 gives its first and draw 89 its last |
| FadingCharacter.New | src/matrix/fading_character.rs:13-19 | a new glyph has elapsed 0 and the given lifetime; it has not faded iff its lifetime is non-negative; with a positive lifetime it starts at full brightness 255 |
| FadingCharacter.Tick | src/matrix/fading_character.rs:21-30 | elapsed goes up by exactly one; the lifetime is kept; the character changes only when the swap draw says so; a faded glyph stays faded |
| FadingCharacter.HasFaded | src/matrix/fading_character.rs:36-38 | a glyph has faded iff its elapsed tick count exceeds the floor of its lifetime, so a glyph with a non-negative lifetime stays for floor(lifetime) + 1 ticks |
| FadingCharacter.SaturateU8 | src/matrix/fading_character.rs:40-43 | the saturating `as u8` cast: values below 0 give 0, above 255 give 255, others are kept |
| FadingCharacter.Brightness | src/matrix/fading_character.rs:40-43 | the brightness is at most 255; it is 255 at elapsed 0 and 0 once elapsed reaches the lifetime; in between it is the floor of the remaining fraction times 255 |
| FadingCharacter.BrightnessNonIncreasing | src/matrix/fading_character.rs:21-43 | with a positive lifetime, a tick never makes a glyph brighter |
| FadingCharacter.FadedIsDark | src/matrix/fading_character.rs:36-43 | a glyph with a positive lifetime that has faded has brightness 0 |
| HotCharacter.SaturatingFloor | src/matrix/hot_character.rs:66 | `floor() as usize`: the floor of a non-negative value, and 0 for a negative one |
| HotCharacter.New | src/matrix/hot_character.rs:37-48 | a new head is at row 0.0 with counter 0, the given column, speed, tail length and character, and age 0 |
| HotCharacter.Tick | src/matrix/hot_character.rs:51-69 | the head moves down by its speed; the counter stays below 6 and resets with a new character every sixth tick; a glyph is reported iff the floor of y changes; the glyph lands in the head's column and the row it left, with lifetime times speed equal to the tail length |
| HotCharacter.SmallerThan | src/matrix/hot_character.rs:71-73 | against a whole-number height, a head is above it iff the row it occupies, floor(y), is a row of the grid |
| HotCharacter.Cmp | src/matrix/hot_character.rs:20-29 | `Less`, `Equal` or `Greater` exactly as lexicographic order on (y, speed) |
| HotCharacter.CmpAntisymmetric | src/matrix/hot_character.rs:20-29 | swapping the operands reverses the ordering |
| HotCharacter.CmpTransitive | src/matrix/hot_character.rs:20-29 | `Less` is transitive |
| HotCharacter.CmpEqualIsNotEquality | src/matrix/hot_character.rs:3-18 | two heads that differ in character or column can compare `Equal`, so `cmp` does not agree with the derived equality by itself |
| HotCharacter.AtMostOneRowPerTick | src/matrix/hot_character.rs:63-68 | with a speed of at most one cell per tick, a reported glyph is in the row directly above the new head row |
| HotCharacter.DistanceIsProduct | src/matrix/hot_character.rs:52-54 | n ticks at a fixed speed cover n times the speed |
| HotCharacter.RunPosition | src/matrix/hot_character.rs:51-69 | after n ticks a head has moved n times its speed; column, speed and tail length are unchanged |
| HotCharacter.TickExtendsRange | src/matrix/hot_character.rs:51-69 | with speed at most 1, one tick extends the rows passed so far by exactly the row it reports |
| HotCharacter.RunReportsEachRowOnce | src/matrix/hot_character.rs:51-69 | with speed at most 1, the rows reported over a run are exactly the rows from the start row up to (not including) the end row, each once and in order |
| MatrixSpec.EmptyGrid | src/matrix/mod.rs:31 | `vec![vec![None; height]; width]` is a width-by-height grid of empty cells |
| MatrixSpec.MaxTailLen | src/matrix/mod.rs:64 | the largest tail length drawn is exactly 1 when height is 8 or less, and `height - 7` when height exceeds 8 |
| MatrixSpec.MapCells | src/matrix/mod.rs:39-49 | a pass over every cell keeps the grid's shape and updates each cell by itself |
| MatrixSpec.PruneRemovesExactlyFaded | src/matrix/mod.rs:45-49 | the clearing pass empties exactly the cells holding a faded glyph, keeps the rest, and leaves no faded glyph |
| MatrixSpec.Place | src/matrix/mod.rs:52-56 | one event writes a new glyph with the event's lifetime into the cell it targets, when that cell is inside the grid, and changes no other cell |
| MatrixSpec.Deposit | src/matrix/mod.rs:51-57 | dropping glyphs keeps the grid's shape |
| MatrixSpec.DepositUntouched | src/matrix/mod.rs:51-57 | a cell no event targets is unchanged |
| MatrixSpec.DepositLastTarget | src/matrix/mod.rs:51-57 | a targeted cell holds the glyph of the last event targeting it, elapsed 0, with that event's lifetime |
| MatrixSpec.DepositKeepsNoFaded | src/matrix/mod.rs:51-57 | dropping glyphs with non-negative lifetimes into a grid without faded glyphs leaves none |
| MatrixSpec.Spawned | src/matrix/mod.rs:61-66 | at most one head is spawned per tick |
| MatrixSpec.Retain | src/matrix/mod.rs:68-69 | `retain` keeps exactly the heads above `height` and never adds one |
| MatrixSpec.RetainAppend | src/matrix/mod.rs:68-69 | retaining a concatenation is retaining each part, so `retain` keeps the order of the heads it keeps |
| MatrixSpec.TickedGrid | src/matrix/mod.rs:38-57 | the grid after a tick (aged, pruned, glyphs dropped) keeps its width and height |
| MatrixSpec.TickedStreams | src/matrix/mod.rs:51-69 | the heads after a tick are at most one more than before, and all are above the bottom of the grid |
| MatrixSpec.TickedGridUntouchedCell | src/matrix/mod.rs:38-57 | after a tick, a cell no head drops into holds its aged glyph, or is empty if that glyph has faded |
| MatrixSpec.TickedGridWrittenCell | src/matrix/mod.rs:51-57 | after a tick, a cell a head drops into holds a fresh glyph from the last such head |
| MatrixSpec.TickedGridNoFaded | src/matrix/mod.rs:38-57 | a tick keeps the grid's shape and leaves no faded glyph |
| MatrixSpec.AgeAfterTick | src/matrix/hot_character.rs:51-54 | every tick adds exactly one to a head's age (y over speed) |
| MatrixSpec.AdvancedKeepsStreamsOk | src/matrix/mod.rs:51-57 | ticking every head keeps the streams well formed and strictly older first |
| MatrixSpec.RetainKeepsStreamsOk | src/matrix/mod.rs:68-69 | `retain` keeps the streams well formed and strictly older first |
| MatrixSpec.TickedStreamsOk | src/matrix/mod.rs:51-69 | a tick keeps the streams well formed; it adds at most one head; every kept head is above the bottom, and is a ticked old head or the spawned one; a ticked head is kept iff it is above the bottom |
| MatrixSpec.StreamsNeverCompareEqual | src/matrix/hot_character.rs:14-29 | in well-formed streams, two heads at different positions never compare `Equal`; this is what the comment on `impl Eq` argues |
| MatrixSpec.FitColumn | src/matrix/mod.rs:81-85 | a column is truncated or padded with empty cells to the new height, keeping its prefix |
| MatrixSpec.Resized | src/matrix/mod.rs:72-87 | the resized grid is w by h; a cell inside the old grid keeps its content, and any other cell is empty |
| MatrixSpec.ResizeKeepsOverlap | src/matrix/mod.rs:75-86 | resizing keeps every cell in the overlap of the old and new sizes, and keeps the grid free of faded glyphs |
| MatrixSpec.ResizeRoundTrip | src/matrix/mod.rs:72-87 | growing a grid and shrinking it back gives the original grid |
| MatrixSpec.ResizeIdempotent | src/matrix/mod.rs:72-87 | resizing twice to the same size is resizing once |
| Canvas.GlyphColor | src/matrix/mod.rs:106-110 | a glyph is drawn in pure green at most 255 |
| Canvas.HeadLayer | src/matrix/mod.rs:113-122 | the head pass leaves a cell as it was or white, and white wherever some head is drawn |
| Canvas.Rendered | src/matrix/mod.rs:99-122 | a rendered cell is either untouched, a head in white, or a glyph in pure green at most 255 |
| Canvas.RenderedStaysInArea | src/matrix/mod.rs:99-122 | rendering never changes a surface cell outside the destination rectangle |
| Canvas.HeadOverridesGlyph | src/matrix/mod.rs:113-122 | where heads are drawn, the last of them shows in white over any glyph |
| Canvas.GlyphShowsWithoutHead | src/matrix/mod.rs:99-122 | where no head is drawn, the glyph pass shows through |
| Canvas.HeadClipWithinGlyphClip | src/matrix/mod.rs:113-118 | a head is drawn only when its grid cell is within the rectangle's size; at origin (0,0) the head and glyph clips agree |
| Canvas.HeadClipLosesRightEdge | src/matrix/mod.rs:100-118 | on a rectangle at x = 1, 2 wide, the glyph in grid column 1 is drawn but a head in that column is clipped |
| Matrix.Matrix.constructor | src/matrix/mod.rs:29-36 | a new matrix has the given size, every cell empty, no streams, and satisfies the invariant |
| Matrix.Matrix.UpdateCells | src/matrix/mod.rs:39-49 | the in-place pass over every cell leaves the grid given by `MapCells` |
| Matrix.Matrix.AdvanceStreams | src/matrix/mod.rs:51-57 | the in-place loop over the heads leaves the ticked heads and the grid with their glyphs dropped |
| Matrix.Matrix.Tick | src/matrix/mod.rs:38-70 | a tick keeps the invariant and the size; grid and streams are those of `TickedGrid` and `TickedStreams`; at most one head is added; every head is above the bottom |
| Matrix.Matrix.Resize | src/matrix/mod.rs:72-87 | resizing sets the new size, keeps the invariant and the heads, and leaves the grid of `Resized`: old cells in the overlap kept, the rest empty |
| Matrix.Matrix.Render | src/matrix/mod.rs:90-123 | every surface cell ends as `Rendered` says: glyphs inside the rectangle in green, heads over them in white, the rest untouched |
| Application.TermToMatrixSize | src/app.rs:43-47 | the matrix size is twice the terminal size in each dimension, so both are even and halve back to the terminal size |
| Application.App.constructor | src/app.rs:11-17 | a new app is not quitting, and owns a fresh empty matrix of twice the terminal size |
| Application.App.Tick | src/app.rs:20-22 | a tick is one matrix tick, with the same guarantees, and leaves the quit flag alone |
| Application.App.Resize | src/app.rs:24-27 | a resize is a matrix resize to twice the terminal size, keeping the invariant and the quit flag |
| Application.App.Quit | src/app.rs:30-32 | after quitting, the quit flag is set and the matrix is untouched |
| Application.App.ShouldQuit | src/app.rs:34-36 | reports the quit flag |

## Left out

- The event loop, terminal set-up and key handling of `src/main.rs` are not modelled. The unused prototype `matrix.rs` at the repository root is not part of this model either; the `matrix` module is `src/matrix/mod.rs`.
- The random number generator is left out. Its draws are inputs (`Draws`). The probabilities 0.1 (spawn) and 0.002 (swap) and the uniformity of the draws are not modelled. Only the draws' ranges are stated, by `DrawsInRange`.
- `f64` is modelled as `real`. NaN, infinities and rounding are not modelled. A zero lifetime is special-cased to brightness 0, which is where the cast of NaN or negative infinity lands.
- Matrix.Matrix.Render: the background `set_style` pass is not modelled. The `as u16` casts and `u16` additions of positions are taken to fit. The saturation at 65535 of a head's row cast is not modelled, and nor is the out-of-buffer panic of `get_mut`, which the requires rules out.
- Matrix.Matrix.Tick: `gen_range(0..width)` panics on a zero-width grid when the spawn draw comes up. `DrawsInRange` admits no spawn draw on such a grid, so that panic is not modelled.
- HotCharacter.New: the `debug_assert!(speed > 0.0)` is modelled as a precondition.
- The getters `get_matrix`, `get_x`, `get_y` and `get_char` are field reads of the model's values and classes. `get_brightness` is the function `Brightness`. `Debug` derivations are not modelled.
- `FadingChar::tick` and `HotChar::tick` take `&mut self` on values owned by a vector. They are modelled as functions returning the updated value, which `Matrix` stores back; no aliasing is lost.
- `Ord` is not consistent with the derived `PartialEq` for arbitrary heads: `CmpEqualIsNotEquality` gives two different heads that compare `Equal`. Antisymmetry and transitivity do hold for all heads (`CmpAntisymmetric`, `CmpTransitive`). `StreamsNeverCompareEqual` proves that the consistency holds for the heads a matrix actually keeps.
