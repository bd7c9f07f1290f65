/**
 * A glyph left behind by a falling stream (src/matrix/fading_character.rs).
 * It ages one tick at a time, counts as faded once its age exceeds its
 * lifetime, and its green brightness falls linearly with its age.
 *
 * `FadingChar::tick` takes `&mut self` on a value that the grid owns by
 * value; it is modelled as a function returning the updated glyph, which the
 * grid writes back in place (see the Matrix class).
 */
module FadingCharacter {
  import opened Wrappers
  import opened Katakana

  /** `u8::MAX`, the largest value of a colour channel. */
  const MaxBrightness: nat := 255

  /** The `f64` lifetime is modelled as a `real`. */
  datatype FadingChar = FadingChar(c: char, elapsedTicks: nat, ticksToLive: real)

  /** `FadingChar::new`: `c` is the draw of `get_random_char`. */
  function New(ticksToLive: real, c: Katakana): (f: FadingChar)
    ensures f.c == c && f.elapsedTicks == 0 && f.ticksToLive == ticksToLive
    ensures !HasFaded(f) <==> ticksToLive >= 0.0
    ensures ticksToLive > 0.0 ==> Brightness(f) == MaxBrightness
  {
    FadingChar(c, 0, ticksToLive)
  }

  /**
   * `FadingChar::tick`: one more tick of age. `swap` is the outcome of the
   * rare (probability 0.002) character change: `Some(c)` when it happens,
   * with the new character drawn by `get_random_char`.
   */
  function Tick(f: FadingChar, swap: Option<Katakana>): (g: FadingChar)
    ensures g.elapsedTicks == f.elapsedTicks + 1
    ensures g.ticksToLive == f.ticksToLive
    ensures g.c == (match swap case Some(c) => c case None => f.c)
    ensures HasFaded(f) ==> HasFaded(g)
  {
    match swap
    case Some(c) => FadingChar(c, f.elapsedTicks + 1, f.ticksToLive)
    case None => f.(elapsedTicks := f.elapsedTicks + 1)
  }

  /** `FadingChar::has_faded`. */
  function HasFaded(f: FadingChar): (faded: bool)
    ensures faded <==> f.elapsedTicks > f.ticksToLive.Floor
  {
    f.elapsedTicks as real > f.ticksToLive
  }

  /** Rust's saturating `f64 as u8` cast applied to an already floored value. */
  function SaturateU8(v: int): (b: nat)
    ensures b <= MaxBrightness
    ensures 0 <= v <= MaxBrightness ==> b == v
    ensures v < 0 ==> b == 0
    ensures v > MaxBrightness ==> b == MaxBrightness
  {
    if v < 0 then 0 else if v > MaxBrightness then MaxBrightness else v
  }

  /** The fraction of the lifetime that is left, scaled to the channel range. */
  function Remaining(f: FadingChar): real
    requires f.ticksToLive != 0.0
  {
    (f.ticksToLive - f.elapsedTicks as real) / f.ticksToLive * MaxBrightness as real
  }

  /**
   * `FadingChar::get_brightness`. With a zero lifetime the `f64` quotient is
   * NaN or negative infinity, both of which the `as u8` cast turns into 0.
   */
  function Brightness(f: FadingChar): (b: nat)
    ensures b <= MaxBrightness
    ensures f.ticksToLive > 0.0 && f.elapsedTicks == 0 ==> b == MaxBrightness
    ensures f.ticksToLive > 0.0 && f.elapsedTicks as real >= f.ticksToLive ==> b == 0
    ensures f.ticksToLive > 0.0 && f.elapsedTicks as real <= f.ticksToLive ==>
              b as real <= (f.ticksToLive - f.elapsedTicks as real) / f.ticksToLive * MaxBrightness as real < b as real + 1.0
  {
    if f.ticksToLive == 0.0 then 0
    else
      var v := Remaining(f);
      RemainingBounds(f);
      SaturateU8(v.Floor)
  }

  /** Dividing by a positive lifetime preserves order. */
  lemma DivMonotone(a: real, b: real, t: real)
    requires t > 0.0 && a <= b
    ensures a / t <= b / t
  {
    assert (b / t - a / t) * t == b - a;
  }

  lemma RemainingBounds(f: FadingChar)
    requires f.ticksToLive != 0.0
    ensures f.ticksToLive > 0.0 && f.elapsedTicks == 0 ==> Remaining(f) == MaxBrightness as real
    ensures f.ticksToLive > 0.0 && f.elapsedTicks as real >= f.ticksToLive ==> Remaining(f) <= 0.0
    ensures f.ticksToLive > 0.0 && f.elapsedTicks as real <= f.ticksToLive ==> 0.0 <= Remaining(f) <= MaxBrightness as real
  {
    var t, e := f.ticksToLive, f.elapsedTicks as real;
    if t > 0.0 {
      assert t / t == 1.0;
      assert 0.0 / t == 0.0;
      if e >= t {
        DivMonotone(t - e, 0.0, t);
      }
      if e <= t {
        DivMonotone(0.0, t - e, t);
        DivMonotone(t - e, t, t);
      }
    }
  }

  /** A glyph with a positive lifetime never gets brighter as it ages. */
  lemma BrightnessNonIncreasing(f: FadingChar, swap: Option<Katakana>)
    requires f.ticksToLive > 0.0
    ensures Brightness(Tick(f, swap)) <= Brightness(f)
  {
    var g := Tick(f, swap);
    var t, e := f.ticksToLive, f.elapsedTicks as real;
    assert g.elapsedTicks as real == e + 1.0;
    DivMonotone(t - (e + 1.0), t - e, t);
    assert Remaining(g) <= Remaining(f);
  }

  /** Once its age reaches its lifetime a glyph is dark, before it is pruned. */
  lemma FadedIsDark(f: FadingChar)
    requires f.ticksToLive > 0.0 && HasFaded(f)
    ensures Brightness(f) == 0
  {
  }
}
