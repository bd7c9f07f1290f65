/**
 * The glyph alphabet of the animation: `get_random_char` in src/matrix/mod.rs
 * draws uniformly from the inclusive code-point range U+30A1 ('ァ') to
 * U+30FA ('ヺ'). The random generator itself is outside the model: a draw is
 * an index into the range, and every random character that the rest of the
 * model receives as an input has the subset type `Katakana`.
 */
module Katakana {

  const First: char := '\U{30A1}'
  const Last: char := '\U{30FA}'

  /** Number of characters in the inclusive range First..=Last. */
  const Count: nat := Last as int - First as int + 1

  predicate InRange(c: char)
  {
    First <= c <= Last
  }

  type Katakana = c: char | InRange(c) witness First

  /** The character picked by the draw-th outcome of the uniform range sampler. */
  function FromDraw(draw: nat): (c: char)
    requires draw < Count
    ensures InRange(c)
    ensures c as int - First as int == draw
  {
    (First as int + draw) as char
  }

  /** Every character of the range, both endpoints included, can be drawn. */
  lemma FromDrawCoversRange(c: char)
    requires InRange(c)
    ensures exists draw: nat :: draw < Count && FromDraw(draw) == c
  {
    var draw: nat := c as int - First as int;
    assert FromDraw(draw) == c;
  }

  /** The alphabet holds exactly 90 characters, the endpoints included. */
  lemma CountIsNinety()
    ensures Count == 90
    ensures FromDraw(0) == First && FromDraw(Count - 1) == Last
  {
  }
}
