/**
 * The bright head of a falling stream (src/matrix/hot_character.rs). It moves
 * down its column by a fractional speed each tick, changes its character
 * every six ticks, and reports a spawn event whenever it crosses into a new
 * row; the grid turns that event into a fading glyph.
 *
 * `HotChar::tick` takes `&mut self` on a value that the stream list owns by
 * value; it is modelled as a function returning the updated head together
 * with the event. The getters `get_x`, `get_y` and `get_char` are the fields
 * `x`, `y` and `c` of the datatype.
 */
module HotCharacter {
  import opened Wrappers
  import opened Katakana

  /** The head picks a new character every this many ticks. */
  const CharChangePeriod: nat := 6

  /** Positions and speeds are `f64` in the source and `real` here. */
  datatype HotChar = HotChar(
    c: char,
    x: nat,
    y: real,
    speed: real,          // cells per tick
    tailLen: nat,
    ticksSinceLastCharChange: nat)

  /** The event `(x, row, ticks_to_live)` that asks the grid for a new glyph. */
  datatype Spawn = Spawn(x: nat, y: nat, ticksToLive: real)

  /** The new state of a head after one tick, and the event it reports. */
  datatype Step = Step(next: HotChar, spawn: Option<Spawn>)

  datatype Ordering = Less | Equal | Greater

  /** Rust's saturating `f64 as usize` cast of a floored value. */
  function SaturatingFloor(v: real): (n: nat)
    ensures v >= 0.0 ==> n == v.Floor
    ensures v < 0.0 ==> n == 0
  {
    if v.Floor < 0 then 0 else v.Floor
  }

  /** `HotChar::new`; `c` is the draw of `get_random_char`. */
  function New(x: nat, speed: real, maxLen: nat, c: Katakana): (h: HotChar)
    requires speed > 0.0
    ensures h.y == 0.0 && h.ticksSinceLastCharChange == 0
    ensures h.x == x && h.speed == speed && h.tailLen == maxLen && h.c == c
    ensures Age(h) == 0.0
  {
    HotChar(c, x, 0.0, speed, maxLen, 0)
  }

  /**
   * The number of ticks a head has been falling, recovered from its position:
   * a head starts at y = 0 and adds `speed` every tick.
   */
  function Age(h: HotChar): real
    requires h.speed > 0.0
  {
    h.y / h.speed
  }

  /**
   * `HotChar::tick`. `c` is the character drawn by `get_random_char`; it is
   * used only when the change counter reaches `CharChangePeriod`.
   */
  function Tick(h: HotChar, c: Katakana): (s: Step)
    ensures s.next.x == h.x && s.next.speed == h.speed && s.next.tailLen == h.tailLen
    ensures s.next.y == h.y + h.speed
    ensures h.speed > 0.0 ==> s.next.y > h.y
    ensures s.next.ticksSinceLastCharChange < CharChangePeriod
    ensures h.ticksSinceLastCharChange + 1 < CharChangePeriod ==>
              s.next.ticksSinceLastCharChange == h.ticksSinceLastCharChange + 1 && s.next.c == h.c
    ensures h.ticksSinceLastCharChange + 1 >= CharChangePeriod ==>
              s.next.ticksSinceLastCharChange == 0 && s.next.c == c
    ensures s.spawn.Some? <==> h.y.Floor != s.next.y.Floor
    ensures s.spawn.Some? ==> s.spawn.value.x == h.x && s.spawn.value.ticksToLive * h.speed == h.tailLen as real
    ensures s.spawn.Some? && h.y >= 0.0 ==> s.spawn.value.y == h.y.Floor
    ensures s.spawn.Some? && h.speed > 0.0 && h.tailLen > 0 ==> s.spawn.value.ticksToLive > 0.0
  {
    var oldY := h.y;
    var newY := oldY + h.speed;
    var count := h.ticksSinceLastCharChange + 1;
    var next :=
      if count >= CharChangePeriod then h.(y := newY, c := c, ticksSinceLastCharChange := 0)
      else h.(y := newY, ticksSinceLastCharChange := count);
    if oldY.Floor != newY.Floor then
      var ticksPerCell := 1.0 / h.speed;
      var ticksToLive := ticksPerCell * h.tailLen as real;
      assert ticksToLive * h.speed == h.tailLen as real by {
        assert ticksPerCell * h.speed == 1.0;
      }
      Step(next, Some(Spawn(h.x, SaturatingFloor(oldY), ticksToLive)))
    else
      Step(next, None)
  }

  /** `HotChar::smaller_than`: the head is still above `height`. */
  function SmallerThan(h: HotChar, height: real): (above: bool)
    ensures height == height.Floor as real ==> (above <==> h.y.Floor < height.Floor)
  {
    h.y < height
  }

  /** `Ord::cmp` for `HotChar`: by `y`, then by `speed` when the `y` values tie. */
  function Cmp(a: HotChar, b: HotChar): (o: Ordering)
    ensures o == Less <==> a.y < b.y || (a.y == b.y && a.speed < b.speed)
    ensures o == Equal <==> a.y == b.y && a.speed == b.speed
    ensures o == Greater <==> a.y > b.y || (a.y == b.y && a.speed > b.speed)
  {
    if a.y != b.y then
      if a.y < b.y then Less else Greater
    else if a.speed < b.speed then Less
    else if a.speed == b.speed then Equal
    else Greater
  }

  /** Swapping the operands of `Cmp` reverses the answer. */
  lemma CmpAntisymmetric(a: HotChar, b: HotChar)
    ensures Cmp(a, b) == Less <==> Cmp(b, a) == Greater
    ensures Cmp(a, b) == Equal <==> Cmp(b, a) == Equal
  {
  }

  /** `Cmp` is transitive, so it is a total preorder on heads. */
  lemma CmpTransitive(a: HotChar, b: HotChar, c: HotChar)
    requires Cmp(a, b) != Greater && Cmp(b, c) != Greater
    ensures Cmp(a, c) != Greater
    ensures Cmp(a, b) == Less || Cmp(b, c) == Less ==> Cmp(a, c) == Less
  {
  }

  /**
   * `Cmp` answers `Equal` for heads that the derived `PartialEq` tells apart:
   * it looks at `y` and `speed` only, so the source's `Eq` and `Ord` agree
   * only while no two heads share both values.
   */
  lemma CmpEqualIsNotEquality()
    ensures exists a: HotChar, b: HotChar :: a != b && Cmp(a, b) == Equal
  {
    var a := HotChar(First, 0, 0.0, 0.25, 1, 0);
    var b := a.(x := 1);
    assert a != b && Cmp(a, b) == Equal;
  }

  /**
   * With a speed of at most one cell per tick a head crosses at most one row
   * boundary per tick: when it reports an event it has moved to the next row.
   */
  lemma AtMostOneRowPerTick(h: HotChar, c: Katakana)
    requires 0.0 < h.speed <= 1.0
    ensures Tick(h, c).spawn.Some? ==> Tick(h, c).next.y.Floor == h.y.Floor + 1
    ensures Tick(h, c).spawn.None? ==> Tick(h, c).next.y.Floor == h.y.Floor
  {
  }

  /** `lo, lo + 1, ..., hi - 1`. */
  function Range(lo: nat, hi: int): (r: seq<nat>)
    ensures |r| == if hi <= lo then 0 else hi - lo
    decreases hi - lo
  {
    if hi <= lo then [] else Range(lo, hi - 1) + [hi - 1]
  }

  /** The state of a head after ticking once per character of `chars`. */
  function Run(h: HotChar, chars: seq<Katakana>): HotChar
    decreases |chars|
  {
    if chars == [] then h else Tick(Run(h, chars[..|chars| - 1]), chars[|chars| - 1]).next
  }

  /** The row of the event of one tick, if it reports one. */
  function Rows(s: Step): (r: seq<nat>)
    ensures |r| <= 1
  {
    match s.spawn
    case Some(e) => [e.y]
    case None => []
  }

  /** The rows of the events a head reports while ticking once per character of `chars`, in order. */
  function Trail(h: HotChar, chars: seq<Katakana>): seq<nat>
    decreases |chars|
  {
    if chars == [] then []
    else
      var init := chars[..|chars| - 1];
      Trail(h, init) + Rows(Tick(Run(h, init), chars[|chars| - 1]))
  }

  /** `speed` added up `n` times: the distance a head covers in `n` ticks. */
  function Distance(n: nat, speed: real): (d: real)
    ensures speed >= 0.0 ==> d >= 0.0
  {
    if n == 0 then 0.0 else Distance(n - 1, speed) + speed
  }

  lemma {:induction false} DistanceIsProduct(n: nat, speed: real)
    ensures Distance(n, speed) == n as real * speed
  {
    if n > 0 {
      DistanceIsProduct(n - 1, speed);
      assert (n - 1) as real * speed + speed == n as real * speed;
    }
  }

  /** After n ticks a head has moved n times its speed; nothing else about its path changes. */
  lemma {:induction false} RunPosition(h: HotChar, chars: seq<Katakana>)
    ensures Run(h, chars).y == h.y + Distance(|chars|, h.speed)
    ensures Run(h, chars).x == h.x && Run(h, chars).speed == h.speed
    ensures Run(h, chars).tailLen == h.tailLen
    decreases |chars|
  {
    if chars != [] {
      RunPosition(h, chars[..|chars| - 1]);
    }
  }

  /**
   * One tick of a head moving at most one cell per tick extends the range of
   * rows passed so far by exactly the row it reports.
   */
  lemma TickExtendsRange(p: HotChar, c: Katakana, lo: nat)
    requires p.y >= 0.0 && 0.0 < p.speed <= 1.0 && lo <= p.y.Floor
    ensures Range(lo, Tick(p, c).next.y.Floor) == Range(lo, p.y.Floor) + Rows(Tick(p, c))
  {
    var step := Tick(p, c);
    AtMostOneRowPerTick(p, c);
    if step.spawn.Some? {
      assert Range(lo, p.y.Floor + 1) == Range(lo, p.y.Floor) + [p.y.Floor];
    }
  }

  /**
   * A head moving at most one cell per tick leaves a trail without gaps or
   * repeats: it reports each row from floor(y0) up to, not including, its
   * current row exactly once, in order.
   */
  lemma {:induction false} RunReportsEachRowOnce(h: HotChar, chars: seq<Katakana>)
    requires h.y >= 0.0 && 0.0 < h.speed <= 1.0
    ensures Trail(h, chars) == Range(h.y.Floor, Run(h, chars).y.Floor)
    decreases |chars|
  {
    if chars != [] {
      var n := |chars|;
      var init := chars[..n - 1];
      var prev := Run(h, init);
      RunReportsEachRowOnce(h, init);
      RunPosition(h, init);
      assert h.y.Floor <= prev.y.Floor;
      var step := Tick(prev, chars[n - 1]);
      assert Run(h, chars) == step.next;
      assert Trail(h, chars) == Trail(h, init) + Rows(step);
      TickExtendsRange(prev, chars[n - 1], h.y.Floor);
    }
  }
}
