/** The drawing surface: rows of pixels, each pixel one code point. */
module Canvas {

  /** Go's `pixel` is a `rune`, a 32-bit signed integer. */
  type Pixel = p: int | -0x8000_0000 <= p < 0x8000_0000

  /** Rows indexed by y (0 at the top), each row's cells indexed by x (0 at the left). */
  type Grid = seq<seq<Pixel>>

  const Space: Pixel := 0x20

  /** The canvas invariant: exactly `height` rows of exactly `width` cells. */
  predicate Shaped(c: Grid, width: nat, height: nat) {
    |c| == height && forall y | 0 <= y < height :: |c[y]| == width
  }

  /** What indexing `c[y][x]` for every y < height and x < width needs: at
      least `height` rows of at least `width` cells. */
  predicate Covers(c: Grid, width: nat, height: nat) {
    height <= |c| && forall y | 0 <= y < height :: width <= |c[y]|
  }

  /** The conversion `pixel(v)` of a 64-bit integer: the low 32 bits, read as two's complement. */
  function Int32(v: int): (p: Pixel)
    ensures -0x8000_0000 <= v < 0x8000_0000 ==> p == v
    ensures (v - p) % 0x1_0000_0000 == 0
  {
    var low := v % 0x1_0000_0000;
    if low < 0x8000_0000 then low else low - 0x1_0000_0000
  }

  /** newCanvas: `height` rows, each built by appending `width` spaces. */
  method NewCanvas(width: nat, height: nat) returns (c: Grid)
    ensures Shaped(c, width, height)
    ensures forall y, x | 0 <= y < height && 0 <= x < width :: c[y][x] == Space
  {
    c := seq(height, _ => []);
    for y := 0 to height
      invariant |c| == height
      invariant forall j | 0 <= j < y :: |c[j]| == width
      invariant forall j, i | 0 <= j < y && 0 <= i < width :: c[j][i] == Space
      invariant forall j | y <= j < height :: c[j] == []
    {
      ghost var before := c;
      for x := 0 to width
        invariant |c| == height && |c[y]| == x
        invariant forall i | 0 <= i < x :: c[y][i] == Space
        invariant forall j | 0 <= j < height && j != y :: c[j] == before[j]
      {
        c := c[y := c[y] + [Space]];
      }
    }
  }
}
