/**
 * Pixel buffers of the edge detector.
 *
 * A CImg buffer of width W and height H is indexed image(x, y) with x the
 * column and y the row; here it is an `array2` indexed [x, y], so that
 * `Length0` is the width and `Length1` the height.
 */
module Grid {

  /** An 8-bit unsigned sample (the source's `unsigned char`). */
  type Byte = b: int | 0 <= b < 256

  /** A pixel position (x, y). */
  type Cell = (int, int)

  /** The contents of a byte buffer at one moment, keyed by position. */
  type Values = map<Cell, Byte>

  predicate InGrid<T>(a: array2<T>, x: int, y: int)
  {
    0 <= x < a.Length0 && 0 <= y < a.Length1
  }

  /** The cell c lies inside the buffer. */
  predicate Within<T>(a: array2<T>, c: Cell)
  {
    InGrid(a, c.0, c.1)
  }

  /** Interior pixels: 1 <= x <= W-2 and 1 <= y <= H-2. */
  predicate Interior<T>(a: array2<T>, x: int, y: int)
  {
    0 < x < a.Length0 - 1 && 0 < y < a.Length1 - 1
  }

  predicate SameShape<T, U>(a: array2<T>, b: array2<U>)
  {
    a.Length0 == b.Length0 && a.Length1 == b.Length1
  }

  /** The contents of `a` as a value, one entry per pixel. */
  ghost function Snapshot(a: array2<Byte>): (g: Values)
    reads a
    ensures forall c: Cell :: c in g <==> Within(a, c)
    ensures forall i, j :: InGrid(a, i, j) ==> (i, j) in g && g[(i, j)] == a[i, j]
  {
    map i, j | 0 <= i < a.Length0 && 0 <= j < a.Length1 :: (i, j) := a[i, j]
  }
}
