/**
 * Gradient estimation: the integer Sobel sums of one interior pixel and the
 * loop that stores a magnitude and an angle for every interior pixel.
 *
 * The kernel tables are indexed [i + 1][j + 1] where i is the x offset and
 * j the y offset. The table written as "horizontal derivative" is therefore
 * applied across rows: gradientX is the weighted row below minus the row
 * above, and gradientY the weighted right column minus the left column.
 */
module Gradient {
  import opened Grid

  /** A 3x3 weight table. */
  type Kernel = k: seq<seq<int>> | |k| == 3 && forall r :: 0 <= r < 3 ==> |k[r]| == 3
    witness [[0, 0, 0], [0, 0, 0], [0, 0, 0]]

  const SobelX: Kernel := [[-1, 0, 1], [-2, 0, 2], [-1, 0, 1]]
  const SobelY: Kernel := [[-1, -2, -1], [0, 0, 0], [1, 2, 1]]

  /** The term the source adds for offset (i, j): weight times image(x + i, y + j). */
  function Term(k: Kernel, img: array2<Byte>, x: int, y: int, i: int, j: int): (r: int)
    reads img
    requires Interior(img, x, y) && -1 <= i <= 1 && -1 <= j <= 1
  {
    k[i + 1][j + 1] * img[x + i, y + j]
  }

  /** The terms for x offset i and y offsets -1 .. n - 1. */
  function RowPartial(k: Kernel, img: array2<Byte>, x: int, y: int, i: int, n: int): (r: int)
    reads img
    requires Interior(img, x, y) && -1 <= i <= 1 && -1 <= n <= 2
    decreases n + 1
  {
    if n == -1 then 0 else RowPartial(k, img, x, y, i, n - 1) + Term(k, img, x, y, i, n - 1)
  }

  /** The terms for x offsets -1 .. m - 1 and every y offset. */
  function Partial(k: Kernel, img: array2<Byte>, x: int, y: int, m: int): (r: int)
    reads img
    requires Interior(img, x, y) && -1 <= m <= 2
    decreases m + 1
  {
    if m == -1 then 0 else Partial(k, img, x, y, m - 1) + RowPartial(k, img, x, y, m - 1, 2)
  }

  /** The full 9-term weighted sum of the window around (x, y). */
  function Convolve(k: Kernel, img: array2<Byte>, x: int, y: int): (r: int)
    reads img
    requires Interior(img, x, y)
  {
    Partial(k, img, x, y, 2)
  }

  /** Row y of the window around column x, weighted 1, 2, 1. */
  function RowSmooth(img: array2<Byte>, x: int, y: int): (r: int)
    reads img
    requires 0 < x < img.Length0 - 1 && 0 <= y < img.Length1
  {
    img[x - 1, y] + 2 * img[x, y] + img[x + 1, y]
  }

  /** Column x of the window around row y, weighted 1, 2, 1. */
  function ColumnSmooth(img: array2<Byte>, x: int, y: int): (r: int)
    reads img
    requires 0 <= x < img.Length0 && 0 < y < img.Length1 - 1
  {
    img[x, y - 1] + 2 * img[x, y] + img[x, y + 1]
  }

  /** The source's gradientX: the row below minus the row above. */
  function GradientX(img: array2<Byte>, x: int, y: int): (r: int)
    reads img
    requires Interior(img, x, y)
  {
    RowSmooth(img, x, y + 1) - RowSmooth(img, x, y - 1)
  }

  /** The source's gradientY: the right column minus the left column. */
  function GradientY(img: array2<Byte>, x: int, y: int): (r: int)
    reads img
    requires Interior(img, x, y)
  {
    ColumnSmooth(img, x + 1, y) - ColumnSmooth(img, x - 1, y)
  }

  /** Applying SOBEL_X with the source's indexing yields the row difference. */
  lemma ConvolveSobelX(img: array2<Byte>, x: int, y: int)
    requires Interior(img, x, y)
    ensures Convolve(SobelX, img, x, y) == GradientX(img, x, y)
  {
    var k := SobelX;
    forall i | -1 <= i <= 1
      ensures RowPartial(k, img, x, y, i, 2) == k[i + 1][2] * img[x + i, y + 1] + k[i + 1][0] * img[x + i, y - 1]
    {
      assert RowPartial(k, img, x, y, i, 0) == Term(k, img, x, y, i, -1);
      assert RowPartial(k, img, x, y, i, 1) == Term(k, img, x, y, i, -1) + Term(k, img, x, y, i, 0);
    }
    assert Partial(k, img, x, y, 0) == RowPartial(k, img, x, y, -1, 2);
    assert Partial(k, img, x, y, 1) == RowPartial(k, img, x, y, -1, 2) + RowPartial(k, img, x, y, 0, 2);
  }

  /** Applying SOBEL_Y with the source's indexing yields the column difference. */
  lemma ConvolveSobelY(img: array2<Byte>, x: int, y: int)
    requires Interior(img, x, y)
    ensures Convolve(SobelY, img, x, y) == GradientY(img, x, y)
  {
    var k := SobelY;
    forall i | -1 <= i <= 1
      ensures RowPartial(k, img, x, y, i, 2)
        == k[i + 1][0] * img[x + i, y - 1] + k[i + 1][1] * img[x + i, y] + k[i + 1][2] * img[x + i, y + 1]
    {
      assert RowPartial(k, img, x, y, i, 0) == Term(k, img, x, y, i, -1);
      assert RowPartial(k, img, x, y, i, 1) == Term(k, img, x, y, i, -1) + Term(k, img, x, y, i, 0);
    }
    assert Partial(k, img, x, y, 0) == RowPartial(k, img, x, y, -1, 2);
    assert Partial(k, img, x, y, 1) == RowPartial(k, img, x, y, -1, 2) + RowPartial(k, img, x, y, 0, 2);
  }

  /**
   * The two integer sums of calculateGradient, accumulated in the source's
   * order (x offset outer, y offset inner).
   */
  method CalculateGradient(img: array2<Byte>, x: int, y: int) returns (gx: int, gy: int)
    requires Interior(img, x, y)
    ensures gx == GradientX(img, x, y)
    ensures gy == GradientY(img, x, y)
  {
    gx, gy := 0, 0;
    for i := -1 to 2
      invariant gx == Partial(SobelX, img, x, y, i)
      invariant gy == Partial(SobelY, img, x, y, i)
    {
      for j := -1 to 2
        invariant gx == Partial(SobelX, img, x, y, i) + RowPartial(SobelX, img, x, y, i, j)
        invariant gy == Partial(SobelY, img, x, y, i) + RowPartial(SobelY, img, x, y, i, j)
      {
        gx := gx + SobelX[i + 1][j + 1] * img[x + i, y + j];
        gy := gy + SobelY[i + 1][j + 1] * img[x + i, y + j];
      }
    }
    ConvolveSobelX(img, x, y);
    ConvolveSobelY(img, x, y);
  }

  /** Both sums vanish on a window of nine equal samples. */
  lemma UniformWindowIsFlat(img: array2<Byte>, x: int, y: int)
    requires Interior(img, x, y)
    requires forall i, j :: x - 1 <= i <= x + 1 && y - 1 <= j <= y + 1 ==> img[i, j] == img[x, y]
    ensures Convolve(SobelX, img, x, y) == 0 && Convolve(SobelY, img, x, y) == 0
  {
    ConvolveSobelX(img, x, y);
    ConvolveSobelY(img, x, y);
  }

  /** For byte samples each sum lies in [-1020, 1020]. */
  lemma GradientBounds(img: array2<Byte>, x: int, y: int)
    requires Interior(img, x, y)
    ensures -1020 <= Convolve(SobelX, img, x, y) <= 1020
    ensures -1020 <= Convolve(SobelY, img, x, y) <= 1020
  {
    ConvolveSobelX(img, x, y);
    ConvolveSobelY(img, x, y);
  }

  /**
   * One row of gradientInGray's scan: the interior pixels of row y receive
   * the magnitude and angle of their two sums, nothing else is written.
   */
  method GradientRow(gray: array2<Byte>, gradient: array2<Byte>, direction: array2<real>,
                     magnitude: (int, int) -> Byte, angle: (int, int) -> real, y: int)
    requires SameShape(gray, gradient) && SameShape(gray, direction) && gray != gradient
    requires 0 <= y < gray.Length1
    modifies gradient, direction
    ensures forall x :: Interior(gray, x, y) ==>
      gradient[x, y] == magnitude(GradientX(gray, x, y), GradientY(gray, x, y)) &&
      direction[x, y] == angle(GradientX(gray, x, y), GradientY(gray, x, y))
    ensures forall i, j :: InGrid(gray, i, j) && (j != y || !Interior(gray, i, j)) ==>
      gradient[i, j] == old(gradient[i, j]) && direction[i, j] == old(direction[i, j])
  {
    for x := 0 to gray.Length0
      invariant forall i :: Interior(gray, i, y) && i < x ==>
        gradient[i, y] == magnitude(GradientX(gray, i, y), GradientY(gray, i, y)) &&
        direction[i, y] == angle(GradientX(gray, i, y), GradientY(gray, i, y))
      invariant forall i, j :: InGrid(gray, i, j) && (j != y || !Interior(gray, i, j) || x <= i) ==>
        gradient[i, j] == old(gradient[i, j]) && direction[i, j] == old(direction[i, j])
    {
      if x > 0 && x < gray.Length0 - 1 && y > 0 && y < gray.Length1 - 1 {
        var gx, gy := CalculateGradient(gray, x, y);
        gradient[x, y] := magnitude(gx, gy);
        direction[x, y] := angle(gx, gy);
      }
    }
  }

  /**
   * The interior-only loop of gradientInGray (y outer, x inner): every
   * interior pixel receives the magnitude and angle of its two sums; border
   * pixels are not written. The floating-point magnitude (with its store
   * into a byte) and the angle are the parameters `magnitude` and `angle`.
   */
  method GradientInGray(gray: array2<Byte>, gradient: array2<Byte>, direction: array2<real>,
                        magnitude: (int, int) -> Byte, angle: (int, int) -> real)
    requires SameShape(gray, gradient) && SameShape(gray, direction) && gray != gradient
    modifies gradient, direction
    ensures forall x, y :: Interior(gray, x, y) ==>
      gradient[x, y] == magnitude(GradientX(gray, x, y), GradientY(gray, x, y)) &&
      direction[x, y] == angle(GradientX(gray, x, y), GradientY(gray, x, y))
    ensures forall x, y :: InGrid(gray, x, y) && !Interior(gray, x, y) ==>
      gradient[x, y] == old(gradient[x, y]) && direction[x, y] == old(direction[x, y])
  {
    for y := 0 to gray.Length1
      invariant forall i, j :: Interior(gray, i, j) && j < y ==>
        gradient[i, j] == magnitude(GradientX(gray, i, j), GradientY(gray, i, j)) &&
        direction[i, j] == angle(GradientX(gray, i, j), GradientY(gray, i, j))
      invariant forall i, j :: InGrid(gray, i, j) && (!Interior(gray, i, j) || y <= j) ==>
        gradient[i, j] == old(gradient[i, j]) && direction[i, j] == old(direction[i, j])
    {
      GradientRow(gray, gradient, direction, magnitude, angle, y);
    }
  }
}
