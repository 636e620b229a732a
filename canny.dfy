/**
 * extractEdgeCanny: gradient, non-maximum suppression and hysteresis
 * tracking, each on its own buffer of the image's size.
 *
 * The image enters as its grayscale buffer. The floating-point magnitude and
 * angle of a gradient are the parameters `magnitude` and `angle`, and the
 * standard deviation trackEdge computes for the suppressed map is `stdDev`.
 */
module Canny {
  import opened Grid
  import opened Gradient
  import opened Suppression
  import opened Hysteresis
  import opened Tracking

  /** Every sample of the image equals the one at (0, 0). */
  ghost predicate Uniform(gray: array2<Byte>)
    reads gray
  {
    forall x, y :: InGrid(gray, x, y) ==> gray[x, y] == gray[0, 0]
  }

  /**
   * The gradient and direction buffers after the first stage: in mode 0 the
   * interior holds the magnitude and angle of the Sobel sums, in any other
   * mode it keeps its initial zeros; the border is never written.
   */
  ghost predicate GradientStage(gray: array2<Byte>, mode: int, magnitude: (int, int) -> Byte,
                                angle: (int, int) -> real, gradient: array2<Byte>, direction: array2<real>)
    reads gray, gradient, direction
  {
    SameShape(gradient, gray) && SameShape(direction, gray) &&
    (forall x, y :: Interior(gray, x, y) ==>
      gradient[x, y] == (if mode == 0 then magnitude(GradientX(gray, x, y), GradientY(gray, x, y)) else 0) &&
      direction[x, y] == (if mode == 0 then angle(GradientX(gray, x, y), GradientY(gray, x, y)) else 0.0)) &&
    (forall x, y :: InGrid(gray, x, y) && !Interior(gray, x, y) ==> gradient[x, y] == 0)
  }

  /**
   * The suppressed map: every interior pixel as non-maximum suppression
   * decides it, and 0 on the border, which suppression does not write.
   */
  ghost predicate SuppressedFrom(gradient: array2<Byte>, direction: array2<real>, thinned: Values)
    reads gradient, direction
  {
    SameShape(gradient, direction) &&
    (forall c :: c in thinned <==> Within(gradient, c)) &&
    (forall x, y :: Interior(gradient, x, y) ==> (x, y) in thinned && thinned[(x, y)] == SuppressAt(gradient, direction, x, y)) &&
    (forall x, y :: InGrid(gradient, x, y) && !Interior(gradient, x, y) ==> (x, y) in thinned && thinned[(x, y)] == 0)
  }

  /**
   * The gradient buffer is all zero when no gradient was computed (mode
   * other than 0) or when the image is uniform and a zero gradient has
   * magnitude 0.
   */
  lemma FlatGradient(gray: array2<Byte>, mode: int, magnitude: (int, int) -> Byte, angle: (int, int) -> real,
                     gradient: array2<Byte>, direction: array2<real>)
    requires GradientStage(gray, mode, magnitude, angle, gradient, direction)
    requires mode != 0 || (Uniform(gray) && magnitude(0, 0) == 0)
    ensures forall x, y :: InGrid(gradient, x, y) ==> gradient[x, y] == 0
  {
    forall x, y | Interior(gray, x, y) ensures gradient[x, y] == 0 {
      if mode == 0 {
        assert GradientX(gray, x, y) == 0 && GradientY(gray, x, y) == 0;
      }
    }
  }

  /** Suppressing an all-zero gradient gives an all-zero map. */
  lemma SuppressedFlat(gradient: array2<Byte>, direction: array2<real>, thinned: Values)
    requires SuppressedFrom(gradient, direction, thinned)
    requires forall x, y :: InGrid(gradient, x, y) ==> gradient[x, y] == 0
    ensures forall c :: c in thinned ==> thinned[c] == 0
  {
    forall c | c in thinned ensures thinned[c] == 0 {
      var (x, y) := c;
      if Interior(gradient, x, y) {
        assert SuppressAt(gradient, direction, x, y) <= gradient[x, y];
      }
    }
  }

  /**
   * The first stage of extractEdgeCanny: allocate the gradient and direction
   * buffers, then fill their interiors from the grayscale image in mode 0.
   * In any other mode the colour gradient, which is not implemented, writes
   * nothing.
   */
  method ComputeGradient(gray: array2<Byte>, mode: int, magnitude: (int, int) -> Byte, angle: (int, int) -> real)
    returns (gradient: array2<Byte>, direction: array2<real>)
    ensures fresh(gradient) && fresh(direction)
    ensures GradientStage(gray, mode, magnitude, angle, gradient, direction)
  {
    gradient := new Byte[gray.Length0, gray.Length1]((i, j) => 0);
    direction := new real[gray.Length0, gray.Length1]((i, j) => 0.0);
    if mode == 0 {
      GradientInGray(gray, gradient, direction, magnitude, angle);
    }
  }

  /** The second stage: allocate the edge buffer and run non-maximum suppression into it. */
  method SuppressStage(gradient: array2<Byte>, direction: array2<real>) returns (edge: array2<Byte>)
    requires SameShape(gradient, direction)
    ensures fresh(edge) && SameShape(edge, gradient)
    ensures SuppressedFrom(gradient, direction, Snapshot(edge))
  {
    edge := new Byte[gradient.Length0, gradient.Length1]((i, j) => 0);
    NonMaxSuppression(edge, gradient, direction);
  }

  /**
   * The third stage: hysteresis tracking of the suppressed map in place.
   * `thinned` is the map it starts from and `mean` the mean it computes.
   */
  method TrackStage(edge: array2<Byte>, stdDev: real) returns (ghost thinned: Values, ghost mean: int)
    requires 0 < edge.Length0 && 0 < edge.Length1 && edge.Length0 * edge.Length1 < IntRange
    requires 0.0 <= stdDev
    modifies edge
    ensures thinned == old(Snapshot(edge))
    ensures mean == old(MeanOf(edge))
    ensures Covers(thinned, edge.Length0, edge.Length1) && mean == MeanOfMap(thinned, edge.Length0, edge.Length1)
    ensures 0 <= mean <= 255 && ((forall c :: c in thinned ==> thinned[c] == 0) ==> mean == 0)
    ensures IsHysteresis(thinned, ThresholdPair(mean, stdDev).0, ThresholdPair(mean, stdDev).1, Snapshot(edge))
    ensures forall x, y :: InGrid(edge, x, y) ==> edge[x, y] == 0 || edge[x, y] == Edge
  {
    thinned := Snapshot(edge);
    mean := MeanOf(edge);
    MeanSnapshot(edge);
    MeanIsByte(edge);
    ZeroMapMean(edge);
    TrackEdge(edge, stdDev);
  }

  /**
   * Runs the three stages and returns the edge map. `mode` 0 computes the
   * gradient from the grayscale image; any other mode leaves the gradient
   * buffer as allocated and still runs suppression and tracking.
   *
   * The ghost results name the intermediate results: the gradient and
   * direction buffers, the suppressed map `thinned` that trackEdge starts
   * from, and the `mean` it computes for that map.
   */
  method ExtractEdgeCanny(gray: array2<Byte>, mode: int, magnitude: (int, int) -> Byte,
                          angle: (int, int) -> real, stdDev: real)
    returns (edge: array2<Byte>, ghost gradientBuffer: array2<Byte>, ghost directionBuffer: array2<real>,
             ghost thinned: Values, ghost mean: int)
    requires 0 < gray.Length0 && 0 < gray.Length1 && gray.Length0 * gray.Length1 < IntRange
    requires 0.0 <= stdDev
    ensures fresh(edge) && SameShape(edge, gray)
    ensures GradientStage(gray, mode, magnitude, angle, gradientBuffer, directionBuffer)
    ensures SuppressedFrom(gradientBuffer, directionBuffer, thinned)
    ensures Covers(thinned, gray.Length0, gray.Length1) && mean == MeanOfMap(thinned, gray.Length0, gray.Length1)
    ensures 0 <= mean <= 255 && ((forall c :: c in thinned ==> thinned[c] == 0) ==> mean == 0)
    ensures IsHysteresis(thinned, ThresholdPair(mean, stdDev).0, ThresholdPair(mean, stdDev).1, Snapshot(edge))
    ensures forall x, y :: InGrid(edge, x, y) ==> edge[x, y] == 0 || edge[x, y] == Edge
  {
    var gradient, direction := ComputeGradient(gray, mode, magnitude, angle);
    gradientBuffer, directionBuffer := gradient, direction;
    edge := SuppressStage(gradient, direction);
    label Suppressed:
    thinned, mean := TrackStage(edge, stdDev);
    assert unchanged@Suppressed(gray, gradient, direction);
  }

  /** In colour mode, or for a uniform image whose zero gradient has magnitude 0, the suppressed map is all zero. */
  lemma FlatImageSuppressed(gray: array2<Byte>, mode: int, magnitude: (int, int) -> Byte, angle: (int, int) -> real,
                            gradient: array2<Byte>, direction: array2<real>, thinned: Values)
    requires GradientStage(gray, mode, magnitude, angle, gradient, direction)
    requires SuppressedFrom(gradient, direction, thinned)
    requires mode != 0 || (Uniform(gray) && magnitude(0, 0) == 0)
    ensures forall c :: c in thinned ==> thinned[c] == 0
  {
    FlatGradient(gray, mode, magnitude, angle, gradient, direction);
    SuppressedFlat(gradient, direction, thinned);
  }

  /**
   * Tracking an all-zero w-by-h map with stdDev 0: its mean is 0, so both
   * thresholds are 0 and every pixel becomes 255.
   */
  lemma ZeroMapIsAllEdge(thinned: Values, w: int, h: int, mean: int, out: Values)
    requires 0 < w && 0 < h
    requires Covers(thinned, w, h) && mean == MeanOfMap(thinned, w, h)
    requires forall c :: c in thinned ==> thinned[c] == 0
    requires IsHysteresis(thinned, ThresholdPair(mean, 0.0).0, ThresholdPair(mean, 0.0).1, out)
    ensures forall c :: c in out <==> c in thinned
    ensures forall c :: c in out ==> out[c] == Edge
  {
    ZeroMapHasMeanZero(thinned, w, h);
    ZeroThresholds();
    AllZeroIsAllEdge(thinned, out);
  }

  /**
   * A uniform image (whose zero gradient has magnitude 0), or the colour
   * mode, which writes no gradient: the suppressed map is all zero, its mean
   * is 0, and with stdDev 0 both thresholds are 0, so every pixel of the
   * output is 255.
   */
  lemma FlatImageIsAllEdge(gray: array2<Byte>, mode: int, magnitude: (int, int) -> Byte, angle: (int, int) -> real,
                           gradient: array2<Byte>, direction: array2<real>, thinned: Values, mean: int, out: Values)
    requires 0 < gray.Length0 && 0 < gray.Length1
    requires GradientStage(gray, mode, magnitude, angle, gradient, direction)
    requires SuppressedFrom(gradient, direction, thinned)
    requires Covers(thinned, gray.Length0, gray.Length1) && mean == MeanOfMap(thinned, gray.Length0, gray.Length1)
    requires IsHysteresis(thinned, ThresholdPair(mean, 0.0).0, ThresholdPair(mean, 0.0).1, out)
    requires mode != 0 || (Uniform(gray) && magnitude(0, 0) == 0)
    ensures forall x, y :: InGrid(gray, x, y) ==> (x, y) in out && out[(x, y)] == Edge
  {
    FlatImageSuppressed(gray, mode, magnitude, angle, gradient, direction, thinned);
    ZeroMapIsAllEdge(thinned, gray.Length0, gray.Length1, mean, out);
    forall x, y | InGrid(gray, x, y) ensures (x, y) in out && out[(x, y)] == Edge {
      assert Within(gradient, (x, y));
    }
  }
}
