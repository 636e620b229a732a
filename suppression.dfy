/**
 * Non-maximum suppression: an interior pixel keeps its gradient magnitude
 * when it is at least both neighbours that lie along its discretised
 * direction, and becomes 0 otherwise. The result goes to a separate buffer,
 * so the decisions never see each other.
 */
module Suppression {
  import opened Grid
  import opened Direction

  /**
   * The step (sx, sy) whose two ends (x + sx, y + sy) and (x - sx, y - sy)
   * are compared for an orientation label.
   */
  function Across(dir: int): (step: (int, int))
    requires 0 <= dir < 4
    ensures -1 <= step.0 <= 1 && -1 <= step.1 <= 1 && step != (0, 0)
  {
    if dir == 0 then (1, 0)
    else if dir == 1 then (1, 1)
    else if dir == 2 then (0, 1)
    else (1, -1)
  }

  /** (x, y) is at least both of its neighbours along `step`. */
  predicate IsLocalMaximum(gradient: array2<Byte>, x: int, y: int, step: (int, int))
    reads gradient
    requires Interior(gradient, x, y)
    requires -1 <= step.0 <= 1 && -1 <= step.1 <= 1
  {
    gradient[x, y] >= gradient[x + step.0, y + step.1] &&
    gradient[x, y] >= gradient[x - step.0, y - step.1]
  }

  /** The value suppression gives an interior pixel. */
  function SuppressAt(gradient: array2<Byte>, direction: array2<real>, x: int, y: int): (v: Byte)
    reads gradient, direction
    requires SameShape(gradient, direction) && Interior(gradient, x, y)
    ensures v == gradient[x, y] || v == 0
    ensures v <= gradient[x, y]
  {
    if IsLocalMaximum(gradient, x, y, Across(DiscretizeDirection(direction[x, y])))
    then gradient[x, y] else 0
  }

  /**
   * The decision nonMaxSuppression makes for one interior pixel: the
   * neighbour pair is chosen by a switch on the orientation label.
   */
  method SuppressPixel(gradient: array2<Byte>, direction: array2<real>, x: int, y: int) returns (v: Byte)
    requires SameShape(gradient, direction) && Interior(gradient, x, y)
    ensures v == SuppressAt(gradient, direction, x, y)
  {
    var angle := direction[x, y];
    var dir := DiscretizeDirection(angle);
    var magnitude := gradient[x, y];
    var mag1, mag2 := 0, 0;
    match dir {
      case 0 =>
        mag1, mag2 := gradient[x - 1, y], gradient[x + 1, y];
      case 1 =>
        mag1, mag2 := gradient[x - 1, y - 1], gradient[x + 1, y + 1];
      case 2 =>
        mag1, mag2 := gradient[x, y - 1], gradient[x, y + 1];
      case 3 =>
        mag1, mag2 := gradient[x + 1, y - 1], gradient[x - 1, y + 1];
      case _ =>
        // the source's -1 label; DiscretizeDirection never returns it
    }
    if magnitude >= mag1 && magnitude >= mag2 {
      v := magnitude;
    } else {
      v := 0;
    }
  }

  /**
   * nonMaxSuppression: raster scan (y outer, x inner) writing every interior
   * pixel of `edge`; border pixels are not written.
   */
  method NonMaxSuppression(edge: array2<Byte>, gradient: array2<Byte>, direction: array2<real>)
    requires SameShape(edge, gradient) && SameShape(edge, direction) && edge != gradient
    modifies edge
    ensures forall x, y :: Interior(edge, x, y) ==> edge[x, y] == SuppressAt(gradient, direction, x, y)
    ensures forall x, y :: InGrid(edge, x, y) && !Interior(edge, x, y) ==> edge[x, y] == old(edge[x, y])
  {
    for y := 0 to edge.Length1
      invariant forall i, j :: Interior(edge, i, j) && j < y ==> edge[i, j] == SuppressAt(gradient, direction, i, j)
      invariant forall i, j :: InGrid(edge, i, j) && (!Interior(edge, i, j) || y <= j) ==> edge[i, j] == old(edge[i, j])
    {
      for x := 0 to edge.Length0
        invariant forall i, j :: Interior(edge, i, j) && (j < y || (j == y && i < x)) ==>
          edge[i, j] == SuppressAt(gradient, direction, i, j)
        invariant forall i, j :: InGrid(edge, i, j) && (!Interior(edge, i, j) || y < j || (j == y && x <= i)) ==>
          edge[i, j] == old(edge[i, j])
      {
        if x > 0 && x < edge.Length0 - 1 && y > 0 && y < edge.Length1 - 1 {
          edge[x, y] := SuppressPixel(gradient, direction, x, y);
        }
      }
    }
  }

  /**
   * Suppressing the suppressed map again, with the same directions and a
   * zero border, changes no interior pixel.
   */
  lemma SuppressionIdempotent(gradient: array2<Byte>, edge: array2<Byte>, direction: array2<real>)
    requires SameShape(edge, gradient) && SameShape(edge, direction)
    requires forall x, y :: Interior(edge, x, y) ==> edge[x, y] == SuppressAt(gradient, direction, x, y)
    requires forall x, y :: InGrid(edge, x, y) && !Interior(edge, x, y) ==> edge[x, y] == 0
    ensures forall x, y :: Interior(edge, x, y) ==> SuppressAt(edge, direction, x, y) == edge[x, y]
  {
    forall x, y | Interior(edge, x, y)
      ensures SuppressAt(edge, direction, x, y) == edge[x, y]
    {
      var step := Across(DiscretizeDirection(direction[x, y]));
      var (x1, y1, x2, y2) := (x + step.0, y + step.1, x - step.0, y - step.1);
      assert edge[x1, y1] <= gradient[x1, y1] && edge[x2, y2] <= gradient[x2, y2] by {
        if Interior(edge, x1, y1) {
          assert edge[x1, y1] == SuppressAt(gradient, direction, x1, y1);
        }
        if Interior(edge, x2, y2) {
          assert edge[x2, y2] == SuppressAt(gradient, direction, x2, y2);
        }
      }
    }
  }
}
