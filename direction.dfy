/**
 * Discretisation of a gradient angle (degrees) into four orientation labels:
 * 0 east-west, 1 north-east/south-west, 2 north-south, 3 north-west/south-east.
 * The angle is only compared and shifted by 180, so it is modelled as a real.
 */
module Direction {

  /**
   * discretizeDirection: fold negative angles by adding 180, then test the
   * four sectors. The final branch (the source's -1 error return) is kept,
   * and the contract shows that no angle reaches it.
   */
  function DiscretizeDirection(angle: real): (dir: int)
    ensures 0 <= dir < 4
  {
    var a := if angle < 0.0 then angle + 180.0 else angle;
    if (a < 22.5 && a >= -22.5) || a >= 157.5 || a < -157.5 then 0
    else if (a >= 22.5 && a < 67.5) || (a < -112.5 && a >= -157.5) then 1
    else if (a >= 67.5 && a < 112.5) || (a < -67.5 && a >= -112.5) then 2
    else if (a >= 112.5 && a < 157.5) || (a < -22.5 && a >= -67.5) then 3
    else -1
  }

  /**
   * Reference labelling: the index, modulo 4, of the multiple of 45 degrees
   * nearest to the angle (ties go to the larger multiple).
   */
  function NearestAxis(angle: real): (dir: int)
  {
    ((angle + 22.5) / 45.0).Floor % 4
  }

  /** On every angle atan2 can produce, the source's sectors are the nearest-axis rule. */
  lemma DiscretizeIsNearestAxis(angle: real)
    requires -180.0 <= angle <= 180.0
    ensures DiscretizeDirection(angle) == NearestAxis(angle)
  {
    var q := (angle + 22.5) / 45.0;
    if angle < -157.5 {
      assert q.Floor == -4;
    } else if angle < -112.5 {
      assert q.Floor == -3;
    } else if angle < -67.5 {
      assert q.Floor == -2;
    } else if angle < -22.5 {
      assert q.Floor == -1;
    } else if angle < 22.5 {
      assert q.Floor == 0;
    } else if angle < 67.5 {
      assert q.Floor == 1;
    } else if angle < 112.5 {
      assert q.Floor == 2;
    } else if angle < 157.5 {
      assert q.Floor == 3;
    } else {
      assert q.Floor == 4;
    }
  }

  /** An angle in [-180, 0) and its opposite a + 180 get the same label. */
  lemma OppositeAnglesAgree(angle: real)
    requires -180.0 <= angle < 0.0
    ensures DiscretizeDirection(angle) == DiscretizeDirection(angle + 180.0)
  {
  }
}
