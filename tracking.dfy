/**
 * trackEdge and mark: the in-place hysteresis over the edge buffer.
 *
 * The mean of the map is integer arithmetic on an `unsigned int` sum and is
 * modelled exactly (including wrap-around). The standard deviation is
 * floating-point and is a parameter.
 */
module Tracking {
  import opened Grid
  import opened Hysteresis

  /** The range of the source's `unsigned int` accumulator. */
  const UIntRange := 0x1_0000_0000

  /** Largest width * height for which the source's `int` product does not overflow. */
  const IntRange := 0x8000_0000

  /**
   * mark: set (x, y) to 255, then visit the eight neighbours (dx outer, dy
   * inner). Each recursive call starts on a pixel that is not yet 255 and
   * turns it into 255, so the set of non-255 pixels shrinks.
   */
  method Mark(edge: array2<Byte>, x: int, y: int, low: Byte)
    requires InGrid(edge, x, y) && edge[x, y] != Edge
    modifies edge
    decreases Unmarked(Snapshot(edge)), 0
    ensures MarkedFrom(old(Snapshot(edge)), Snapshot(edge), low, (x, y))
  {
    ghost var pre := Snapshot(edge);
    edge[x, y] := Edge;
    SpreadingStarts(pre, Snapshot(edge), low, (x, y));
    for dx := -1 to 2
      invariant Spreading(pre, Snapshot(edge), low, (x, y))
      invariant Visited(Snapshot(edge), low, (x, y), dx, -1)
    {
      for dy := -1 to 2
        invariant Spreading(pre, Snapshot(edge), low, (x, y))
        invariant Visited(Snapshot(edge), low, (x, y), dx, dy)
      {
        UnmarkedShrinks(pre, Snapshot(edge), (x, y));
        MarkNeighbour(edge, x, y, dx, dy, low, pre);
      }
      NextColumn(Snapshot(edge), low, (x, y), dx);
    }
    VisitedAll(Snapshot(edge), low, (x, y));
  }

  /**
   * One neighbour visit of mark: recurse into (x + dx, y + dy) when it lies
   * in the image, is not yet 255 and is at least `low`.
   */
  method MarkNeighbour(edge: array2<Byte>, x: int, y: int, dx: int, dy: int, low: Byte, ghost pre: Values)
    requires -1 <= dx <= 1 && -1 <= dy <= 1
    requires Spreading(pre, Snapshot(edge), low, (x, y))
    requires Visited(Snapshot(edge), low, (x, y), dx, dy)
    modifies edge
    decreases Unmarked(Snapshot(edge)), 1
    ensures Spreading(pre, Snapshot(edge), low, (x, y))
    ensures Visited(Snapshot(edge), low, (x, y), dx, dy + 1)
  {
    var nx, ny := x + dx, y + dy;
    ghost var before := Snapshot(edge);
    assert Spreading(pre, before, low, (x, y)) && Visited(before, low, (x, y), dx, dy);
    if 0 <= nx < edge.Length0 && 0 <= ny < edge.Length1 && edge[nx, ny] != Edge && edge[nx, ny] >= low {
      assert Weak(before, low, (nx, ny));
      Mark(edge, nx, ny, low);
      ghost var after := Snapshot(edge);
      assert MarkedFrom(before, after, low, (nx, ny));
      NeighbourMarked(pre, before, after, low, (x, y), dx, dy);
    } else {
      assert Settled(before, low, (nx, ny));
      NeighbourSkipped(pre, before, low, (x, y), dx, dy);
    }
  }

  /**
   * The threshold pass of trackEdge, in raster order: flood from every pixel
   * that is at least `high` and not 255; clear every other pixel below `low`.
   */
  method ThresholdPass(edge: array2<Byte>, low: Byte, high: Byte)
    modifies edge
    ensures PassInv(old(Snapshot(edge)), Snapshot(edge), low, high, 0, edge.Length1)
  {
    ghost var init := Snapshot(edge);
    PassStarts(init, low, high);
    for y := 0 to edge.Length1
      invariant PassInv(init, Snapshot(edge), low, high, 0, y)
    {
      for x := 0 to edge.Length0
        invariant PassInv(init, Snapshot(edge), low, high, x, y)
      {
        ghost var cur := Snapshot(edge);
        if edge[x, y] >= high && edge[x, y] != Edge {
          Mark(edge, x, y, low);
          PassMarks(init, cur, Snapshot(edge), low, high, x, y);
        } else if edge[x, y] < low {
          edge[x, y] := 0;
          PassClears(init, cur, Snapshot(edge), low, high, x, y);
        } else {
          PassSkips(init, cur, low, high, x, y);
        }
      }
      PassNextRow(init, Snapshot(edge), low, high, edge.Length0, y);
    }
  }

  /** The final pass of trackEdge: every pixel that is not 255 becomes 0. */
  method ClearPass(edge: array2<Byte>)
    modifies edge
    ensures forall i, j :: InGrid(edge, i, j) ==> edge[i, j] == if old(edge[i, j]) == Edge then Edge else 0
  {
    for y := 0 to edge.Length1
      invariant forall i, j :: InGrid(edge, i, j) ==>
        edge[i, j] == if j < y && old(edge[i, j]) != Edge then 0 else old(edge[i, j])
    {
      for x := 0 to edge.Length0
        invariant forall i, j :: InGrid(edge, i, j) ==>
          edge[i, j] == if Before((i, j), x, y) && old(edge[i, j]) != Edge then 0 else old(edge[i, j])
      {
        if edge[x, y] != Edge {
          edge[x, y] := 0;
        }
      }
    }
  }

  /**
   * The part of trackEdge after the thresholds are known: the threshold
   * pass, then the clearing pass.
   */
  method TrackWithThresholds(edge: array2<Byte>, low: Byte, high: Byte)
    modifies edge
    ensures IsHysteresis(old(Snapshot(edge)), low, high, Snapshot(edge))
    ensures forall i, j :: InGrid(edge, i, j) ==> edge[i, j] == 0 || edge[i, j] == Edge
  {
    ghost var init := Snapshot(edge);
    ThresholdPass(edge, low, high);
    ghost var mid := Snapshot(edge);
    PassComplete(init, mid, low, high, 0, edge.Length1);
    ClearPass(edge);
    ghost var out := Snapshot(edge);
    forall c | c in init
      ensures out[c] == if init[c] == Edge || Tracked(init, low, high, c) then Edge else 0
    {
      assert out[c] == if mid[c] == Edge then Edge else 0;
    }
  }

  // ----- the mean -----

  /** Sum of row y over columns 0 .. n - 1. */
  function RowSum(a: array2<Byte>, y: int, n: int): (r: int)
    reads a
    requires 0 <= y < a.Length1 && 0 <= n <= a.Length0
  {
    if n == 0 then 0 else RowSum(a, y, n - 1) + a[n - 1, y]
  }

  /** Sum of rows 0 .. m - 1. */
  function Total(a: array2<Byte>, m: int): (r: int)
    reads a
    requires 0 <= m <= a.Length1
  {
    if m == 0 then 0 else Total(a, m - 1) + RowSum(a, m - 1, a.Length0)
  }

  /** `sum / numPixels` with the sum wrapped to 32 bits. */
  function MeanOf(a: array2<Byte>): (r: int)
    reads a
    requires 0 < a.Length0 && 0 < a.Length1
  {
    (Total(a, a.Length1) % UIntRange) / (a.Length0 * a.Length1)
  }

  lemma {:induction false} RowSumBounds(a: array2<Byte>, y: int, n: int)
    requires 0 <= y < a.Length1 && 0 <= n <= a.Length0
    ensures 0 <= RowSum(a, y, n) <= 255 * n
  {
    if n > 0 {
      RowSumBounds(a, y, n - 1);
    }
  }

  lemma {:induction false} TotalBounds(a: array2<Byte>, m: int)
    requires 0 <= m <= a.Length1
    ensures 0 <= Total(a, m) <= 255 * a.Length0 * m
  {
    if m > 0 {
      TotalBounds(a, m - 1);
      RowSumBounds(a, m - 1, a.Length0);
      assert 255 * a.Length0 * m == 255 * a.Length0 * (m - 1) + 255 * a.Length0;
    }
  }

  /** A quotient of a value at most 255 * n by n is at most 255. */
  lemma QuotientBound(t: int, n: int)
    requires 0 < n && 0 <= t <= 255 * n
    ensures 0 <= t / n <= 255
  {
    var q, r := t / n, t % n;
    assert t == q * n + r && 0 <= r < n;
    if q < 0 {
      MulMonotone(q, -1, n);
    }
    if q > 255 {
      MulMonotone(256, q, n);
    }
  }

  lemma {:induction false} MulMonotone(a: int, b: int, n: int)
    requires a <= b && 0 <= n
    ensures a * n <= b * n
  {
    if n > 0 {
      MulMonotone(a, b, n - 1);
      assert a * n == a * (n - 1) + a && b * n == b * (n - 1) + b;
    }
  }

  /**
   * The mean of the map is a byte; when width * height is at most
   * 16843009 the sum cannot wrap and the mean is the true truncated mean.
   */
  lemma MeanIsByte(a: array2<Byte>)
    requires 0 < a.Length0 && 0 < a.Length1
    ensures 0 <= MeanOf(a) <= 255
    ensures a.Length0 * a.Length1 <= 16843009 ==> MeanOf(a) == Total(a, a.Length1) / (a.Length0 * a.Length1)
  {
    var n := a.Length0 * a.Length1;
    TotalBounds(a, a.Length1);
    var t := Total(a, a.Length1);
    assert 0 <= t % UIntRange <= t;
    QuotientBound(t % UIntRange, n);
    if n <= 16843009 {
      assert t <= 255 * n <= 255 * 16843009 < UIntRange;
    }
  }

  /** The map of zeros has sum 0 and hence mean 0. */
  lemma AllZeroMean(a: array2<Byte>)
    requires 0 < a.Length0 && 0 < a.Length1
    requires forall i, j :: InGrid(a, i, j) ==> a[i, j] == 0
    ensures MeanOf(a) == 0
  {
    forall j, n | 0 <= j < a.Length1 && 0 <= n <= a.Length0 ensures RowSum(a, j, n) == 0 {
      RowSumZero(a, j, n);
    }
    TotalZero(a, a.Length1);
  }

  /** The same, for a buffer whose contents are the zero map. */
  lemma ZeroMapMean(a: array2<Byte>)
    requires 0 < a.Length0 && 0 < a.Length1
    ensures (forall c :: c in Snapshot(a) ==> Snapshot(a)[c] == 0) ==> MeanOf(a) == 0
  {
    if forall c :: c in Snapshot(a) ==> Snapshot(a)[c] == 0 {
      assert forall x, y :: InGrid(a, x, y) ==> a[x, y] == Snapshot(a)[(x, y)];
      AllZeroMean(a);
    }
  }

  lemma {:induction false} RowSumZero(a: array2<Byte>, y: int, n: int)
    requires 0 <= y < a.Length1 && 0 <= n <= a.Length0
    requires forall i, j :: InGrid(a, i, j) ==> a[i, j] == 0
    ensures RowSum(a, y, n) == 0
  {
    if n > 0 {
      RowSumZero(a, y, n - 1);
    }
  }

  lemma {:induction false} TotalZero(a: array2<Byte>, m: int)
    requires 0 <= m <= a.Length1
    requires forall j, n :: 0 <= j < a.Length1 && 0 <= n <= a.Length0 ==> RowSum(a, j, n) == 0
    ensures Total(a, m) == 0
  {
    if m > 0 {
      TotalZero(a, m - 1);
    }
  }

  // ----- the mean, stated on buffer contents -----

  /** The map holds every cell of a w-by-h grid. */
  ghost predicate Covers(g: Values, w: int, h: int)
  {
    forall i, j {:trigger (i, j) in g} :: 0 <= i < w && 0 <= j < h ==> (i, j) in g
  }

  /** Sum of row y of the map over columns 0 .. n - 1. */
  ghost function RowSumOf(g: Values, w: int, h: int, y: int, n: int): (r: int)
    requires Covers(g, w, h) && 0 <= y < h && 0 <= n <= w
  {
    if n == 0 then 0 else RowSumOf(g, w, h, y, n - 1) + g[(n - 1, y)]
  }

  /** Sum of rows 0 .. m - 1 of the map. */
  ghost function TotalOf(g: Values, w: int, h: int, m: int): (r: int)
    requires Covers(g, w, h) && 0 <= w && 0 <= m <= h
  {
    if m == 0 then 0 else TotalOf(g, w, h, m - 1) + RowSumOf(g, w, h, m - 1, w)
  }

  /** The mean trackEdge computes for a w-by-h map: the wrapped sum divided by w * h. */
  ghost function MeanOfMap(g: Values, w: int, h: int): (r: int)
    requires Covers(g, w, h) && 0 < w && 0 < h
    ensures 0 <= r
  {
    (TotalOf(g, w, h, h) % UIntRange) / (w * h)
  }

  lemma {:induction false} RowSumSnapshot(a: array2<Byte>, y: int, n: int)
    requires 0 <= y < a.Length1 && 0 <= n <= a.Length0
    ensures Covers(Snapshot(a), a.Length0, a.Length1)
    ensures RowSum(a, y, n) == RowSumOf(Snapshot(a), a.Length0, a.Length1, y, n)
  {
    if n > 0 {
      RowSumSnapshot(a, y, n - 1);
    }
  }

  lemma {:induction false} TotalSnapshot(a: array2<Byte>, m: int)
    requires 0 <= m <= a.Length1
    ensures Covers(Snapshot(a), a.Length0, a.Length1)
    ensures Total(a, m) == TotalOf(Snapshot(a), a.Length0, a.Length1, m)
  {
    if m > 0 {
      TotalSnapshot(a, m - 1);
      RowSumSnapshot(a, m - 1, a.Length0);
    }
  }

  /** The mean of a buffer is the mean of its contents. */
  lemma MeanSnapshot(a: array2<Byte>)
    requires 0 < a.Length0 && 0 < a.Length1
    ensures Covers(Snapshot(a), a.Length0, a.Length1)
    ensures MeanOf(a) == MeanOfMap(Snapshot(a), a.Length0, a.Length1)
  {
    TotalSnapshot(a, a.Length1);
  }

  lemma {:induction false} RowSumOfZero(g: Values, w: int, h: int, y: int, n: int)
    requires Covers(g, w, h) && 0 <= y < h && 0 <= n <= w
    requires forall c :: c in g ==> g[c] == 0
    ensures RowSumOf(g, w, h, y, n) == 0
  {
    if n > 0 {
      RowSumOfZero(g, w, h, y, n - 1);
    }
  }

  lemma {:induction false} TotalOfZero(g: Values, w: int, h: int, m: int)
    requires Covers(g, w, h) && 0 <= w && 0 <= m <= h
    requires forall c :: c in g ==> g[c] == 0
    ensures TotalOf(g, w, h, m) == 0
  {
    if m > 0 {
      TotalOfZero(g, w, h, m - 1);
      RowSumOfZero(g, w, h, m - 1, w);
    }
  }

  /** An all-zero map has mean 0. */
  lemma ZeroMapHasMeanZero(g: Values, w: int, h: int)
    requires Covers(g, w, h) && 0 < w && 0 < h
    requires forall c :: c in g ==> g[c] == 0
    ensures MeanOfMap(g, w, h) == 0
  {
    TotalOfZero(g, w, h, h);
  }

  /**
   * Lines computing `mean` in trackEdge: sum every pixel into an unsigned
   * 32-bit accumulator in raster order, then divide by width * height.
   */
  method MeanIntensity(edge: array2<Byte>) returns (mean: int)
    requires 0 < edge.Length0 && 0 < edge.Length1 && edge.Length0 * edge.Length1 < IntRange
    ensures mean == MeanOf(edge)
    ensures 0 <= mean <= 255
  {
    var sum := 0;
    var numPixels := edge.Length0 * edge.Length1;
    for y := 0 to edge.Length1
      invariant sum == Total(edge, y) % UIntRange
    {
      for x := 0 to edge.Length0
        invariant sum == (Total(edge, y) + RowSum(edge, y, x)) % UIntRange
      {
        sum := (sum + edge[x, y]) % UIntRange;
      }
    }
    mean := sum / numPixels;
    MeanIsByte(edge);
  }

  // ----- the thresholds -----

  /**
   * A non-negative float stored into an `unsigned char`: truncation toward
   * zero. Above 255 the conversion is undefined in C++; the model keeps the
   * low eight bits of the truncated value.
   */
  function ToUnsignedChar(v: real): (b: Byte)
    requires 0.0 <= v
    ensures v < 256.0 ==> b as real <= v < b as real + 1.0
  {
    v.Floor % 256
  }

  /**
   * (lowThreshold, highThreshold) = (mean + stdDev, mean + 2 * stdDev), each
   * stored into an `unsigned char`.
   */
  function ThresholdPair(mean: int, stdDev: real): (t: (Byte, Byte))
    requires 0 <= mean && 0.0 <= stdDev
    ensures mean as real + 2.0 * stdDev < 256.0 ==> mean <= t.0 <= t.1
    ensures stdDev == 0.0 && mean < 256 ==> t == (mean, mean)
  {
    (ToUnsignedChar(mean as real + 1.0 * stdDev), ToUnsignedChar(mean as real + 2.0 * stdDev))
  }

  /** A zero mean with a zero standard deviation gives both thresholds 0. */
  lemma ZeroThresholds()
    ensures ThresholdPair(0, 0.0) == (0, 0)
  {
  }

  /**
   * trackEdge: thresholds from the mean of the map and the standard
   * deviation `stdDev`, then hysteresis in place.
   */
  method TrackEdge(edge: array2<Byte>, stdDev: real)
    requires 0 < edge.Length0 && 0 < edge.Length1 && edge.Length0 * edge.Length1 < IntRange
    requires 0.0 <= stdDev
    modifies edge
    ensures IsHysteresis(old(Snapshot(edge)), ThresholdPair(old(MeanOf(edge)), stdDev).0,
                         ThresholdPair(old(MeanOf(edge)), stdDev).1, Snapshot(edge))
    ensures forall i, j :: InGrid(edge, i, j) ==> edge[i, j] == 0 || edge[i, j] == Edge
  {
    var mean := MeanIntensity(edge);
    var (low, high) := ThresholdPair(mean, stdDev);
    TrackWithThresholds(edge, low, high);
  }
}
