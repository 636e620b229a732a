/**
 * What hysteresis tracking computes, stated on buffer contents (`Values`).
 *
 * A pixel is Strong when it is at least the high threshold and Weak when it
 * is at least the low threshold; neither may already hold the edge value 255.
 * The final map has 255 exactly on the pixels that held 255 on entry and on
 * the pixels reached from a Strong pixel by an 8-connected chain of Weak
 * pixels (IsHysteresis). The remaining predicates are the invariants that the
 * recursive flood fill and the raster threshold pass keep.
 */
module Hysteresis {
  import opened Grid

  /** The value of an edge pixel. */
  const Edge: Byte := 255

  /** 8-connected neighbours. */
  predicate Near(c: Cell, d: Cell)
  {
    c != d && -1 <= c.0 - d.0 <= 1 && -1 <= c.1 - d.1 <= 1
  }

  ghost predicate SameCells(a: Values, b: Values)
  {
    forall c :: c in a <==> c in b
  }

  /** A pixel the flood may enter: at least `low` and not an edge. */
  predicate Weak(g: Values, low: int, c: Cell)
  {
    c in g && low <= g[c] && g[c] != Edge
  }

  /** A pixel the threshold pass seeds from: at least `high` and not an edge. */
  predicate Strong(g: Values, high: int, c: Cell)
  {
    c in g && high <= g[c] && g[c] != Edge
  }

  /** p starts inside the grid; every later pixel is Weak and next to its predecessor. */
  predicate IsChain(g: Values, low: int, p: seq<Cell>)
  {
    |p| > 0 && p[0] in g &&
    forall k :: 0 < k < |p| ==> Weak(g, low, p[k]) && Near(p[k - 1], p[k])
  }

  ghost predicate Reaches(g: Values, low: int, s: Cell, c: Cell)
  {
    exists p :: IsChain(g, low, p) && p[0] == s && p[|p| - 1] == c
  }

  /** c is joined to some Strong pixel by a chain of Weak pixels. */
  ghost predicate Tracked(g: Values, low: int, high: int, c: Cell)
  {
    exists s :: Strong(g, high, s) && Reaches(g, low, s, c)
  }

  /** `out` is the result of hysteresis with thresholds low and high on `init`. */
  ghost predicate IsHysteresis(init: Values, low: int, high: int, out: Values)
  {
    SameCells(init, out) &&
    forall c :: c in init ==>
      out[c] == (if init[c] == Edge || Tracked(init, low, high, c) then Edge else 0)
  }

  /** Every pixel keeps its value or becomes 255. */
  ghost predicate OnlyMarks(pre: Values, post: Values)
  {
    SameCells(pre, post) && forall c :: c in pre ==> post[c] == pre[c] || post[c] == Edge
  }

  /** Outside the grid, an edge, or below the low threshold: the flood stops here. */
  predicate Settled(g: Values, low: int, c: Cell)
  {
    c in g ==> g[c] == Edge || g[c] < low
  }

  /** Every pixel that became an edge since `init` has only settled neighbours. */
  ghost predicate Closed(init: Values, cur: Values, low: int)
  {
    forall c, n :: c in init && init[c] != Edge && c in cur && cur[c] == Edge && Near(c, n) ==> Settled(cur, low, n)
  }

  /** The pixels that are not yet edges; the flood fill shrinks this set. */
  ghost function Unmarked(g: Values): set<Cell>
  {
    set c | c in g && g[c] != Edge
  }

  /**
   * State of a flood fill started at s on `pre`, while it runs: s is an edge,
   * only 255 is written, every written pixel is reached from s, and every
   * written pixel other than s has only settled neighbours.
   */
  ghost predicate Spreading(pre: Values, cur: Values, low: int, s: Cell)
  {
    OnlyMarks(pre, cur) && s in pre && cur[s] == Edge &&
    (forall c :: c in pre && cur[c] != pre[c] ==> Reaches(pre, low, s, c)) &&
    (forall c, n :: c in pre && c != s && pre[c] != Edge && cur[c] == Edge && Near(c, n) ==> Settled(cur, low, n))
  }

  /** State after a flood fill from s: Spreading, and the neighbours of s are settled too. */
  ghost predicate MarkedFrom(pre: Values, post: Values, low: int, s: Cell)
  {
    Spreading(pre, post, low, s) && forall n :: Near(s, n) ==> Settled(post, low, n)
  }

  /** A chain over cur stays a chain over pre when cur only added edges. */
  lemma ChainBeforeMarks(pre: Values, cur: Values, low: int, p: seq<Cell>)
    requires OnlyMarks(pre, cur) && IsChain(cur, low, p)
    ensures IsChain(pre, low, p)
  {
    forall k | 0 < k < |p| ensures Weak(pre, low, p[k]) {
      assert Weak(cur, low, p[k]);
    }
  }

  /** Marking s on an unmarked pixel starts a flood fill. */
  lemma SpreadingStarts(pre: Values, cur: Values, low: int, s: Cell)
    requires s in pre && pre[s] != Edge
    requires SameCells(pre, cur)
    requires forall c :: c in pre ==> cur[c] == if c == s then Edge else pre[c]
    ensures Spreading(pre, cur, low, s)
  {
    assert IsChain(pre, low, [s]);
    assert Reaches(pre, low, s, s);
  }

  /** Marking a pixel that was not an edge removes it from Unmarked. */
  lemma UnmarkedShrinks(pre: Values, cur: Values, s: Cell)
    requires OnlyMarks(pre, cur) && s in pre && pre[s] != Edge && cur[s] == Edge
    ensures Unmarked(cur) < Unmarked(pre)
  {
    assert s in Unmarked(pre) && s !in Unmarked(cur);
  }

  /**
   * A nested flood fill from a Weak neighbour n of s keeps the outer fill's
   * state: its chains extend the outer ones through n.
   */
  lemma SpreadingStep(pre: Values, mid: Values, post: Values, low: int, s: Cell, n: Cell)
    requires Spreading(pre, mid, low, s)
    requires Near(s, n) && Weak(mid, low, n)
    requires MarkedFrom(mid, post, low, n)
    ensures Spreading(pre, post, low, s)
  {
    forall c | c in pre && post[c] != pre[c]
      ensures Reaches(pre, low, s, c)
    {
      if mid[c] == pre[c] {
        var q :| IsChain(mid, low, q) && q[0] == n && q[|q| - 1] == c;
        ChainBeforeMarks(pre, mid, low, q);
        var p := [s] + q;
        assert Weak(pre, low, n);
        assert IsChain(pre, low, p) by {
          forall k | 0 < k < |p| ensures Weak(pre, low, p[k]) && Near(p[k - 1], p[k]) {
            if k > 1 {
              assert p[k] == q[k - 1] && p[k - 1] == q[k - 2];
            }
          }
        }
        assert p[|p| - 1] == c;
      }
    }
    forall c, m | c in pre && c != s && pre[c] != Edge && post[c] == Edge && Near(c, m)
      ensures Settled(post, low, m)
    {
      if mid[c] == Edge {
        assert Settled(mid, low, m);
      } else if c == n {
        assert Near(n, m);
      }
    }
  }

  /**
   * The neighbours of s that mark has already visited, offset dx outer and dy
   * inner, are all settled.
   */
  ghost predicate Visited(g: Values, low: int, s: Cell, dx: int, dy: int)
  {
    forall n :: VisitedBefore(s, n, dx, dy) ==> Settled(g, low, n)
  }

  /** n is a neighbour offset of s that mark visits before offset (dx, dy). */
  predicate VisitedBefore(s: Cell, n: Cell, dx: int, dy: int)
  {
    -1 <= n.0 - s.0 <= 1 && -1 <= n.1 - s.1 <= 1 &&
    (n.0 - s.0 < dx || (n.0 - s.0 == dx && n.1 - s.1 < dy))
  }

  /** Visiting neighbour (dx, dy) settles it and keeps the earlier ones settled. */
  lemma VisitStep(pre: Values, post: Values, low: int, s: Cell, dx: int, dy: int)
    requires Visited(pre, low, s, dx, dy) && OnlyMarks(pre, post)
    requires Settled(post, low, (s.0 + dx, s.1 + dy))
    ensures Visited(post, low, s, dx, dy + 1)
  {
    forall n | VisitedBefore(s, n, dx, dy + 1)
      ensures Settled(post, low, n)
    {
      if n != (s.0 + dx, s.1 + dy) {
        assert Settled(pre, low, n);
      }
    }
  }

  /**
   * Visiting neighbour n = (s.0 + dx, s.1 + dy) when the flood stops at n
   * (outside the grid, an edge, or below `low`): nothing changes, and n is
   * settled.
   */
  lemma NeighbourSkipped(pre: Values, mid: Values, low: int, s: Cell, dx: int, dy: int)
    requires Spreading(pre, mid, low, s) && Visited(mid, low, s, dx, dy)
    requires Settled(mid, low, (s.0 + dx, s.1 + dy))
    ensures Spreading(pre, mid, low, s) && Visited(mid, low, s, dx, dy + 1)
  {
    VisitStep(mid, mid, low, s, dx, dy);
  }

  /**
   * Visiting a Weak neighbour n = (s.0 + dx, s.1 + dy): the nested flood fill
   * from n keeps the outer fill's state and leaves n settled.
   */
  lemma NeighbourMarked(pre: Values, mid: Values, post: Values, low: int, s: Cell, dx: int, dy: int)
    requires -1 <= dx <= 1 && -1 <= dy <= 1
    requires Spreading(pre, mid, low, s) && Visited(mid, low, s, dx, dy)
    requires Weak(mid, low, (s.0 + dx, s.1 + dy)) && MarkedFrom(mid, post, low, (s.0 + dx, s.1 + dy))
    ensures Spreading(pre, post, low, s) && Visited(post, low, s, dx, dy + 1)
  {
    SpreadingStep(pre, mid, post, low, s, (s.0 + dx, s.1 + dy));
    VisitStep(mid, post, low, s, dx, dy);
  }

  /** A finished column of neighbours is the start of the next one. */
  lemma NextColumn(g: Values, low: int, s: Cell, dx: int)
    requires Visited(g, low, s, dx, 2)
    ensures Visited(g, low, s, dx + 1, -1)
  {
    forall n | VisitedBefore(s, n, dx + 1, -1) ensures Settled(g, low, n) {
      assert VisitedBefore(s, n, dx, 2);
    }
  }

  /** Once all three columns are visited, every neighbour of s is settled. */
  lemma VisitedAll(g: Values, low: int, s: Cell)
    requires Visited(g, low, s, 2, -1)
    ensures forall n :: Near(s, n) ==> Settled(g, low, n)
  {
    forall n | Near(s, n) ensures Settled(g, low, n) {
      assert VisitedBefore(s, n, 2, -1);
    }
  }

  /** A finished flood fill is Closed relative to where it started. */
  lemma MarkedFromIsClosed(pre: Values, post: Values, low: int, s: Cell)
    requires MarkedFrom(pre, post, low, s)
    ensures Closed(pre, post, low)
  {
    forall c, n | c in pre && pre[c] != Edge && c in post && post[c] == Edge && Near(c, n)
      ensures Settled(post, low, n)
    {
      if c == s {
        assert Near(s, n);
      }
    }
  }

  /**
   * Along a chain that starts on a pixel that became an edge, closure marks
   * every pixel, provided no pixel of the chain dropped below `low`.
   */
  lemma {:induction false} ChainFullyMarked(init: Values, out: Values, low: int, p: seq<Cell>)
    requires SameCells(init, out) && Closed(init, out, low)
    requires IsChain(init, low, p) && init[p[0]] != Edge && out[p[0]] == Edge
    requires forall k :: 0 < k < |p| ==> out[p[k]] == Edge || out[p[k]] >= low
    ensures out[p[|p| - 1]] == Edge
  {
    if |p| > 1 {
      var q := p[..|p| - 1];
      assert IsChain(init, low, q) by {
        forall k | 0 < k < |q| ensures Weak(init, low, q[k]) && Near(q[k - 1], q[k]) {
          assert q[k] == p[k] && q[k - 1] == p[k - 1];
        }
      }
      ChainFullyMarked(init, out, low, q);
      var c, n := p[|p| - 2], p[|p| - 1];
      assert Near(c, n) && Weak(init, low, n);
      assert init[c] != Edge by {
        if |p| > 2 {
          assert Weak(init, low, p[|p| - 2]);
        }
      }
      assert Settled(out, low, n);
    }
  }

  /** A flood fill from s marks everything s reaches: mark misses no pixel. */
  lemma MarkFillsReach(pre: Values, post: Values, low: int, s: Cell, c: Cell)
    requires MarkedFrom(pre, post, low, s) && pre[s] != Edge
    requires Reaches(pre, low, s, c)
    ensures post[c] == Edge
  {
    var p :| IsChain(pre, low, p) && p[0] == s && p[|p| - 1] == c;
    MarkedFromIsClosed(pre, post, low, s);
    forall k | 0 < k < |p| ensures post[p[k]] == Edge || post[p[k]] >= low {
      assert Weak(pre, low, p[k]);
    }
    ChainFullyMarked(pre, post, low, p);
  }

  // ----- the raster threshold pass -----

  /** c comes before (x, y) in raster order (y outer, x inner). */
  predicate Before(c: Cell, x: int, y: int)
  {
    c.1 < y || (c.1 == y && c.0 < x)
  }

  /**
   * State of the threshold pass when it reaches (x, y): each pixel is an
   * edge, untouched, or a visited pixel below `low` that was cleared; edges
   * that were not edges on entry are Tracked; visited Strong pixels are
   * edges; and the new edges are Closed.
   */
  ghost predicate PassInv(init: Values, cur: Values, low: int, high: int, x: int, y: int)
  {
    SameCells(init, cur) &&
    (forall c :: c in init ==>
      cur[c] == Edge || cur[c] == init[c] || (cur[c] == 0 && init[c] < low && Before(c, x, y))) &&
    (forall c :: c in init && cur[c] == Edge && init[c] != Edge ==> Tracked(init, low, high, c)) &&
    (forall c :: c in init && Before(c, x, y) && Strong(init, high, c) ==> cur[c] == Edge) &&
    Closed(init, cur, low)
  }

  /** A chain over the current map is a chain over the entry map. */
  lemma ChainBeforePass(init: Values, cur: Values, low: int, high: int, x: int, y: int, p: seq<Cell>)
    requires PassInv(init, cur, low, high, x, y) && 0 <= low && IsChain(cur, low, p)
    ensures IsChain(init, low, p)
  {
    forall k | 0 < k < |p| ensures Weak(init, low, p[k]) {
      assert Weak(cur, low, p[k]);
    }
  }

  lemma PassStarts(init: Values, low: int, high: int)
    requires forall c :: c in init ==> 0 <= c.0 && 0 <= c.1
    ensures PassInv(init, init, low, high, 0, 0)
  {
  }

  /** Visiting a pixel that is at least `high` and not 255 runs a flood fill from it. */
  lemma PassMarks(init: Values, cur: Values, post: Values, low: int, high: int, x: int, y: int)
    requires 0 <= low
    requires PassInv(init, cur, low, high, x, y) && (x, y) in init
    requires high <= cur[(x, y)] && cur[(x, y)] != Edge
    requires MarkedFrom(cur, post, low, (x, y))
    ensures PassInv(init, post, low, high, x + 1, y)
  {
    var s := (x, y);
    assert Strong(init, high, s);
    forall c | c in init && post[c] == Edge && init[c] != Edge
      ensures Tracked(init, low, high, c)
    {
      if cur[c] != Edge {
        var p :| IsChain(cur, low, p) && p[0] == s && p[|p| - 1] == c;
        ChainBeforePass(init, cur, low, high, x, y, p);
        assert Reaches(init, low, s, c);
      }
    }
    MarkedFromIsClosed(cur, post, low, s);
    forall c, n | c in init && init[c] != Edge && c in post && post[c] == Edge && Near(c, n)
      ensures Settled(post, low, n)
    {
      if cur[c] == Edge {
        assert Settled(cur, low, n);
      }
    }
  }

  /** Visiting a pixel below `low` (and not a seed) clears it. */
  lemma PassClears(init: Values, cur: Values, post: Values, low: int, high: int, x: int, y: int)
    requires low <= Edge
    requires PassInv(init, cur, low, high, x, y) && (x, y) in init
    requires cur[(x, y)] < low && !(high <= cur[(x, y)] && cur[(x, y)] != Edge)
    requires SameCells(cur, post)
    requires forall c :: c in cur ==> post[c] == if c == (x, y) then 0 else cur[c]
    ensures PassInv(init, post, low, high, x + 1, y)
  {
    forall c, n | c in init && init[c] != Edge && c in post && post[c] == Edge && Near(c, n)
      ensures Settled(post, low, n)
    {
      assert Settled(cur, low, n);
    }
  }

  /** Visiting any other pixel changes nothing. */
  lemma PassSkips(init: Values, cur: Values, low: int, high: int, x: int, y: int)
    requires PassInv(init, cur, low, high, x, y) && (x, y) in init
    requires !(high <= cur[(x, y)] && cur[(x, y)] != Edge) && !(cur[(x, y)] < low)
    ensures PassInv(init, cur, low, high, x + 1, y)
  {
  }

  /** The end of a row is the start of the next one. */
  lemma PassNextRow(init: Values, cur: Values, low: int, high: int, w: int, y: int)
    requires forall c :: c in init ==> 0 <= c.0 < w
    requires PassInv(init, cur, low, high, w, y)
    ensures PassInv(init, cur, low, high, 0, y + 1)
  {
    forall c | c in init && Before(c, 0, y + 1) && Strong(init, high, c)
      ensures cur[c] == Edge
    {
      assert Before(c, w, y);
    }
    forall c | c in init
      ensures cur[c] == Edge || cur[c] == init[c] || (cur[c] == 0 && init[c] < low && Before(c, 0, y + 1))
    {
      assert Before(c, w, y) ==> Before(c, 0, y + 1);
    }
  }

  /**
   * Once every pixel is visited, the edges are exactly the pixels that were
   * 255 on entry and the Tracked ones.
   */
  lemma PassComplete(init: Values, cur: Values, low: int, high: int, x: int, y: int)
    requires 0 <= low <= 255
    requires PassInv(init, cur, low, high, x, y)
    requires forall c :: c in init ==> Before(c, x, y)
    ensures forall c :: c in init ==> (cur[c] == Edge <==> init[c] == Edge || Tracked(init, low, high, c))
  {
    forall c | c in init && Tracked(init, low, high, c)
      ensures cur[c] == Edge
    {
      var s :| Strong(init, high, s) && Reaches(init, low, s, c);
      var p :| IsChain(init, low, p) && p[0] == s && p[|p| - 1] == c;
      forall k | 0 < k < |p| ensures cur[p[k]] == Edge || cur[p[k]] >= low {
        assert Weak(init, low, p[k]);
      }
      ChainFullyMarked(init, cur, low, p);
    }
  }

  // ----- properties of the specification -----

  /** Every Strong pixel is Tracked, by the one-pixel chain. */
  lemma StrongIsTracked(g: Values, low: int, high: int, c: Cell)
    requires Strong(g, high, c)
    ensures Tracked(g, low, high, c)
  {
    assert IsChain(g, low, [c]);
    assert Reaches(g, low, c, c);
  }

  /**
   * The hysteresis output is binary, keeps every pixel that is 255 or at least
   * `high` on entry, and every other edge pixel is Weak on entry and has a
   * Weak neighbour or a Strong neighbour earlier on its chain.
   */
  lemma HysteresisShape(init: Values, low: int, high: int, out: Values, c: Cell)
    requires IsHysteresis(init, low, high, out) && c in init
    ensures out[c] == 0 || out[c] == Edge
    ensures init[c] == Edge || Strong(init, high, c) ==> out[c] == Edge
    ensures out[c] == Edge && init[c] != Edge && !Strong(init, high, c) ==>
      Weak(init, low, c) && exists d :: Near(d, c) && (Weak(init, low, d) || Strong(init, high, d)) && Tracked(init, low, high, d)
  {
    if Strong(init, high, c) {
      StrongIsTracked(init, low, high, c);
    }
    if out[c] == Edge && init[c] != Edge && !Strong(init, high, c) {
      var s :| Strong(init, high, s) && Reaches(init, low, s, c);
      var p :| IsChain(init, low, p) && p[0] == s && p[|p| - 1] == c;
      assert |p| > 1;
      var d := p[|p| - 2];
      var q := p[..|p| - 1];
      assert IsChain(init, low, q) by {
        forall k | 0 < k < |q| ensures Weak(init, low, q[k]) && Near(q[k - 1], q[k]) {
          assert q[k] == p[k] && q[k - 1] == p[k - 1];
        }
      }
      assert Reaches(init, low, s, d);
      assert Near(d, c);
      if |p| > 2 {
        assert Weak(init, low, p[|p| - 2]);
      }
    }
  }

  /**
   * An all-zero map with both thresholds 0: every pixel is Strong, so the
   * whole grid becomes edge.
   */
  lemma AllZeroIsAllEdge(init: Values, out: Values)
    requires forall c :: c in init ==> init[c] == 0
    requires IsHysteresis(init, 0, 0, out)
    ensures forall c :: c in init ==> out[c] == Edge
  {
    forall c | c in init ensures out[c] == Edge {
      StrongIsTracked(init, 0, 0, c);
    }
  }
}
