/** Inclusive point-in-polygon test: the ray-casting substitute for
    `cv2.pointPolygonTest` that the repository's tests install (tests/conftest.py).

    A point within `Tolerance` of the line through an edge and between that
    edge's endpoints lies on the boundary and scores 0. Otherwise a horizontal
    ray is cast to the right of the point and the edges it crosses are counted
    with the even-odd rule: an odd count scores +1 (inside), an even one -1.
    The polygon is implicitly closed: edge `i` runs from vertex `i` to vertex
    `(i + 1) % n`. */
module PolygonTest {
  import opened Geometry

  /** Largest cross product still treated as "on the line through the edge". */
  const Tolerance: real := 0.000001

  /** Cross product of (e - s) and (p - s), in the source's operand order. */
  function SegmentCross(p: Point, s: Point, e: Point): real
  {
    (p.y - s.y) * (e.x - s.x) - (p.x - s.x) * (e.y - s.y)
  }

  /** Dot product of (p - s) and (p - e): not positive exactly when the angle
      s-p-e is at least a right angle, that is, p lies between s and e. */
  function SegmentDot(p: Point, s: Point, e: Point): real
  {
    (p.x - s.x) * (p.x - e.x) + (p.y - s.y) * (p.y - e.y)
  }

  /** Inclusive on-segment test. */
  predicate OnSegment(p: Point, s: Point, e: Point)
  {
    if Abs(SegmentCross(p, s, e)) > Tolerance then false
    else SegmentDot(p, s, e) <= 0.0
  }

  /** Reference definition: `p` is one of the points of the closed segment. */
  ghost predicate Between(p: Point, s: Point, e: Point)
  {
    exists t: real :: 0.0 <= t <= 1.0 && p == Lerp(s, e, t)
  }

  /** The edge-crossing condition of the ray cast: the edge straddles the
      horizontal line through `p` (counting an endpoint at exactly `p.y` as
      below it) and meets that line strictly to the right of `p`. The `&&`
      short-circuits, so the division only happens when `s.y != e.y`. */
  predicate Crosses(p: Point, s: Point, e: Point)
  {
    (s.y > p.y) != (e.y > p.y) && p.x < (e.x - s.x) * (p.y - s.y) / (e.y - s.y) + s.x
  }

  /** Reference definition: the rightward horizontal ray from `p` meets the
      closed segment from `s` to `e`. */
  ghost predicate RayHits(p: Point, s: Point, e: Point)
  {
    exists t: real :: 0.0 <= t <= 1.0 && Lerp(s, e, t).y == p.y && Lerp(s, e, t).x > p.x
  }

  /** `p` lies on edge `i` of the implicitly closed polygon. */
  predicate OnEdge(polygon: seq<Point>, p: Point, i: int)
    requires 0 <= i < |polygon|
  {
    OnSegment(p, polygon[i], polygon[(i + 1) % |polygon|])
  }

  /** The ray from `p` crosses edge `i` of the implicitly closed polygon. */
  predicate CrossesEdge(polygon: seq<Point>, p: Point, i: int)
    requires 0 <= i < |polygon|
  {
    Crosses(p, polygon[i], polygon[(i + 1) % |polygon|])
  }

  predicate OnBoundary(polygon: seq<Point>, p: Point)
  {
    exists i :: 0 <= i < |polygon| && OnEdge(polygon, p, i)
  }

  /** Number of edges among the first `k` that the ray from `p` crosses. */
  function CrossingCount(polygon: seq<Point>, p: Point, k: nat): nat
    requires k <= |polygon|
  {
    if k == 0 then 0
    else CrossingCount(polygon, p, k - 1) + (if CrossesEdge(polygon, p, k - 1) then 1 else 0)
  }

  /** Inclusive containment: on the boundary, or an odd number of crossings. */
  predicate Contains(polygon: seq<Point>, p: Point)
  {
    OnBoundary(polygon, p) || CrossingCount(polygon, p, |polygon|) % 2 == 1
  }

  /** The test itself: 0 on an edge, otherwise +1 for an odd and -1 for an
      even number of crossings. */
  method PointPolygonTest(polygon: seq<Point>, p: Point) returns (r: int)
    ensures r == 0 || r == 1 || r == -1
    ensures r == 0 <==> OnBoundary(polygon, p)
    ensures r == 1 <==> !OnBoundary(polygon, p) && CrossingCount(polygon, p, |polygon|) % 2 == 1
    ensures r >= 0 <==> Contains(polygon, p)
  {
    var onEdge := OnAnyEdge(polygon, p);
    if onEdge {
      return 0;
    }
    var inside := CrossingParity(polygon, p);
    r := if inside then 1 else -1;
  }

  /** The first pass of the test: is the point on some edge? */
  method OnAnyEdge(polygon: seq<Point>, p: Point) returns (found: bool)
    ensures found <==> OnBoundary(polygon, p)
  {
    var i := 0;
    while i < |polygon|
      invariant 0 <= i <= |polygon|
      invariant forall j :: 0 <= j < i ==> !OnEdge(polygon, p, j)
    {
      if OnEdge(polygon, p, i) {
        return true;
      }
      i := i + 1;
    }
    return false;
  }

  /** The second pass of the test: flip a flag at every edge the ray crosses. */
  method CrossingParity(polygon: seq<Point>, p: Point) returns (inside: bool)
    ensures inside <==> CrossingCount(polygon, p, |polygon|) % 2 == 1
  {
    inside := false;
    var i := 0;
    while i < |polygon|
      invariant 0 <= i <= |polygon|
      invariant inside == Flips(polygon, p, i)
    {
      if CrossesEdge(polygon, p, i) {
        inside := !inside;
      }
      i := i + 1;
    }
    FlipsIsOddCount(polygon, p, |polygon|);
  }

  /** The flag after flipping at each of the first `k` edges the ray crosses. */
  function Flips(polygon: seq<Point>, p: Point, k: nat): bool
    requires k <= |polygon|
  {
    if k == 0 then false else Flips(polygon, p, k - 1) != CrossesEdge(polygon, p, k - 1)
  }

  lemma {:induction false} FlipsIsOddCount(polygon: seq<Point>, p: Point, k: nat)
    requires k <= |polygon|
    ensures Flips(polygon, p, k) <==> CrossingCount(polygon, p, k) % 2 == 1
  {
    if k > 0 {
      FlipsIsOddCount(polygon, p, k - 1);
      ParityStep(CrossingCount(polygon, p, k - 1), CrossesEdge(polygon, p, k - 1));
    }
  }

  /** Adding one flips parity; adding zero keeps it. */
  lemma ParityStep(c: nat, b: bool)
    ensures (c + (if b then 1 else 0)) % 2 == 1 <==> (c % 2 == 1) != b
  {
  }

  /** Away from the line through an edge the test never reports the edge; on
      that line it reports exactly the points whose dot product is not
      positive; both endpoints are always on their segment. */
  lemma OnSegmentCases(p: Point, s: Point, e: Point)
    ensures Abs(SegmentCross(p, s, e)) > Tolerance ==> !OnSegment(p, s, e)
    ensures SegmentCross(p, s, e) == 0.0 ==> (OnSegment(p, s, e) <==> SegmentDot(p, s, e) <= 0.0)
    ensures OnSegment(s, s, e) && OnSegment(e, s, e)
  {
    assert SegmentCross(s, s, e) == 0.0;
    assert SegmentDot(s, s, e) == 0.0;
    assert SegmentCross(e, s, e) == 0.0;
    assert SegmentDot(e, s, e) == 0.0;
  }

  /** Every point of the closed segment passes the on-segment test. */
  lemma BetweenIsOnSegment(p: Point, s: Point, e: Point)
    requires Between(p, s, e)
    ensures OnSegment(p, s, e)
  {
    var t: real :| 0.0 <= t <= 1.0 && p == Lerp(s, e, t);
    OffsetForms(p, s, e);
    FractionOnSegment(t, e.x - s.x, e.y - s.y);
    assert p.x - s.x == t * (e.x - s.x) && p.y - s.y == t * (e.y - s.y);
  }

  /** For t in [0, 1], the multiple t d is parallel to d and makes a dot
      product with t d - d that is not positive. */
  lemma FractionOnSegment(t: real, dx: real, dy: real)
    requires 0.0 <= t <= 1.0
    ensures OffsetCross(t * dx, t * dy, dx, dy) == 0.0
    ensures OffsetDot(t * dx, t * dy, dx, dy) <= 0.0
  {
    MultipleForms(t, dx, dy);
    InsideUnit(t);
    ScaledSquareSign(t * (t - 1.0), dx);
    ScaledSquareSign(t * (t - 1.0), dy);
  }

  /** The products for a multiple q = t d: no cross product, and a dot
      product of t (t - 1) times the squared length of d. */
  lemma MultipleForms(t: real, dx: real, dy: real)
    ensures OffsetCross(t * dx, t * dy, dx, dy) == 0.0
    ensures OffsetDot(t * dx, t * dy, dx, dy)
         == ScaledSquare(t * (t - 1.0), dx) + ScaledSquare(t * (t - 1.0), dy)
  {
  }

  /** The boundary test agrees with the reference definition on the line
      through an edge: there, passing the test means being one of the
      segment's points. A degenerate edge (a repeated vertex) is the single
      point it repeats. */
  lemma CollinearOnSegmentIsBetween(p: Point, s: Point, e: Point)
    requires SegmentCross(p, s, e) == 0.0
    ensures OnSegment(p, s, e) <==> Between(p, s, e)
  {
    if OnSegment(p, s, e) {
      if s == e {
        DegenerateSegmentPoint(p, s);
        assert p == Lerp(s, e, 0.0);
      } else {
        OnCollinearSegmentIsBetween(p, s, e);
      }
    } else if Between(p, s, e) {
      BetweenIsOnSegment(p, s, e);
    }
  }

  /** Only the repeated point itself passes the dot-product test of a
      degenerate edge. */
  lemma DegenerateSegmentPoint(p: Point, s: Point)
    requires SegmentDot(p, s, s) <= 0.0
    ensures p == s
  {
    SquaresVanish(p.x - s.x, p.y - s.y);
  }

  lemma OnCollinearSegmentIsBetween(p: Point, s: Point, e: Point)
    requires s != e && SegmentCross(p, s, e) == 0.0 && SegmentDot(p, s, e) <= 0.0
    ensures Between(p, s, e)
  {
    OffsetForms(p, s, e);
    var t := CollinearFraction(p.x - s.x, p.y - s.y, e.x - s.x, e.y - s.y);
    assert p == Lerp(s, e, t);
  }

  /** The segment products written in the offsets q = p - s and d = e - s. */
  lemma OffsetForms(p: Point, s: Point, e: Point)
    ensures OffsetCross(p.x - s.x, p.y - s.y, e.x - s.x, e.y - s.y) == SegmentCross(p, s, e)
    ensures OffsetDot(p.x - s.x, p.y - s.y, e.x - s.x, e.y - s.y) == SegmentDot(p, s, e)
  {
  }

  /** The cross product of q = p - s and d = e - s. */
  function OffsetCross(qx: real, qy: real, dx: real, dy: real): real
  {
    qy * dx - qx * dy
  }

  /** The dot product of q = p - s and q - d = p - e. */
  function OffsetDot(qx: real, qy: real, dx: real, dy: real): real
  {
    qx * (qx - dx) + qy * (qy - dy)
  }

  /** A vector q parallel to a non-zero d, whose dot product with q - d is not
      positive, is a multiple t d with t in [0, 1]. */
  lemma CollinearFraction(qx: real, qy: real, dx: real, dy: real) returns (t: real)
    requires dx != 0.0 || dy != 0.0
    requires OffsetCross(qx, qy, dx, dy) == 0.0
    requires OffsetDot(qx, qy, dx, dy) <= 0.0
    ensures 0.0 <= t <= 1.0 && qx == t * dx && qy == t * dy
  {
    if dx != 0.0 {
      t := qx / dx;
      ParallelMultiple(qx, qy, dx, dy, t);
    } else {
      t := qy / dy;
      ParallelMultiple(qy, qx, dy, dx, t);
    }
    DotOutside(t, dx, dy);
  }

  /** If q is t d in its first coordinate, and parallel to d, it is t d in
      the other coordinate as well. */
  lemma ParallelMultiple(qx: real, qy: real, dx: real, dy: real, t: real)
    requires dx != 0.0 && t * dx == qx
    requires qy * dx - qx * dy == 0.0
    ensures qy == t * dy
  {
    assert (qy - t * dy) * dx == 0.0;
    ProductSigns(qy - t * dy, dx);
  }

  /** Off the unit interval, the multiple t d of a non-zero d makes a positive
      dot product with t d - d. */
  lemma DotOutside(t: real, dx: real, dy: real)
    requires dx != 0.0 || dy != 0.0
    ensures t < 0.0 || t > 1.0 ==> OffsetDot(t * dx, t * dy, dx, dy) > 0.0
  {
    MultipleForms(t, dx, dy);
    if t < 0.0 || t > 1.0 {
      OutsideUnit(t);
      ScaledSquareSign(t * (t - 1.0), dx);
      ScaledSquareSign(t * (t - 1.0), dy);
    }
  }

  /** The crossing condition is exactly "the edge straddles the horizontal line
      through `p` and the rightward ray from `p` meets it". */
  lemma CrossesIffRayHits(p: Point, s: Point, e: Point)
    ensures Crosses(p, s, e) <==> (s.y > p.y) != (e.y > p.y) && RayHits(p, s, e)
  {
    if (s.y > p.y) != (e.y > p.y) {
      var t := (p.y - s.y) / (e.y - s.y);
      StraddlePoint(p, s, e);
      if Crosses(p, s, e) {
        assert 0.0 <= t <= 1.0 && Lerp(s, e, t).y == p.y && Lerp(s, e, t).x > p.x;
      }
      if RayHits(p, s, e) {
        var u: real :| 0.0 <= u <= 1.0 && Lerp(s, e, u).y == p.y && Lerp(s, e, u).x > p.x;
        HorizontalHitUnique(s, e, u, p.y);
        assert Lerp(s, e, t).x > p.x;
      }
    }
  }

  /** Where a straddling edge meets the horizontal line through `p`: the
      fraction the ray cast computes lies in [0, 1], and the abscissa it
      compares against is that of the meeting point. */
  lemma StraddlePoint(p: Point, s: Point, e: Point)
    requires (s.y > p.y) != (e.y > p.y)
    ensures 0.0 <= (p.y - s.y) / (e.y - s.y) <= 1.0
    ensures Lerp(s, e, (p.y - s.y) / (e.y - s.y)).y == p.y
    ensures Lerp(s, e, (p.y - s.y) / (e.y - s.y)).x == (e.x - s.x) * (p.y - s.y) / (e.y - s.y) + s.x
  {
    var dy := e.y - s.y;
    var t := (p.y - s.y) / dy;
    assert t * dy == p.y - s.y;
    StraddleFraction(p.y - s.y, dy, t);
    assert (e.x - s.x) * (p.y - s.y) == (t * (e.x - s.x)) * dy;
    MulDivCancel(t * (e.x - s.x), dy);
  }

  /** A non-horizontal segment meets a horizontal line at one fraction only. */
  lemma HorizontalHitUnique(s: Point, e: Point, u: real, y: real)
    requires e.y != s.y && Lerp(s, e, u).y == y
    ensures u == (y - s.y) / (e.y - s.y)
  {
    assert u * (e.y - s.y) == y - s.y;
    MulDivCancel(u, e.y - s.y);
  }

  /** The closing edge from the last vertex back to the first is an edge like
      any other: a point on it is on the boundary. */
  lemma ClosingEdgeOnBoundary(polygon: seq<Point>, p: Point)
    requires |polygon| >= 1 && OnSegment(p, polygon[|polygon| - 1], polygon[0])
    ensures OnBoundary(polygon, p) && Contains(polygon, p)
  {
    var n := |polygon|;
    assert (n - 1 + 1) % n == 0;
    assert OnEdge(polygon, p, n - 1);
  }

  /** Every vertex is on the boundary. */
  lemma VertexOnBoundary(polygon: seq<Point>, i: int)
    requires 0 <= i < |polygon|
    ensures OnBoundary(polygon, polygon[i])
  {
    OnSegmentCases(polygon[i], polygon[i], polygon[(i + 1) % |polygon|]);
    assert OnEdge(polygon, polygon[i], i);
  }

  /** A horizontal edge never changes the parity of the crossing count. */
  lemma HorizontalEdgeNeverToggles(polygon: seq<Point>, p: Point, i: int)
    requires 0 <= i < |polygon| && polygon[i].y == polygon[(i + 1) % |polygon|].y
    ensures CrossingCount(polygon, p, i + 1) == CrossingCount(polygon, p, i)
  {
  }

  /** The square region of interest the tests use: (0, 0), (100, 0),
      (100, 100), (0, 100). */
  function Square(): seq<Point>
  {
    [Point(0.0, 0.0), Point(100.0, 0.0), Point(100.0, 100.0), Point(0.0, 100.0)]
  }

  /** No edge of the polygon passes the on-segment test. */
  lemma OffAllEdges(polygon: seq<Point>, p: Point)
    requires forall i :: 0 <= i < |polygon| ==> !OnEdge(polygon, p, i)
    ensures !OnBoundary(polygon, p)
  {
  }

  /** A point at least one unit inside the square is inside by the crossing
      count alone: the ray from it crosses the right side and nothing else.
      (Much closer to a side, the tolerance puts the point on that side.) */
  lemma SquareInterior(p: Point)
    requires 1.0 <= p.x <= 99.0 && 1.0 <= p.y <= 99.0
    ensures !OnBoundary(Square(), p) && CrossingCount(Square(), p, 4) == 1
    ensures Contains(Square(), p)
  {
    var sq := Square();
    assert SegmentCross(p, sq[0], sq[1]) == p.y * 100.0;
    assert SegmentCross(p, sq[1], sq[2]) == -(p.x - 100.0) * 100.0;
    assert SegmentCross(p, sq[2], sq[3]) == (p.y - 100.0) * -100.0;
    assert SegmentCross(p, sq[3], sq[0]) == -(p.x * -100.0);
    assert !OnEdge(sq, p, 0) && !OnEdge(sq, p, 1) && !OnEdge(sq, p, 2) && !OnEdge(sq, p, 3);
    OffAllEdges(sq, p);
    assert !CrossesEdge(sq, p, 0) && CrossesEdge(sq, p, 1);
    assert !CrossesEdge(sq, p, 2) && !CrossesEdge(sq, p, 3);
    assert CrossingCount(sq, p, 1) == 0;
    assert CrossingCount(sq, p, 2) == 1;
    assert CrossingCount(sq, p, 3) == 1;
  }

  /** A point more than a unit above and to the right of the square is
      outside it. */
  lemma SquareBeyondCorner(p: Point)
    requires p.x >= 101.0 && p.y >= 101.0
    ensures !OnBoundary(Square(), p) && CrossingCount(Square(), p, 4) == 0
    ensures !Contains(Square(), p)
  {
    var sq := Square();
    assert SegmentCross(p, sq[0], sq[1]) == p.y * 100.0;
    assert SegmentCross(p, sq[1], sq[2]) == -(p.x - 100.0) * 100.0;
    assert SegmentCross(p, sq[2], sq[3]) == (p.y - 100.0) * -100.0;
    assert SegmentCross(p, sq[3], sq[0]) == -(p.x * -100.0);
    assert !OnEdge(sq, p, 0) && !OnEdge(sq, p, 1) && !OnEdge(sq, p, 2) && !OnEdge(sq, p, 3);
    OffAllEdges(sq, p);
    assert !CrossesEdge(sq, p, 0) && !CrossesEdge(sq, p, 1);
    assert !CrossesEdge(sq, p, 2) && !CrossesEdge(sq, p, 3);
    assert CrossingCount(sq, p, 1) == 0;
    assert CrossingCount(sq, p, 2) == 0;
    assert CrossingCount(sq, p, 3) == 0;
  }

  /** A point on the left side of the square, reached through the closing
      edge from (0, 100) back to (0, 0), is on the boundary. */
  lemma SquareLeftEdge(p: Point)
    requires p.x == 0.0 && 0.0 <= p.y <= 100.0
    ensures OnBoundary(Square(), p) && Contains(Square(), p)
  {
    var sq := Square();
    assert SegmentCross(p, sq[3], sq[0]) == 0.0;
    assert SegmentDot(p, sq[3], sq[0]) == (p.y - 100.0) * p.y;
    MulNonneg(100.0 - p.y, p.y);
    ClosingEdgeOnBoundary(sq, p);
  }
}
