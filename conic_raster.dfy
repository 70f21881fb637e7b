/** The midpoint circle and midpoint ellipse rasterizers of Lab2/main.cpp.
    Each walks one arc (an octant of the circle, a quadrant of the ellipse)
    with an incremental decision variable and emits every arc point together
    with its mirror images about the centre. */
module ConicRaster {
  import opened Raster

  // ------------------------------------------------------------- circle

  /** The eight mirror images of the octant offset (x, y) about the centre
      (xc, yc), in the order the source appends them. */
  function Block8(xc: int, yc: int, x: int, y: int): seq<Point> {
    [Point(xc + x, yc + y), Point(xc - x, yc + y), Point(xc + x, yc - y), Point(xc - x, yc - y),
     Point(xc + y, yc + x), Point(xc - y, yc + x), Point(xc + y, yc - x), Point(xc - y, yc - x)]
  }

  /** The output for an octant whose height at column k is heights[k]. */
  function Blocks8(xc: int, yc: int, heights: seq<int>): (pts: seq<Point>)
    ensures |pts| == 8 * |heights|
  {
    if heights == [] then []
    else
      var n := |heights| - 1;
      Blocks8(xc, yc, heights[..n]) + Block8(xc, yc, n, heights[n])
  }

  /** The circle of radius r passes between the midpoints (k, y - 1/2) and
      (k, y + 1/2): y is the height of the circle at column k rounded to the
      nearest integer (ties cannot occur). Stated in integers: the squares
      of the two midpoints' distances are k^2 + y^2 -+ y + 1/4. */
  predicate NearCircle(r: int, k: int, y: int) {
    k * k + y * y - y < r * r <= k * k + y * y + y
  }

  /** NearCircle in the reals, with the two midpoints written out. */
  lemma NearCircleMeaning(r: int, k: int, y: int)
    ensures NearCircle(r, k, y) <==>
      var kr, yr, rr := k as real, y as real, r as real;
      kr * kr + (yr - 0.5) * (yr - 0.5) < rr * rr < kr * kr + (yr + 0.5) * (yr + 0.5)
  {
    var kr, yr, rr := k as real, y as real, r as real;
    assert kr * kr + (yr - 0.5) * (yr - 0.5) == (k * k + y * y - y) as real + 0.25;
    assert kr * kr + (yr + 0.5) * (yr + 0.5) == (k * k + y * y + y) as real + 0.25;
    assert rr * rr == (r * r) as real;
  }

  /** y * y - y never decreases on the non-negative integers. */
  lemma SquareMinusGrows(a: int, b: int)
    requires 0 <= a <= b
    ensures a * a - a <= b * b - b
  {
    assert b * b - b - (a * a - a) == (b - a) * (b + a - 1);
    if a < b {
      assert (b - a) * (b + a - 1) >= 0;
    }
  }

  /** At most one non-negative height is nearest to the circle in a column. */
  lemma {:induction false} NearCircleUnique(r: int, k: int, y1: int, y2: int)
    requires 0 <= y1 && 0 <= y2
    requires NearCircle(r, k, y1) && NearCircle(r, k, y2)
    ensures y1 == y2
  {
    if y1 < y2 {
      SquareMinusGrows(y1 + 1, y2);
      assert false;
    } else if y2 < y1 {
      SquareMinusGrows(y2 + 1, y1);
      assert false;
    }
  }

  /** The decision variable of MidpointCircle at column x and height y: the
      squared distance of the midpoint (x + 1, y - 1/2) minus r^2, less 1/4. */
  function CircleDecision(r: int, x: int, y: int): int {
    (x + 1) * (x + 1) + y * y - y - r * r
  }

  /** The decision variable after each of the two moves, as the source
      updates it incrementally. */
  lemma DecisionMoves(r: int, x: int, y: int)
    ensures CircleDecision(r, x + 1, y) == CircleDecision(r, x, y) + 2 * (x + 1) + 1
    ensures CircleDecision(r, x + 1, y - 1) == CircleDecision(r, x, y) + 2 * (x + 1 - (y - 1)) + 1
  {
    assert (x + 2) * (x + 2) == (x + 1) * (x + 1) + 2 * (x + 1) + 1;
    assert (y - 1) * (y - 1) == y * y - 2 * y + 1;
  }

  /** The two bounds of NearCircle, read off the decision variable. */
  lemma DecisionBounds(r: int, x: int, y: int)
    ensures x * x + y * y - y < r * r <==> CircleDecision(r, x, y) < 2 * x + 1
    ensures r * r <= x * x + y * y + y <==> 2 * x + 1 - 2 * y <= CircleDecision(r, x, y)
  {
    assert (x + 1) * (x + 1) == x * x + 2 * x + 1;
  }

  /** The state of the walk at the head of the loop, in terms of the decision
      variable p: the current height is never below the circle
      (r^2 <= x^2 + y^2 + y), and it is near the circle
      (x^2 + y^2 - y < r^2) while it is still to be drawn. */
  predicate CircleState(r: int, x: int, y: int, p: int) {
    && p == CircleDecision(r, x, y)
    && (r >= 1 ==> 2 * x + 1 - 2 * y <= p)
    && (r >= 1 && x <= y ==> p < 2 * x + 1)
  }

  /** One iteration of the circle loop: the point drawn is near the circle,
      and the source's two increments of p keep CircleState. */
  lemma CircleStep(r: int, x: int, y: int, p: int)
    requires 0 <= x <= y && CircleState(r, x, y, p)
    ensures r >= 1 ==> NearCircle(r, x, y)
    ensures p < 0 ==> CircleState(r, x + 1, y, p + 2 * (x + 1) + 1)
    ensures p >= 0 ==> CircleState(r, x + 1, y - 1, p + 2 * (x + 1 - (y - 1)) + 1)
  {
    DecisionBounds(r, x, y);
    DecisionMoves(r, x, y);
  }

  /** The walk stops at the diagonal: once the column has passed the height
      while the height is still not below the circle, no height at or above
      the diagonal is near the circle in that column. */
  lemma {:induction false} OctantEnd(r: int, n: int, y: int, z: int)
    requires -1 <= y < n && r * r <= n * n + y * y + y
    requires NearCircle(r, n, z)
    ensures z < n
  {
    if z >= n {
      SquareMinusGrows(y + 1, z);
      assert false;
    }
  }

  /** `heights` is a prefix of the octant of radius r as the walk builds
      it: it starts at height r, every height is on or above the diagonal,
      stays or drops by one from the previous column, and (for r >= 1) is
      the nearest height to the circle in its column. */
  ghost predicate Octant(r: int, heights: seq<int>)
    decreases |heights|
  {
    heights == [] ||
      var n := |heights| - 1;
      && Octant(r, heights[..n])
      && n <= heights[n]
      && (n == 0 ==> heights[n] == r)
      && (n > 0 ==> heights[n] == heights[n - 1] || heights[n] == heights[n - 1] - 1)
      && (r >= 1 ==> NearCircle(r, n, heights[n]))
  }

  lemma {:induction false} OctantFacts(r: int, heights: seq<int>)
    requires Octant(r, heights)
    ensures |heights| > 0 ==> heights[0] == r
    ensures forall k :: 0 <= k < |heights| ==> k <= heights[k]
    ensures forall k :: 0 < k < |heights| ==> heights[k] == heights[k - 1] || heights[k] == heights[k - 1] - 1
    ensures r >= 1 ==> forall k :: 0 <= k < |heights| ==> NearCircle(r, k, heights[k])
    decreases |heights|
  {
    if heights != [] {
      var n := |heights| - 1;
      OctantFacts(r, heights[..n]);
      assert forall k :: 0 <= k < n ==> heights[..n][k] == heights[k];
    }
  }

  /** A circle of radius 0 has an octant of at most one column. */
  lemma {:induction false} PointOctant(heights: seq<int>)
    requires Octant(0, heights)
    ensures heights == [] || heights == [0]
    decreases |heights|
  {
    if |heights| > 1 {
      var n := |heights| - 1;
      PointOctant(heights[..n]);
      assert false;
    }
  }

  /** MidpointCircle(xc, yc, r): walks the octant from (0, r) while x <= y,
      stepping the height down when the decision variable is non-negative,
      and emits the eight mirror images of each octant point. The ghost
      `heights` is the octant: heights[k] is the height at column k. */
  method MidpointCircle(xc: int, yc: int, r: int) returns (points: seq<Point>, ghost heights: seq<int>)
    ensures points == Blocks8(xc, yc, heights)
    ensures r < 0 ==> heights == []
    ensures r == 0 ==> heights == [0]
    ensures r >= 1 ==> |heights| > 0 && heights[0] == r
    ensures forall k :: 0 <= k < |heights| ==> k <= heights[k]
    ensures forall k :: 0 < k < |heights| ==> heights[k] == heights[k - 1] || heights[k] == heights[k - 1] - 1
    ensures r >= 1 ==> forall k :: 0 <= k < |heights| ==> NearCircle(r, k, heights[k])
    ensures r >= 1 ==> forall z :: NearCircle(r, |heights|, z) ==> z < |heights|
  {
    var x, y, p := 0, r, 1 - r;
    points, heights := [], [];
    while x <= y
      invariant 0 <= x == |heights| && (x > 0 ==> x <= y + 2)
      invariant points == Blocks8(xc, yc, heights)
      invariant CircleState(r, x, y, p)
      invariant Octant(r, heights)
      invariant x == 0 ==> y == r
      invariant x > 0 ==> y == heights[x - 1] || y == heights[x - 1] - 1
      decreases y + 2 - x
    {
      points := points + Block8(xc, yc, x, y);
      ghost var before := heights;
      heights := heights + [y];
      assert heights[..x] == before && heights[x] == y;
      CircleStep(r, x, y, p);
      x := x + 1;
      if p < 0 {
        p := p + 2 * x + 1;
      } else {
        y, p := y - 1, p + 2 * (x - (y - 1)) + 1;
      }
    }
    OctantComplete(r, heights, y);
  }

  /** What the walk has built when it stops (the column has passed the
      height) is the whole octant. */
  lemma OctantComplete(r: int, heights: seq<int>, y: int)
    requires Octant(r, heights) && CircleState(r, |heights|, y, CircleDecision(r, |heights|, y))
    requires y < |heights| && (|heights| > 0 ==> |heights| <= y + 2)
    requires |heights| == 0 ==> y == r
    ensures r < 0 ==> heights == []
    ensures r == 0 ==> heights == [0]
    ensures r >= 1 ==> |heights| > 0 && heights[0] == r
    ensures forall k :: 0 <= k < |heights| ==> k <= heights[k]
    ensures forall k :: 0 < k < |heights| ==> heights[k] == heights[k - 1] || heights[k] == heights[k - 1] - 1
    ensures r >= 1 ==> forall k :: 0 <= k < |heights| ==> NearCircle(r, k, heights[k])
    ensures r >= 1 ==> forall z :: NearCircle(r, |heights|, z) ==> z < |heights|
  {
    OctantFacts(r, heights);
    DecisionBounds(r, |heights|, y);
    if r == 0 {
      PointOctant(heights);
    }
    if r >= 1 {
      forall z | NearCircle(r, |heights|, z) ensures z < |heights| {
        OctantEnd(r, |heights|, y, z);
      }
    }
  }

  /** Every point of a circle's output comes with its mirror images in the
      vertical and horizontal lines through the centre and in the diagonal. */
  lemma {:induction false} CircleSymmetric(xc: int, yc: int, heights: seq<int>, q: Point)
    requires q in Blocks8(xc, yc, heights)
    ensures Point(2 * xc - q.x, q.y) in Blocks8(xc, yc, heights)
    ensures Point(q.x, 2 * yc - q.y) in Blocks8(xc, yc, heights)
    ensures Point(xc + (q.y - yc), yc + (q.x - xc)) in Blocks8(xc, yc, heights)
    decreases |heights|
  {
    var n := |heights| - 1;
    var front, block := Blocks8(xc, yc, heights[..n]), Block8(xc, yc, n, heights[n]);
    assert Blocks8(xc, yc, heights) == front + block;
    if q in front {
      CircleSymmetric(xc, yc, heights[..n], q);
    } else {
      assert q in block;
    }
  }

  // ------------------------------------------------------------ ellipse

  /** The four mirror images of the quadrant offset q about the centre, in
      the order the source appends them. */
  function Block4(xc: int, yc: int, q: Point): seq<Point> {
    [Point(xc + q.x, yc + q.y), Point(xc - q.x, yc + q.y), Point(xc + q.x, yc - q.y), Point(xc - q.x, yc - q.y)]
  }

  /** The output for a quadrant arc. */
  function Blocks4(xc: int, yc: int, arc: seq<Point>): (pts: seq<Point>)
    ensures |pts| == 4 * |arc|
  {
    if arc == [] then []
    else
      var n := |arc| - 1;
      Blocks4(xc, yc, arc[..n]) + Block4(xc, yc, arc[n])
  }

  /** Region 1 of the quadrant, where the arc is flatter than 45 degrees:
      the source's loop guard 2 ry^2 x < 2 rx^2 y. */
  predicate InRegion1(rx: int, ry: int, q: Point) {
    2 * (ry * ry) * q.x < 2 * (rx * rx) * q.y
  }

  /** Four times the ellipse function b2 X^2 + a2 Y^2 - a2 b2 (a2 = rx^2,
      b2 = ry^2) at the region 1 midpoint (x + 1, y - 1/2). */
  function Quarter1(a2: int, b2: int, x: int, y: int): int {
    4 * b2 * ((x + 1) * (x + 1)) + a2 * ((2 * y - 1) * (2 * y - 1)) - 4 * a2 * b2
  }

  /** Four times the ellipse function at the region 2 midpoint (x + 1/2, y - 1). */
  function Quarter2(a2: int, b2: int, x: int, y: int): int {
    b2 * ((2 * x + 1) * (2 * x + 1)) + 4 * a2 * ((y - 1) * (y - 1)) - 4 * a2 * b2
  }

  function Region1Decision(rx: int, ry: int, q: Point): int {
    Quarter1(rx * rx, ry * ry, q.x, q.y)
  }

  function Region2Decision(rx: int, ry: int, q: Point): int {
    Quarter2(rx * rx, ry * ry, q.x, q.y)
  }

  /** The midpoint rule in region 1: step right, and also down when the
      midpoint (x + 1, y - 1/2) is not inside the ellipse. */
  function Region1Step(rx: int, ry: int, q: Point): Point {
    if Region1Decision(rx, ry, q) < 0 then Point(q.x + 1, q.y) else Point(q.x + 1, q.y - 1)
  }

  /** The midpoint rule in region 2: step down, and also right when the
      midpoint (x + 1/2, y - 1) is not outside the ellipse. */
  function Region2Step(rx: int, ry: int, q: Point): Point {
    if Region2Decision(rx, ry, q) > 0 then Point(q.x, q.y - 1) else Point(q.x + 1, q.y - 1)
  }

  /** The point the walk emits after `arc`, whose first `split` points are
      in region 1. */
  function NextOnArc(rx: int, ry: int, arc: seq<Point>, split: nat): Point {
    if arc == [] then Point(0, ry)
    else
      var last := arc[|arc| - 1];
      if |arc| - 1 < split then Region1Step(rx, ry, last) else Region2Step(rx, ry, last)
  }

  /** `arc` is a prefix of the quadrant walk of MidpointEllipse: it starts at
      (0, ry), each point follows from the previous one by the midpoint rule
      of the region the previous one is in, and exactly its first `split`
      points are in region 1. */
  ghost predicate Arc(rx: int, ry: int, arc: seq<Point>, split: nat)
    decreases |arc|
  {
    if arc == [] then split == 0
    else
      var n := |arc| - 1;
      && split <= |arc|
      && Arc(rx, ry, arc[..n], if split > n then n else split)
      && arc[n] == NextOnArc(rx, ry, arc[..n], split)
      && (n < split <==> InRegion1(rx, ry, arc[n]))
  }

  lemma {:induction false} ArcFacts(rx: int, ry: int, arc: seq<Point>, split: nat)
    requires Arc(rx, ry, arc, split)
    ensures split <= |arc|
    ensures |arc| > 0 ==> arc[0] == Point(0, ry)
    ensures forall k :: 0 <= k < |arc| ==> (k < split <==> InRegion1(rx, ry, arc[k]))
    ensures forall k :: 0 < k < |arc| ==>
      arc[k] == if k - 1 < split then Region1Step(rx, ry, arc[k - 1]) else Region2Step(rx, ry, arc[k - 1])
    decreases |arc|
  {
    if arc != [] {
      var n := |arc| - 1;
      var front := arc[..n];
      ArcFacts(rx, ry, front, if split > n then n else split);
      assert forall k :: 0 <= k < n ==> front[k] == arc[k];
    }
  }

  /** Region 1 lies strictly above the x axis of a non-degenerate ellipse. */
  lemma Region1Above(rx: int, ry: int, q: Point)
    requires 0 <= q.x && InRegion1(rx, ry, q)
    ensures q.y >= 1
  {
    assert 0 <= (ry * ry) * q.x;
    assert q.y <= 0 ==> (rx * rx) * q.y <= 0;
  }

  /** Moving right or down never re-enters region 1. */
  lemma Region2Stays(rx: int, ry: int, q: Point, next: Point)
    requires !InRegion1(rx, ry, q) && q.x <= next.x && next.y <= q.y
    ensures !InRegion1(rx, ry, next)
  {
    assert (ry * ry) * q.x <= (ry * ry) * next.x;
    assert (rx * rx) * next.y <= (rx * rx) * q.y;
  }

  /** The changes of the region 1 decision value for a step right and a
      step down; the source's increments of p are a quarter of these. */
  lemma Quarter1Right(a2: int, b2: int, x: int, y: int)
    ensures Quarter1(a2, b2, x + 1, y) == Quarter1(a2, b2, x, y) + 4 * (2 * b2 * (x + 1) + b2)
  {
    var u := x + 1;
    assert (u + 1) * (u + 1) == u * u + 2 * u + 1;
    assert b2 * ((u + 1) * (u + 1)) == b2 * (u * u) + 2 * b2 * u + b2;
  }

  lemma Quarter1Down(a2: int, b2: int, x: int, y: int)
    ensures Quarter1(a2, b2, x, y - 1) == Quarter1(a2, b2, x, y) - 4 * (2 * a2 * (y - 1))
  {
    var v := 2 * y - 1;
    assert (v - 2) * (v - 2) == v * v - 4 * v + 4;
    assert a2 * ((v - 2) * (v - 2)) == a2 * (v * v) - 4 * a2 * v + 4 * a2;
    assert 2 * (y - 1) - 1 == v - 2;
  }

  lemma Quarter2Down(a2: int, b2: int, x: int, y: int)
    ensures Quarter2(a2, b2, x, y - 1) == Quarter2(a2, b2, x, y) + 4 * (-2 * a2 * (y - 1) + a2)
  {
    var w := y - 1;
    assert (w - 1) * (w - 1) == w * w - 2 * w + 1;
    assert a2 * ((w - 1) * (w - 1)) == a2 * (w * w) - 2 * a2 * w + a2;
    assert y - 1 - 1 == w - 1;
  }

  lemma Quarter2Right(a2: int, b2: int, x: int, y: int)
    ensures Quarter2(a2, b2, x + 1, y) == Quarter2(a2, b2, x, y) + 4 * (2 * b2 * (x + 1))
  {
    var v := 2 * x + 1;
    assert (v + 2) * (v + 2) == v * v + 4 * v + 4;
    assert b2 * ((v + 2) * (v + 2)) == b2 * (v * v) + 4 * b2 * v + 4 * b2;
    assert 2 * (x + 1) + 1 == v + 2;
  }

  /** One region 1 iteration: p (a quarter of the decision value) chooses
      the midpoint rule's step, and the source's increment keeps p a
      quarter of the decision value at the new point. */
  lemma Region1Advance(rx: int, ry: int, rx2: int, ry2: int, q: Point, p: real)
    requires rx2 == rx * rx && ry2 == ry * ry
    requires 4.0 * p == Region1Decision(rx, ry, q) as real
    ensures p < 0.0 ==> Region1Step(rx, ry, q) == Point(q.x + 1, q.y)
    ensures p < 0.0 ==>
      4.0 * (p + (2 * ry2 * (q.x + 1) + ry2) as real) == Region1Decision(rx, ry, Point(q.x + 1, q.y)) as real
    ensures p >= 0.0 ==> Region1Step(rx, ry, q) == Point(q.x + 1, q.y - 1)
    ensures p >= 0.0 ==>
      4.0 * (p + (2 * ry2 * (q.x + 1) - 2 * rx2 * (q.y - 1) + ry2) as real)
      == Region1Decision(rx, ry, Point(q.x + 1, q.y - 1)) as real
  {
    var right, diagonal := 2 * ry2 * (q.x + 1) + ry2, 2 * ry2 * (q.x + 1) - 2 * rx2 * (q.y - 1) + ry2;
    Quarter1Right(rx2, ry2, q.x, q.y);
    Quarter1Down(rx2, ry2, q.x + 1, q.y);
    assert Quarter1(rx2, ry2, q.x + 1, q.y - 1) == Quarter1(rx2, ry2, q.x, q.y) + 4 * diagonal;
  }

  lemma Region2Advance(rx: int, ry: int, rx2: int, ry2: int, q: Point, p: real)
    requires rx2 == rx * rx && ry2 == ry * ry
    requires 4.0 * p == Region2Decision(rx, ry, q) as real
    ensures p > 0.0 ==> Region2Step(rx, ry, q) == Point(q.x, q.y - 1)
    ensures p > 0.0 ==>
      4.0 * (p + (-2 * rx2 * (q.y - 1) + rx2) as real) == Region2Decision(rx, ry, Point(q.x, q.y - 1)) as real
    ensures p <= 0.0 ==> Region2Step(rx, ry, q) == Point(q.x + 1, q.y - 1)
    ensures p <= 0.0 ==>
      4.0 * (p + (2 * ry2 * (q.x + 1) - 2 * rx2 * (q.y - 1) + rx2) as real)
      == Region2Decision(rx, ry, Point(q.x + 1, q.y - 1)) as real
  {
    var down, diagonal := -2 * rx2 * (q.y - 1) + rx2, 2 * ry2 * (q.x + 1) - 2 * rx2 * (q.y - 1) + rx2;
    Quarter2Down(rx2, ry2, q.x, q.y);
    Quarter2Right(rx2, ry2, q.x, q.y - 1);
    assert Quarter2(rx2, ry2, q.x + 1, q.y - 1) == Quarter2(rx2, ry2, q.x, q.y) + 4 * diagonal;
  }

  /** The region 1 loop's measure rx^2 y - ry^2 x is positive inside the
      region and drops with every step. */
  lemma Region1Measure(rx2: int, ry2: int, x: int, y: int, y': int)
    requires 1 <= ry2 && 0 <= rx2 && 2 * ry2 * x < 2 * rx2 * y && y - 1 <= y' <= y
    ensures 0 < rx2 * y - ry2 * x
    ensures rx2 * y' - ry2 * (x + 1) < rx2 * y - ry2 * x
  {
    assert ry2 * (x + 1) == ry2 * x + ry2;
    assert rx2 * y' <= rx2 * y by {
      assert rx2 * y - rx2 * y' == rx2 * (y - y');
    }
  }

  /** The source's starting value of p in region 1. */
  lemma Region1Start(rx: int, ry: int, rx2: int, ry2: int)
    requires rx2 == rx * rx && ry2 == ry * ry
    ensures 4.0 * ((ry2 - rx2 * ry) as real + 0.25 * rx2 as real) == Region1Decision(rx, ry, Point(0, ry)) as real
  {
    assert (2 * ry - 1) * (2 * ry - 1) == 4 * ry2 - 4 * ry + 1;
    assert rx2 * (4 * ry2 - 4 * ry + 1) == 4 * (rx2 * ry2) - 4 * (rx2 * ry) + rx2;
    assert Quarter1(rx2, ry2, 0, ry) == 4 * ry2 - 4 * (rx2 * ry) + rx2;
  }

  /** (x + 1/2)^2, scaled by four, in integers. */
  lemma HalfSquare(b2: int, x: int)
    ensures 4.0 * (b2 as real * (x as real + 0.5) * (x as real + 0.5)) == (b2 * ((2 * x + 1) * (2 * x + 1))) as real
  {
    var xr, br := x as real, b2 as real;
    var s := (2 * x + 1) * (2 * x + 1);
    ProductAsReal(2 * x + 1, 2 * x + 1);
    ProductAsReal(b2, s);
    assert (2 * x + 1) as real == 2.0 * xr + 1.0;
    assert 4.0 * ((xr + 0.5) * (xr + 0.5)) == (2.0 * xr + 1.0) * (2.0 * xr + 1.0);
    assert 4.0 * (br * (xr + 0.5) * (xr + 0.5)) == br * (4.0 * ((xr + 0.5) * (xr + 0.5)));
  }

  lemma ProductAsReal(a: int, b: int)
    ensures (a * b) as real == a as real * b as real
  {
  }

  /** The source's starting value of p in region 2. */
  lemma Region2Start(rx: int, ry: int, rx2: int, ry2: int, x: int, y: int)
    requires rx2 == rx * rx && ry2 == ry * ry
    ensures 4.0 * (ry2 as real * (x as real + 0.5) * (x as real + 0.5) + (rx2 * (y - 1) * (y - 1) - rx2 * ry2) as real)
      == Region2Decision(rx, ry, Point(x, y)) as real
  {
    HalfSquare(ry2, x);
    assert rx2 * (y - 1) * (y - 1) == rx2 * ((y - 1) * (y - 1));
  }

  /** The state of region 1 at the head of its loop: the arc so far lies in
      region 1, (x, y) is the point the midpoint rule leads to next, and p
      is a quarter of the region 1 decision value there. */
  ghost predicate Region1State(rx: int, ry: int, arc: seq<Point>, x: int, y: int, p: real) {
    && Arc(rx, ry, arc, |arc|)
    && Point(x, y) == NextOnArc(rx, ry, arc, |arc|)
    && 4.0 * p == Region1Decision(rx, ry, Point(x, y)) as real
  }

  /** One iteration of the region 1 loop keeps Region1State. */
  lemma Region1Next(rx: int, ry: int, rx2: int, ry2: int, arc: seq<Point>, x: int, y: int, p: real)
    requires rx2 == rx * rx && ry2 == ry * ry
    requires Region1State(rx, ry, arc, x, y, p) && InRegion1(rx, ry, Point(x, y))
    ensures p < 0.0 ==>
      Region1State(rx, ry, arc + [Point(x, y)], x + 1, y, p + (2 * ry2 * (x + 1) + ry2) as real)
    ensures p >= 0.0 ==>
      Region1State(rx, ry, arc + [Point(x, y)], x + 1, y - 1, p + (2 * ry2 * (x + 1) - 2 * rx2 * (y - 1) + ry2) as real)
  {
    var q, next := Point(x, y), arc + [Point(x, y)];
    assert next[..|arc|] == arc;
    Region1Advance(rx, ry, rx2, ry2, q, p);
  }

  /** The state of region 2 at the head of its loop: the arc so far has its
      first `split` points in region 1 and the rest in region 2, (x, y) is
      the point the midpoint rule leads to next, outside region 1, and p is
      a quarter of the region 2 decision value there. */
  ghost predicate Region2State(rx: int, ry: int, arc: seq<Point>, split: nat, x: int, y: int, p: real) {
    && split <= |arc| && Arc(rx, ry, arc, split)
    && Point(x, y) == NextOnArc(rx, ry, arc, split)
    && !InRegion1(rx, ry, Point(x, y))
    && 4.0 * p == Region2Decision(rx, ry, Point(x, y)) as real
  }

  /** One iteration of the region 2 loop keeps Region2State. */
  lemma Region2Next(rx: int, ry: int, rx2: int, ry2: int, arc: seq<Point>, split: nat, x: int, y: int, p: real)
    requires rx2 == rx * rx && ry2 == ry * ry
    requires Region2State(rx, ry, arc, split, x, y, p)
    ensures p > 0.0 ==>
      Region2State(rx, ry, arc + [Point(x, y)], split, x, y - 1, p + (-2 * rx2 * (y - 1) + rx2) as real)
    ensures p <= 0.0 ==>
      Region2State(rx, ry, arc + [Point(x, y)], split, x + 1, y - 1, p + (2 * ry2 * (x + 1) - 2 * rx2 * (y - 1) + rx2) as real)
  {
    var q, next := Point(x, y), arc + [Point(x, y)];
    assert next[..|arc|] == arc;
    Region2Advance(rx, ry, rx2, ry2, q, p);
    Region2Stays(rx, ry, q, Point(x + 1, y - 1));
    Region2Stays(rx, ry, q, Point(x, y - 1));
  }

  /** The first loop of MidpointEllipse: walks region 1 from (0, ry),
      stepping right and, by the midpoint rule, down, while
      2 ry^2 x < 2 rx^2 y. Returns the region 1 part of the output and of
      the arc, and the point (x, y) the walk has reached, the first one
      outside region 1. */
  method WalkRegion1(xc: int, yc: int, rx: int, ry: int) returns (points: seq<Point>, x: int, y: int, ghost arc: seq<Point>)
    ensures 0 <= x && y <= ry && (ry >= 0 ==> y >= 0)
    ensures Arc(rx, ry, arc, |arc|) && Point(x, y) == NextOnArc(rx, ry, arc, |arc|)
    ensures !InRegion1(rx, ry, Point(x, y))
    ensures points == Blocks4(xc, yc, arc)
    ensures ry < 0 ==> arc == []
  {
    var rx2, ry2 := rx * rx, ry * ry;
    var p;
    x, y, p := 0, ry, (ry2 - rx2 * ry) as real + 0.25 * rx2 as real;
    Region1Start(rx, ry, rx2, ry2);
    points, arc := [], [];
    while 2 * ry2 * x < 2 * rx2 * y
      invariant 0 <= x && y <= ry && (ry >= 0 ==> y >= 0)
      invariant Region1State(rx, ry, arc, x, y, p)
      invariant points == Blocks4(xc, yc, arc)
      invariant ry < 0 ==> arc == []
      decreases rx2 * y - ry2 * x
    {
      Region1Above(rx, ry, Point(x, y));
      assert ry2 >= 1;
      ghost var y0 := y;
      Region1Next(rx, ry, rx2, ry2, arc, x, y, p);
      points := points + Block4(xc, yc, Point(x, y));
      ghost var before := arc;
      arc := arc + [Point(x, y)];
      assert arc[..|before|] == before;
      x := x + 1;
      if p < 0.0 {
        p := p + (2 * ry2 * x + ry2) as real;
      } else {
        y, p := y - 1, p + (2 * ry2 * x - 2 * rx2 * (y - 1) + ry2) as real;
      }
      Region1Measure(rx2, ry2, x - 1, y0, y);
    }
  }

  /** The second loop of MidpointEllipse: from the first point (x0, y0)
      outside region 1, walks region 2, stepping down and, by the midpoint
      rule, right, while y >= 0, appending to the output and the arc built
      so far. */
  method WalkRegion2(xc: int, yc: int, rx: int, ry: int, x0: int, y0: int,
                     points0: seq<Point>, ghost arc0: seq<Point>)
    returns (points: seq<Point>, ghost arc: seq<Point>)
    requires Arc(rx, ry, arc0, |arc0|) && Point(x0, y0) == NextOnArc(rx, ry, arc0, |arc0|)
    requires !InRegion1(rx, ry, Point(x0, y0))
    requires points0 == Blocks4(xc, yc, arc0)
    ensures Arc(rx, ry, arc, |arc0|)
    ensures points == Blocks4(xc, yc, arc)
    ensures y0 < 0 ==> arc == arc0
    ensures y0 >= 0 ==> |arc| > |arc0| && arc[|arc| - 1].y == 0
  {
    var rx2, ry2 := rx * rx, ry * ry;
    var x, y := x0, y0;
    var p := ry2 as real * (x as real + 0.5) * (x as real + 0.5) + (rx2 * (y - 1) * (y - 1) - rx2 * ry2) as real;
    Region2Start(rx, ry, rx2, ry2, x, y);
    ghost var split := |arc0|;
    points, arc := points0, arc0;
    while y >= 0
      invariant Region2State(rx, ry, arc, split, x, y, p)
      invariant points == Blocks4(xc, yc, arc)
      invariant y0 >= 0 ==> y >= -1
      invariant |arc| > split ==> arc[|arc| - 1].y == y + 1 && y0 >= 0
      invariant |arc| == split ==> y == y0 && arc == arc0
      decreases y + 1
    {
      Region2Next(rx, ry, rx2, ry2, arc, split, x, y, p);
      points := points + Block4(xc, yc, Point(x, y));
      ghost var before := arc;
      arc := arc + [Point(x, y)];
      assert arc[..|before|] == before;
      y := y - 1;
      if p > 0.0 {
        p := p + (-2 * rx2 * y + rx2) as real;
      } else {
        x, p := x + 1, p + (2 * ry2 * (x + 1) - 2 * rx2 * y + rx2) as real;
      }
    }
  }

  /** MidpointEllipse(xc, yc, rx, ry): walks the quadrant from (0, ry) with
      the midpoint rule, first in region 1 (stepping right) while
      2 ry^2 x < 2 rx^2 y, then in region 2 (stepping down) while y >= 0, and
      emits the four mirror images of each quadrant point. The source's
      decision variable p is a quarter of the region's decision value. The
      ghost `arc` is the quadrant walk and `split` the number of its points
      drawn in region 1. */
  method MidpointEllipse(xc: int, yc: int, rx: int, ry: int)
    returns (points: seq<Point>, ghost arc: seq<Point>, ghost split: nat)
    ensures points == Blocks4(xc, yc, arc)
    ensures ry < 0 ==> arc == []
    ensures ry >= 0 ==> |arc| > 0 && arc[0] == Point(0, ry) && arc[|arc| - 1].y == 0
    ensures split <= |arc|
    ensures forall k :: 0 <= k < |arc| ==> (k < split <==> InRegion1(rx, ry, arc[k]))
    ensures forall k :: 0 < k < |arc| ==>
      arc[k] == if k - 1 < split then Region1Step(rx, ry, arc[k - 1]) else Region2Step(rx, ry, arc[k - 1])
  {
    var x, y;
    points, x, y, arc := WalkRegion1(xc, yc, rx, ry);
    split := |arc|;
    points, arc := WalkRegion2(xc, yc, rx, ry, x, y, points, arc);
    ArcFacts(rx, ry, arc, split);
  }

  /** Every point of an ellipse's output comes with its mirror images in the
      vertical and horizontal lines through the centre. */
  lemma {:induction false} EllipseSymmetric(xc: int, yc: int, arc: seq<Point>, q: Point)
    requires q in Blocks4(xc, yc, arc)
    ensures Point(2 * xc - q.x, q.y) in Blocks4(xc, yc, arc)
    ensures Point(q.x, 2 * yc - q.y) in Blocks4(xc, yc, arc)
    decreases |arc|
  {
    var n := |arc| - 1;
    var front, block := Blocks4(xc, yc, arc[..n]), Block4(xc, yc, arc[n]);
    assert Blocks4(xc, yc, arc) == front + block;
    if q in front {
      EllipseSymmetric(xc, yc, arc[..n], q);
    } else {
      assert q in block;
    }
  }
}
