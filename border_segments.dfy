/** The red border of Lab4/main.cpp: where the sides of a polygon cross
    the border of the clip window, and the stretches of the border between
    consecutive crossings on the same edge. */
module BorderSegments {
  import opened Clipping
  import Raster

  /** A crossing with the window border, tagged with the edge it lies on:
      0 left (x = xmin), 1 bottom (y = ymin), 2 right (x = xmax), 3 top (y = ymax). */
  datatype IntersectionPoint = IntersectionPoint(point: Point2D, edge: int)

  /** A stretch of one edge of the window border, from start to end. */
  datatype BorderSegment = BorderSegment(start: Point2D, end: Point2D, edge: int)

  /** The guard against sides (nearly) parallel to an edge. */
  const Epsilon: real := 0.0001

  predicate IsEdge(edge: int) {
    0 <= edge < 4
  }

  /** Edges 0 and 2 are vertical, 1 and 3 horizontal. */
  predicate Vertical(edge: int) {
    edge == 0 || edge == 2
  }

  /** The coordinate fixed along an edge's line: x on a vertical edge, y on a horizontal one. */
  function Across(p: Point2D, edge: int): real {
    if Vertical(edge) then p.x else p.y
  }

  /** The coordinate that varies along an edge: y on a vertical edge, x on
      a horizontal one. The crossings on an edge are sorted by it. */
  function Along(p: Point2D, edge: int): real {
    if Vertical(edge) then p.y else p.x
  }

  /** The point with the given coordinates across and along an edge. */
  function EdgePointAt(edge: int, across: real, along: real): (p: Point2D)
    ensures Across(p, edge) == across && Along(p, edge) == along
  {
    if Vertical(edge) then Point2D(across, along) else Point2D(along, across)
  }

  /** The line of an edge: the value of Across on it. */
  function EdgeLine(w: Window, edge: int): real
    requires IsEdge(edge)
  {
    if edge == 0 then w.xmin else if edge == 1 then w.ymin else if edge == 2 then w.xmax else w.ymax
  }

  /** The extent of an edge along its line. */
  function AlongMin(w: Window, edge: int): real {
    if Vertical(edge) then w.ymin else w.xmin
  }

  function AlongMax(w: Window, edge: int): real {
    if Vertical(edge) then w.ymax else w.xmax
  }

  /** p lies on the given edge of the window border. */
  predicate OnEdge(w: Window, p: Point2D, edge: int)
    requires IsEdge(edge)
  {
    Across(p, edge) == EdgeLine(w, edge) && AlongMin(w, edge) <= Along(p, edge) <= AlongMax(w, edge)
  }

  /** The parameter t along p1 p2 at which the side reaches the line of
      the edge (0 when the side is parallel to it). */
  function HitParam(w: Window, p1: Point2D, p2: Point2D, edge: int): real
    requires IsEdge(edge)
  {
    var d := Across(p2, edge) - Across(p1, edge);
    if d != 0.0 then (EdgeLine(w, edge) - Across(p1, edge)) / d else 0.0
  }

  /** The coordinate along the edge at which the side from (a1, b1), in
      across/along coordinates, with steps da across and db along, reaches
      the line at `bound`: the source's `p1.y + t * dy` with
      t = (bound - p1.x) / dx, and its mirror image for horizontal edges. */
  function CrossAt(a1: real, b1: real, da: real, db: real, bound: real): real
    requires da != 0.0
  {
    b1 + (bound - a1) / da * db
  }

  /** The side p1 p2 passes from one side of the edge's line to the other,
      with the source's convention that a point on the line counts as
      beyond it, on the side of larger coordinates. */
  predicate Crosses(w: Window, p1: Point2D, p2: Point2D, edge: int)
    requires IsEdge(edge)
  {
    var a1, a2, b := Across(p1, edge), Across(p2, edge), EdgeLine(w, edge);
    (a1 < b && a2 >= b) || (a1 >= b && a2 < b)
  }

  /** The crossing of side p1 p2 with one edge, as the source's block for
      that edge finds it: none, or one hit tagged with that edge. */
  function EdgeHit(w: Window, p1: Point2D, p2: Point2D, edge: int): (r: seq<IntersectionPoint>)
    requires IsEdge(edge)
    ensures |r| <= 1 && forall h :: h in r ==> h.edge == edge
  {
    var a1, a2, b := Across(p1, edge), Across(p2, edge), EdgeLine(w, edge);
    if Crosses(w, p1, p2, edge) && Raster.Abs(a2 - a1) > Epsilon then
      var v := CrossAt(a1, Along(p1, edge), a2 - a1, Along(p2, edge) - Along(p1, edge), b);
      if AlongMin(w, edge) <= v <= AlongMax(w, edge) then [IntersectionPoint(EdgePointAt(edge, b, v), edge)] else []
    else []
  }

  /** What a hit on an edge is: there is one exactly when the side crosses
      the edge's line, is not within Epsilon of parallel to it, and meets the
      line within the edge; it is then the point of the side at parameter
      HitParam, in [0, 1], and lies on the edge. */
  lemma EdgeHitMeaning(w: Window, p1: Point2D, p2: Point2D, edge: int)
    requires IsEdge(edge)
    ensures var r := EdgeHit(w, p1, p2, edge);
      && (r != [] <==>
          && Crosses(w, p1, p2, edge)
          && Raster.Abs(Across(p2, edge) - Across(p1, edge)) > Epsilon
          && AlongMin(w, edge) <= Along(Lerp(p1, p2, HitParam(w, p1, p2, edge)), edge) <= AlongMax(w, edge))
      && (r != [] ==> OnEdge(w, r[0].point, edge))
      && (r != [] ==> 0.0 <= HitParam(w, p1, p2, edge) <= 1.0 && r[0].point == Lerp(p1, p2, HitParam(w, p1, p2, edge)))
  {
    if Crosses(w, p1, p2, edge) && Raster.Abs(Across(p2, edge) - Across(p1, edge)) > Epsilon {
      HitOnSide(w, p1, p2, edge);
    }
  }

  /** A side that crosses the line of an edge meets it at a parameter in
      [0, 1], at the point with the computed coordinate along the edge. */
  lemma HitOnSide(w: Window, p1: Point2D, p2: Point2D, edge: int)
    requires IsEdge(edge) && Crosses(w, p1, p2, edge) && Across(p2, edge) != Across(p1, edge)
    ensures 0.0 <= HitParam(w, p1, p2, edge) <= 1.0
    ensures Lerp(p1, p2, HitParam(w, p1, p2, edge))
         == EdgePointAt(edge, EdgeLine(w, edge),
                        CrossAt(Across(p1, edge), Along(p1, edge), Across(p2, edge) - Across(p1, edge),
                                Along(p2, edge) - Along(p1, edge), EdgeLine(w, edge)))
  {
    var a1, a2, b := Across(p1, edge), Across(p2, edge), EdgeLine(w, edge);
    var t := HitParam(w, p1, p2, edge);
    FractionUnit(b - a1, a2 - a1);
    assert t * (a2 - a1) == b - a1;
    assert a1 + t * (a2 - a1) == b;
  }

  /** The hit on edge 0, written with the source's expressions for that edge. */
  lemma LeftHit(w: Window, p1: Point2D, p2: Point2D, dx: real, dy: real)
    requires dx == p2.x - p1.x && dy == p2.y - p1.y
    ensures EdgeHit(w, p1, p2, 0) ==
      if (p1.x < w.xmin && p2.x >= w.xmin) || (p1.x >= w.xmin && p2.x < w.xmin) then
        if Raster.Abs(dx) > Epsilon then
          var y := CrossAt(p1.x, p1.y, dx, dy, w.xmin);
          if y >= w.ymin && y <= w.ymax then [IntersectionPoint(Point2D(w.xmin, y), 0)] else []
        else []
      else []
  {
  }

  /** The hit on edge 1, written with the source's expressions for that edge. */
  lemma BottomHit(w: Window, p1: Point2D, p2: Point2D, dx: real, dy: real)
    requires dx == p2.x - p1.x && dy == p2.y - p1.y
    ensures EdgeHit(w, p1, p2, 1) ==
      if (p1.y < w.ymin && p2.y >= w.ymin) || (p1.y >= w.ymin && p2.y < w.ymin) then
        if Raster.Abs(dy) > Epsilon then
          var x := CrossAt(p1.y, p1.x, dy, dx, w.ymin);
          if x >= w.xmin && x <= w.xmax then [IntersectionPoint(Point2D(x, w.ymin), 1)] else []
        else []
      else []
  {
  }

  /** The hit on edge 2, written with the source's expressions for that edge. */
  lemma RightHit(w: Window, p1: Point2D, p2: Point2D, dx: real, dy: real)
    requires dx == p2.x - p1.x && dy == p2.y - p1.y
    ensures EdgeHit(w, p1, p2, 2) ==
      if (p1.x < w.xmax && p2.x >= w.xmax) || (p1.x >= w.xmax && p2.x < w.xmax) then
        if Raster.Abs(dx) > Epsilon then
          var y := CrossAt(p1.x, p1.y, dx, dy, w.xmax);
          if y >= w.ymin && y <= w.ymax then [IntersectionPoint(Point2D(w.xmax, y), 2)] else []
        else []
      else []
  {
  }

  /** The hit on edge 3, written with the source's expressions for that edge. */
  lemma TopHit(w: Window, p1: Point2D, p2: Point2D, dx: real, dy: real)
    requires dx == p2.x - p1.x && dy == p2.y - p1.y
    ensures EdgeHit(w, p1, p2, 3) ==
      if (p1.y < w.ymax && p2.y >= w.ymax) || (p1.y >= w.ymax && p2.y < w.ymax) then
        if Raster.Abs(dy) > Epsilon then
          var x := CrossAt(p1.y, p1.x, dy, dx, w.ymax);
          if x >= w.xmin && x <= w.xmax then [IntersectionPoint(Point2D(x, w.ymax), 3)] else []
        else []
      else []
  {
  }

  /** All hits of side p1 p2: none when both ends are inside or both
      outside the window, else the hits on edges 0, 1, 2, 3 in that order,
      so at most one per edge. */
  function Hits(w: Window, p1: Point2D, p2: Point2D): (r: seq<IntersectionPoint>)
    ensures |r| <= 4
    ensures forall i, j :: 0 <= i < j < |r| ==> r[i].edge < r[j].edge
  {
    if IsPointInClipWindow(w, p1) == IsPointInClipWindow(w, p2) then []
    else EdgeHit(w, p1, p2, 0) + EdgeHit(w, p1, p2, 1) + EdgeHit(w, p1, p2, 2) + EdgeHit(w, p1, p2, 3)
  }

  /** A side with both ends inside, or both outside, has no hits; every
      hit lies on the edge it names, at a point of the side. */
  lemma HitsOnBorder(w: Window, p1: Point2D, p2: Point2D)
    ensures IsPointInClipWindow(w, p1) == IsPointInClipWindow(w, p2) ==> Hits(w, p1, p2) == []
    ensures forall h :: h in Hits(w, p1, p2) ==>
      && IsEdge(h.edge) && OnEdge(w, h.point, h.edge)
      && 0.0 <= HitParam(w, p1, p2, h.edge) <= 1.0 && h.point == Lerp(p1, p2, HitParam(w, p1, p2, h.edge))
  {
    EdgeHitMeaning(w, p1, p2, 0);
    EdgeHitMeaning(w, p1, p2, 1);
    EdgeHitMeaning(w, p1, p2, 2);
    EdgeHitMeaning(w, p1, p2, 3);
  }

  /** The parts of HitsOnBorder that the polygon-level lemmas use. */
  lemma HitsOnEdges(w: Window, p1: Point2D, p2: Point2D)
    ensures forall h :: h in Hits(w, p1, p2) ==> IsEdge(h.edge) && OnEdge(w, h.point, h.edge)
  {
    HitsOnBorder(w, p1, p2);
  }

  lemma HitsNone(w: Window, p1: Point2D, p2: Point2D)
    requires IsPointInClipWindow(w, p1) == IsPointInClipWindow(w, p2)
    ensures Hits(w, p1, p2) == []
  {
  }

  /** findLineClipIntersectionsWithEdge: the crossings of side p1 p2 with
      the window border, one block per edge as in the source. */
  method FindLineClipIntersectionsWithEdge(w: Window, p1: Point2D, p2: Point2D) returns (intersections: seq<IntersectionPoint>)
    ensures intersections == Hits(w, p1, p2)
  {
    intersections := [];
    var p1Inside := IsPointInClipWindow(w, p1);
    var p2Inside := IsPointInClipWindow(w, p2);
    if p1Inside == p2Inside {
      return;
    }
    var dx := p2.x - p1.x;
    var dy := p2.y - p1.y;

    // left edge
    if (p1.x < w.xmin && p2.x >= w.xmin) || (p1.x >= w.xmin && p2.x < w.xmin) {
      if Raster.Abs(dx) > Epsilon {
        var y := CrossAt(p1.x, p1.y, dx, dy, w.xmin);
        if y >= w.ymin && y <= w.ymax {
          intersections := intersections + [IntersectionPoint(Point2D(w.xmin, y), 0)];
        }
      }
    }
    LeftHit(w, p1, p2, dx, dy);
    assert intersections == EdgeHit(w, p1, p2, 0);

    // bottom edge
    ghost var before := intersections;
    if (p1.y < w.ymin && p2.y >= w.ymin) || (p1.y >= w.ymin && p2.y < w.ymin) {
      if Raster.Abs(dy) > Epsilon {
        var x := CrossAt(p1.y, p1.x, dy, dx, w.ymin);
        if x >= w.xmin && x <= w.xmax {
          intersections := intersections + [IntersectionPoint(Point2D(x, w.ymin), 1)];
        }
      }
    }
    BottomHit(w, p1, p2, dx, dy);
    assert intersections == before + EdgeHit(w, p1, p2, 1);

    // right edge
    before := intersections;
    if (p1.x < w.xmax && p2.x >= w.xmax) || (p1.x >= w.xmax && p2.x < w.xmax) {
      if Raster.Abs(dx) > Epsilon {
        var y := CrossAt(p1.x, p1.y, dx, dy, w.xmax);
        if y >= w.ymin && y <= w.ymax {
          intersections := intersections + [IntersectionPoint(Point2D(w.xmax, y), 2)];
        }
      }
    }
    RightHit(w, p1, p2, dx, dy);
    assert intersections == before + EdgeHit(w, p1, p2, 2);

    // top edge
    before := intersections;
    if (p1.y < w.ymax && p2.y >= w.ymax) || (p1.y >= w.ymax && p2.y < w.ymax) {
      if Raster.Abs(dy) > Epsilon {
        var x := CrossAt(p1.y, p1.x, dy, dx, w.ymax);
        if x >= w.xmin && x <= w.xmax {
          intersections := intersections + [IntersectionPoint(Point2D(x, w.ymax), 3)];
        }
      }
    }
    TopHit(w, p1, p2, dx, dy);
    assert intersections == before + EdgeHit(w, p1, p2, 3);
  }

  /** The hits of the first i sides of the polygon, side j running from
      vertex j to vertex (j + 1) % n, so that the last side closes the
      polygon. */
  function Collect(w: Window, polygon: seq<Point2D>, i: nat): seq<IntersectionPoint>
    requires i <= |polygon|
  {
    if i == 0 then [] else Collect(w, polygon, i - 1) + Hits(w, polygon[i - 1], polygon[i % |polygon|])
  }

  /** Every collected hit lies on the edge it names. */
  lemma {:induction false} CollectOnBorder(w: Window, polygon: seq<Point2D>, i: nat)
    requires i <= |polygon|
    ensures forall h :: h in Collect(w, polygon, i) ==> IsEdge(h.edge) && OnEdge(w, h.point, h.edge)
  {
    if i > 0 {
      CollectOnBorder(w, polygon, i - 1);
      HitsOnEdges(w, polygon[i - 1], polygon[i % |polygon|]);
    }
  }

  /** The collected hits on one edge are told apart by their coordinate along it. */
  lemma CollectedDistinguished(w: Window, polygon: seq<Point2D>, edge: int)
    requires IsEdge(edge)
    ensures KeysDistinguish(Bucket(Collect(w, polygon, |polygon|), edge), edge)
  {
    CollectOnBorder(w, polygon, |polygon|);
    BucketDistinguished(w, Bucket(Collect(w, polygon, |polygon|), edge), edge);
  }

  /** The hits of s on one edge, in their order in s. */
  function Bucket(s: seq<IntersectionPoint>, edge: int): (r: seq<IntersectionPoint>)
    ensures forall h :: h in r <==> h in s && h.edge == edge
  {
    if s == [] then []
    else
      assert s == s[..|s| - 1] + [s[|s| - 1]];
      Bucket(s[..|s| - 1], edge) + (if s[|s| - 1].edge == edge then [s[|s| - 1]] else [])
  }

  /** Adding one more hit to the scanned prefix adds it to its own bucket only. */
  lemma BucketNext(s: seq<IntersectionPoint>, j: int, edge: int)
    requires 0 <= j < |s|
    ensures Bucket(s[..j + 1], edge) == Bucket(s[..j], edge) + (if s[j].edge == edge then [s[j]] else [])
  {
    assert s[..j + 1][..j] == s[..j];
  }

  /** The four buckets split the hits: each hit, tagged with an edge in
      0..3, goes to exactly one of them. */
  lemma {:induction false} BucketSizes(s: seq<IntersectionPoint>)
    requires forall h :: h in s ==> IsEdge(h.edge)
    ensures |Bucket(s, 0)| + |Bucket(s, 1)| + |Bucket(s, 2)| + |Bucket(s, 3)| == |s|
  {
    if s != [] {
      assert s == s[..|s| - 1] + [s[|s| - 1]];
      BucketSizes(s[..|s| - 1]);
    }
  }

  /** The sort key of the source's comparison: y on the vertical edges 0
      and 2, x on the horizontal edges 1 and 3. */
  function Key(h: IntersectionPoint, edge: int): real {
    Along(h.point, edge)
  }

  predicate SortedAlong(s: seq<IntersectionPoint>, edge: int) {
    forall i, j :: 0 <= i < j < |s| ==> Key(s[i], edge) <= Key(s[j], edge)
  }

  /** Every hit of s has a key of at least k. */
  predicate KeysFrom(k: real, s: seq<IntersectionPoint>, edge: int) {
    forall x :: x in s ==> k <= Key(x, edge)
  }

  /** A hit keyed no higher than the rest of a sorted sequence can go in front. */
  lemma SortedCons(x: IntersectionPoint, s: seq<IntersectionPoint>, edge: int)
    requires SortedAlong(s, edge) && KeysFrom(Key(x, edge), s, edge)
    ensures SortedAlong([x] + s, edge)
  {
    forall i, j | 0 <= i < j < |[x] + s|
      ensures Key(([x] + s)[i], edge) <= Key(([x] + s)[j], edge)
    {
      assert ([x] + s)[j] == s[j - 1];
      if i > 0 {
        assert ([x] + s)[i] == s[i - 1];
      } else {
        assert s[j - 1] in s;
      }
    }
  }

  /** h inserted into sorted s before the first element with a key at least its own. */
  function Insert(h: IntersectionPoint, s: seq<IntersectionPoint>, edge: int): (r: seq<IntersectionPoint>)
    requires SortedAlong(s, edge)
    ensures SortedAlong(r, edge)
    ensures multiset(r) == multiset(s) + multiset{h}
    ensures forall x :: x in r <==> x == h || x in s
  {
    if s == [] || Key(h, edge) <= Key(s[0], edge) then
      SortedCons(h, s, edge);
      [h] + s
    else
      assert s == [s[0]] + s[1..];
      var rest := Insert(h, s[1..], edge);
      SortedCons(s[0], rest, edge);
      [s[0]] + rest
  }

  /** The bucket sorted along its edge: the reference for the in-place sort. */
  function SortAlong(s: seq<IntersectionPoint>, edge: int): (r: seq<IntersectionPoint>)
    ensures SortedAlong(r, edge) && multiset(r) == multiset(s)
  {
    if s == [] then []
    else
      assert s == [s[0]] + s[1..];
      Insert(s[0], SortAlong(s[1..], edge), edge)
  }

  /** No two different hits of s share a key. */
  predicate KeysDistinguish(s: seq<IntersectionPoint>, edge: int) {
    forall x, y :: x in s && y in s && Key(x, edge) == Key(y, edge) ==> x == y
  }

  /** When keys tell the elements apart, a sequence has only one sorted
      order: two sorted permutations of each other are equal. So however
      std::sort breaks ties, a bucket sorts to SortAlong. */
  lemma {:induction false} SortedUnique(s: seq<IntersectionPoint>, t: seq<IntersectionPoint>, edge: int)
    requires SortedAlong(s, edge) && SortedAlong(t, edge)
    requires multiset(s) == multiset(t) && KeysDistinguish(s, edge)
    ensures s == t
  {
    assert |t| == |multiset(t)| == |multiset(s)| == |s|;
    if s != [] {
      SortedHeads(s, t, edge);
      SortedTails(s, t, edge);
      SortedTail(s, edge);
      SortedTail(t, edge);
      SortedUnique(s[1..], t[1..], edge);
      assert s == [s[0]] + s[1..] && t == [t[0]] + t[1..];
    }
  }

  /** A tail of a sorted sequence is sorted. */
  lemma SortedTail(s: seq<IntersectionPoint>, edge: int)
    requires SortedAlong(s, edge) && s != []
    ensures SortedAlong(s[1..], edge)
  {
  }

  /** Two nonempty sorted permutations of each other start with the same
      hit, when keys tell hits apart. */
  lemma SortedHeads(s: seq<IntersectionPoint>, t: seq<IntersectionPoint>, edge: int)
    requires SortedAlong(s, edge) && SortedAlong(t, edge) && s != [] && t != []
    requires multiset(s) == multiset(t) && KeysDistinguish(s, edge)
    ensures s[0] == t[0]
  {
    assert s[0] in multiset(t) && t[0] in multiset(s);
    var j :| 0 <= j < |t| && t[j] == s[0];
    var i :| 0 <= i < |s| && s[i] == t[0];
    assert Key(t[0], edge) <= Key(s[0], edge) <= Key(t[0], edge);
  }

  /** Their tails then satisfy the same conditions. */
  lemma SortedTails(s: seq<IntersectionPoint>, t: seq<IntersectionPoint>, edge: int)
    requires SortedAlong(s, edge) && SortedAlong(t, edge) && s != [] && t != [] && s[0] == t[0]
    requires multiset(s) == multiset(t) && KeysDistinguish(s, edge)
    ensures multiset(s[1..]) == multiset(t[1..]) && KeysDistinguish(s[1..], edge)
  {
    assert s == [s[0]] + s[1..] && t == [t[0]] + t[1..];
    assert multiset(s[1..]) == multiset(s) - multiset{s[0]};
    assert multiset(t[1..]) == multiset(t) - multiset{t[0]};
    forall x | x in s[1..] ensures x in s {
    }
  }

  /** Sequences with the same elements are told apart by their keys alike. */
  lemma DistinguishPermutation(s: seq<IntersectionPoint>, t: seq<IntersectionPoint>, edge: int)
    requires multiset(s) == multiset(t) && KeysDistinguish(s, edge)
    ensures KeysDistinguish(t, edge)
  {
    forall x | x in t ensures x in s {
      assert x in multiset(t);
    }
  }

  /** The hits on one edge differ in their coordinate along it. */
  lemma BucketDistinguished(w: Window, s: seq<IntersectionPoint>, edge: int)
    requires IsEdge(edge)
    requires forall h :: h in s ==> h.edge == edge && OnEdge(w, h.point, edge)
    ensures KeysDistinguish(s, edge)
  {
    forall x, y | x in s && y in s && Key(x, edge) == Key(y, edge)
      ensures x == y
    {
    }
  }

  /** The source's pairing loop over a sorted bucket: entries (0, 1),
      (2, 3), ... become segments of the edge, an odd last entry is
      dropped. */
  function Pairs(s: seq<IntersectionPoint>, edge: int): (r: seq<BorderSegment>)
    ensures |r| == |s| / 2
    ensures forall j :: 0 <= j < |r| ==> r[j] == BorderSegment(s[2 * j].point, s[2 * j + 1].point, edge)
  {
    if |s| < 2 then []
    else [BorderSegment(s[0].point, s[1].point, edge)] + Pairs(s[2..], edge)
  }

  /** Pairing a prefix of even length k, then the entries k and k + 1. */
  lemma PairsExtend(s: seq<IntersectionPoint>, k: int, edge: int)
    requires 0 <= k && k % 2 == 0 && k + 1 < |s|
    ensures Pairs(s[..k + 2], edge) == Pairs(s[..k], edge) + [BorderSegment(s[k].point, s[k + 1].point, edge)]
  {
    var long, short := Pairs(s[..k + 2], edge), Pairs(s[..k], edge);
    assert |long| == |short| + 1;
    forall j | 0 <= j < |long|
      ensures long[j] == (short + [BorderSegment(s[k].point, s[k + 1].point, edge)])[j]
    {
      if j < |short| {
        assert long[j] == BorderSegment(s[2 * j].point, s[2 * j + 1].point, edge) == short[j];
      }
    }
  }

  /** Pairing stops at the last full pair: a prefix of even length k
      without at most one trailing entry pairs like the whole sequence. */
  lemma PairsWhole(s: seq<IntersectionPoint>, k: int, edge: int)
    requires 0 <= k <= |s| && k % 2 == 0 && |s| - 1 <= k
    ensures Pairs(s[..k], edge) == Pairs(s, edge)
  {
    var part, whole := Pairs(s[..k], edge), Pairs(s, edge);
    assert |part| == |whole|;
    forall j | 0 <= j < |part|
      ensures part[j] == whole[j]
    {
      assert part[j] == BorderSegment(s[2 * j].point, s[2 * j + 1].point, edge);
    }
  }

  /** The segments of one edge: its bucket, when it has two hits or more,
      sorted and paired. */
  function EdgeSegments(all: seq<IntersectionPoint>, edge: int): seq<BorderSegment> {
    var bucket := Bucket(all, edge);
    if |bucket| >= 2 then Pairs(SortAlong(bucket, edge), edge) else []
  }

  /** The segments of edges 0 .. e - 1, edge by edge. */
  function SegmentsBelow(all: seq<IntersectionPoint>, e: nat): seq<BorderSegment> {
    if e == 0 then [] else SegmentsBelow(all, e - 1) + EdgeSegments(all, e - 1)
  }

  /** Appending the segments of one more edge. */
  lemma SegmentsNext(all: seq<IntersectionPoint>, edge: nat, done: seq<BorderSegment>, segments: seq<BorderSegment>)
    requires done == SegmentsBelow(all, edge) && segments == EdgeSegments(all, edge)
    ensures done + segments == SegmentsBelow(all, edge + 1)
  {
  }

  /** generateRedBorderSegments as a function of the polygon: nothing when
      its sides have fewer than two hits in all, else the segments of
      edges 0, 1, 2, 3. */
  function RedSegments(w: Window, polygon: seq<Point2D>): seq<BorderSegment> {
    var all := Collect(w, polygon, |polygon|);
    if |all| < 2 then [] else SegmentsBelow(all, 4)
  }

  /** A polygon whose vertices are all inside the window, or all outside,
      has no hits: no side has one end inside and the other outside. */
  lemma {:induction false} CollectUniform(w: Window, polygon: seq<Point2D>, i: nat)
    requires i <= |polygon|
    requires forall j :: 0 <= j < |polygon| ==>
      IsPointInClipWindow(w, polygon[j]) == IsPointInClipWindow(w, polygon[0])
    ensures Collect(w, polygon, i) == []
  {
    if i > 0 {
      CollectUniform(w, polygon, i - 1);
      var k := i % |polygon|;
      assert 0 <= k < |polygon|;
      HitsNone(w, polygon[i - 1], polygon[k]);
    }
  }

  /** So such a polygon gets no red border segments. */
  lemma RedSegmentsUniform(w: Window, polygon: seq<Point2D>)
    requires forall j :: 0 <= j < |polygon| ==>
      IsPointInClipWindow(w, polygon[j]) == IsPointInClipWindow(w, polygon[0])
    ensures RedSegments(w, polygon) == []
  {
    CollectUniform(w, polygon, |polygon|);
  }

  /** One edge yields half its hits, rounded down, as segments. */
  lemma EdgeSegmentsCount(all: seq<IntersectionPoint>, edge: int)
    ensures |EdgeSegments(all, edge)| == |Bucket(all, edge)| / 2
  {
    var bucket := Bucket(all, edge);
    if |bucket| >= 2 {
      assert |SortAlong(bucket, edge)| == |multiset(SortAlong(bucket, edge))| == |multiset(bucket)| == |bucket|;
    }
  }

  /** The number of red segments: with two hits or more in all, each edge
      contributes half its hits, rounded down, so at most half of all hits
      become segment ends. */
  lemma RedSegmentsCount(w: Window, polygon: seq<Point2D>)
    ensures var all := Collect(w, polygon, |polygon|);
      |all| >= 2 ==>
        |RedSegments(w, polygon)| == |Bucket(all, 0)| / 2 + |Bucket(all, 1)| / 2 + |Bucket(all, 2)| / 2 + |Bucket(all, 3)| / 2
    ensures 2 * |RedSegments(w, polygon)| <= |Collect(w, polygon, |polygon|)|
  {
    var all := Collect(w, polygon, |polygon|);
    var e0, e1, e2, e3 := EdgeSegments(all, 0), EdgeSegments(all, 1), EdgeSegments(all, 2), EdgeSegments(all, 3);
    EdgeSegmentsCount(all, 0);
    EdgeSegmentsCount(all, 1);
    EdgeSegmentsCount(all, 2);
    EdgeSegmentsCount(all, 3);
    var s1 := SegmentsBelow(all, 0) + e0;
    SegmentsNext(all, 0, SegmentsBelow(all, 0), e0);
    var s2 := s1 + e1;
    SegmentsNext(all, 1, s1, e1);
    var s3 := s2 + e2;
    SegmentsNext(all, 2, s2, e2);
    SegmentsNext(all, 3, s3, e3);
    assert |SegmentsBelow(all, 4)| == |e0| + |e1| + |e2| + |e3|;
    CollectOnBorder(w, polygon, |polygon|);
    BucketSizes(all);
  }

  /** A segment in the stated position of a bucket: both ends lie on the
      edge, the start no further along it than the end. */
  predicate SegmentOnBorder(w: Window, s: BorderSegment) {
    && IsEdge(s.edge)
    && OnEdge(w, s.start, s.edge) && OnEdge(w, s.end, s.edge)
    && Along(s.start, s.edge) <= Along(s.end, s.edge)
  }

  /** The segments of one edge join hits on that edge, in sorted order. */
  lemma EdgeSegmentsOnBorder(w: Window, all: seq<IntersectionPoint>, edge: int)
    requires IsEdge(edge)
    requires forall h :: h in all ==> IsEdge(h.edge) && OnEdge(w, h.point, h.edge)
    ensures forall s :: s in EdgeSegments(all, edge) ==> s.edge == edge && SegmentOnBorder(w, s)
  {
    var bucket := Bucket(all, edge);
    if |bucket| >= 2 {
      var sorted := SortAlong(bucket, edge);
      var r := Pairs(sorted, edge);
      forall s | s in r
        ensures s.edge == edge && SegmentOnBorder(w, s)
      {
        var j :| 0 <= j < |r| && r[j] == s;
        assert sorted[2 * j] in multiset(sorted) && sorted[2 * j + 1] in multiset(sorted);
        assert Key(sorted[2 * j], edge) <= Key(sorted[2 * j + 1], edge);
      }
    }
  }

  /** The segments of the edges below e, edge by edge. */
  lemma {:induction false} SegmentsBelowOnBorder(w: Window, all: seq<IntersectionPoint>, e: nat)
    requires e <= 4
    requires forall h :: h in all ==> IsEdge(h.edge) && OnEdge(w, h.point, h.edge)
    ensures forall s :: s in SegmentsBelow(all, e) ==> s.edge < e && SegmentOnBorder(w, s)
  {
    if e > 0 {
      SegmentsBelowOnBorder(w, all, e - 1);
      EdgeSegmentsOnBorder(w, all, e - 1);
    }
  }

  /** Every red segment runs along one edge of the window, between two of
      the polygon's crossings of that edge, from the lower to the higher
      coordinate along it. */
  lemma RedSegmentsOnBorder(w: Window, polygon: seq<Point2D>)
    ensures forall s :: s in RedSegments(w, polygon) ==> SegmentOnBorder(w, s)
  {
    CollectOnBorder(w, polygon, |polygon|);
    SegmentsBelowOnBorder(w, Collect(w, polygon, |polygon|), 4);
  }

  /** Segments whose edges lie below e and never decrease. */
  predicate EdgeOrdered(r: seq<BorderSegment>, e: int) {
    && (forall i :: 0 <= i < |r| ==> 0 <= r[i].edge < e)
    && (forall i, j :: 0 <= i < j < |r| ==> r[i].edge <= r[j].edge)
  }

  /** The segments of one edge carry that edge. */
  lemma EdgeSegmentsEdge(all: seq<IntersectionPoint>, edge: int)
    ensures forall i :: 0 <= i < |EdgeSegments(all, edge)| ==> EdgeSegments(all, edge)[i].edge == edge
  {
  }

  /** Appending segments of edge e to segments ordered below e. */
  lemma AppendOrdered(a: seq<BorderSegment>, b: seq<BorderSegment>, e: int)
    requires 0 <= e && EdgeOrdered(a, e) && forall i :: 0 <= i < |b| ==> b[i].edge == e
    ensures EdgeOrdered(a + b, e + 1)
  {
    var r := a + b;
    forall i | 0 <= i < |r|
      ensures r[i] == if i < |a| then a[i] else b[i - |a|]
    {
    }
  }

  /** One more edge keeps the segments ordered. */
  lemma SegmentsBelowOrdered(all: seq<IntersectionPoint>, e: nat)
    requires EdgeOrdered(SegmentsBelow(all, e), e)
    ensures EdgeOrdered(SegmentsBelow(all, e + 1), e + 1)
  {
    var below, here := SegmentsBelow(all, e), EdgeSegments(all, e);
    SegmentsNext(all, e, below, here);
    EdgeSegmentsEdge(all, e);
    AppendOrdered(below, here, e);
  }

  lemma AllEdgesOrdered(all: seq<IntersectionPoint>)
    ensures EdgeOrdered(SegmentsBelow(all, 4), 4)
  {
    assert EdgeOrdered(SegmentsBelow(all, 0), 0);
    SegmentsBelowOrdered(all, 0);
    SegmentsBelowOrdered(all, 1);
    SegmentsBelowOrdered(all, 2);
    SegmentsBelowOrdered(all, 3);
  }

  /** The red segments come grouped by edge: left, bottom, right, top. */
  lemma RedSegmentsOrdered(w: Window, polygon: seq<Point2D>)
    ensures var r := RedSegments(w, polygon);
      forall i, j :: 0 <= i < j < |r| ==> 0 <= r[i].edge <= r[j].edge < 4
  {
    AllEdgesOrdered(Collect(w, polygon, |polygon|));
  }

  /** s with the entries at j - 1 and j exchanged. */
  function Swap(s: seq<IntersectionPoint>, j: int): (r: seq<IntersectionPoint>)
    requires 0 < j < |s|
    ensures |r| == |s| && multiset(r) == multiset(s)
  {
    s[j - 1 := s[j]][j := s[j - 1]]
  }

  /** The state of the inner loop of the insertion sort: the entry that was
      at i has sunk to j; s[..i + 1] is sorted except around j, and the
      neighbours of j are in order with each other. */
  ghost predicate Sinking(s: seq<IntersectionPoint>, i: int, j: int, edge: int) {
    && 0 <= j <= i < |s|
    && (forall k, l :: 0 <= k < l <= i && l != j ==> Key(s[k], edge) <= Key(s[l], edge))
    && (0 < j < i ==> Key(s[j - 1], edge) <= Key(s[j + 1], edge))
  }

  lemma SinkStart(s: seq<IntersectionPoint>, i: int, edge: int)
    requires 0 <= i < |s| && SortedAlong(s[..i], edge)
    ensures Sinking(s, i, i, edge)
  {
    forall k, l | 0 <= k < l < i
      ensures Key(s[k], edge) <= Key(s[l], edge)
    {
      assert s[k] == s[..i][k] && s[l] == s[..i][l];
    }
  }

  lemma SinkStep(s: seq<IntersectionPoint>, i: int, j: int, edge: int)
    requires Sinking(s, i, j, edge) && 0 < j && Key(s[j - 1], edge) > Key(s[j], edge)
    ensures Sinking(Swap(s, j), i, j - 1, edge)
  {
  }

  lemma SinkDone(s: seq<IntersectionPoint>, i: int, j: int, edge: int)
    requires Sinking(s, i, j, edge) && (j == 0 || Key(s[j - 1], edge) <= Key(s[j], edge))
    ensures SortedAlong(s[..i + 1], edge)
  {
    forall k, l | 0 <= k < l <= i
      ensures Key(s[k], edge) <= Key(s[l], edge)
    {
      if l == j && k < j - 1 {
        assert Key(s[k], edge) <= Key(s[j - 1], edge);
      }
    }
  }

  /** std::sort of one bucket with the source's comparison, in place. */
  method SortBucket(a: array<IntersectionPoint>, edge: int)
    modifies a
    ensures SortedAlong(a[..], edge)
    ensures multiset(a[..]) == multiset(old(a[..]))
  {
    var i := 0;
    while i < a.Length
      invariant 0 <= i <= a.Length
      invariant SortedAlong(a[..i], edge)
      invariant multiset(a[..]) == multiset(old(a[..]))
    {
      SinkStart(a[..], i, edge);
      var j := i;
      while j > 0 && Key(a[j - 1], edge) > Key(a[j], edge)
        invariant Sinking(a[..], i, j, edge)
        invariant multiset(a[..]) == multiset(old(a[..]))
      {
        ghost var s := a[..];
        a[j - 1], a[j] := a[j], a[j - 1];
        assert a[..] == Swap(s, j);
        SinkStep(s, i, j, edge);
        j := j - 1;
      }
      SinkDone(a[..], i, j, edge);
      i := i + 1;
    }
    assert a[..] == a[..a.Length];
  }

  /** The first phase of generateRedBorderSegments: the hits of every side
      of the polygon, side i running from vertex i to vertex (i + 1) % n. */
  method CollectIntersections(w: Window, polygon: seq<Point2D>) returns (allIntersections: seq<IntersectionPoint>)
    ensures allIntersections == Collect(w, polygon, |polygon|)
  {
    allIntersections := [];
    var i := 0;
    while i < |polygon|
      invariant 0 <= i <= |polygon| && allIntersections == Collect(w, polygon, i)
    {
      var next := (i + 1) % |polygon|;
      var intersections := FindLineClipIntersectionsWithEdge(w, polygon[i], polygon[next]);
      allIntersections := allIntersections + intersections;
      i := i + 1;
    }
  }

  /** The second phase: the hits grouped by edge, each group in the order
      of the hits. */
  method GroupByEdge(allIntersections: seq<IntersectionPoint>) returns (edgeIntersections: seq<seq<IntersectionPoint>>)
    requires forall h :: h in allIntersections ==> IsEdge(h.edge)
    ensures |edgeIntersections| == 4
    ensures forall e :: 0 <= e < 4 ==> edgeIntersections[e] == Bucket(allIntersections, e)
  {
    edgeIntersections := [[], [], [], []];
    var j := 0;
    while j < |allIntersections|
      invariant 0 <= j <= |allIntersections| && |edgeIntersections| == 4
      invariant forall e :: 0 <= e < 4 ==> edgeIntersections[e] == Bucket(allIntersections[..j], e)
    {
      var intersection := allIntersections[j];
      assert intersection in allIntersections;
      forall e | 0 <= e < 4 {
        BucketNext(allIntersections, j, e);
      }
      edgeIntersections := edgeIntersections[intersection.edge := edgeIntersections[intersection.edge] + [intersection]];
      j := j + 1;
    }
    assert allIntersections[..j] == allIntersections;
  }

  /** The pairing loop of the last phase over a sorted bucket of at least
      two hits: i runs over 0, 2, 4, ... while i < size - 1. */
  method PairUp(a: array<IntersectionPoint>, edge: int) returns (segments: seq<BorderSegment>)
    requires a.Length >= 2
    ensures segments == Pairs(a[..], edge)
  {
    segments := [];
    var i := 0;
    while i < a.Length - 1
      invariant 0 <= i <= a.Length && i % 2 == 0
      invariant segments == Pairs(a[..][..i], edge)
    {
      if i + 1 < a.Length {
        PairsExtend(a[..], i, edge);
        segments := segments + [BorderSegment(a[i].point, a[i + 1].point, edge)];
      }
      i := i + 2;
    }
    PairsWhole(a[..], i, edge);
  }

  /** One round of the last phase of generateRedBorderSegments: a bucket of
      two hits or more is sorted in place and paired; the bucket comes back
      in its new order. */
  method EdgePairs(w: Window, polygon: seq<Point2D>, bucket: seq<IntersectionPoint>, edge: int)
    returns (segments: seq<BorderSegment>, sorted: seq<IntersectionPoint>)
    requires IsEdge(edge) && bucket == Bucket(Collect(w, polygon, |polygon|), edge)
    ensures segments == EdgeSegments(Collect(w, polygon, |polygon|), edge)
    ensures |bucket| >= 2 ==> sorted == SortAlong(bucket, edge)
    ensures |bucket| < 2 ==> sorted == bucket
  {
    sorted := bucket;
    segments := [];
    if |bucket| >= 2 {
      var a := new IntersectionPoint[|bucket|](k requires 0 <= k < |bucket| => bucket[k]);
      assert a[..] == bucket;
      SortBucket(a, edge);
      sorted := a[..];
      CollectedDistinguished(w, polygon, edge);
      DistinguishPermutation(bucket, sorted, edge);
      SortedUnique(sorted, SortAlong(bucket, edge), edge);
      segments := PairUp(a, edge);
    }
  }

  /** The last phase of generateRedBorderSegments: edge by edge, the
      bucket is sorted in place and paired. */
  method PairEdges(w: Window, polygon: seq<Point2D>, buckets: seq<seq<IntersectionPoint>>)
    returns (redSegments: seq<BorderSegment>, edgeIntersections: seq<seq<IntersectionPoint>>)
    requires |buckets| == 4
    requires forall e :: 0 <= e < 4 ==> buckets[e] == Bucket(Collect(w, polygon, |polygon|), e)
    ensures redSegments == SegmentsBelow(Collect(w, polygon, |polygon|), 4)
    ensures |edgeIntersections| == 4
  {
    ghost var all := Collect(w, polygon, |polygon|);
    redSegments := [];
    edgeIntersections := buckets;
    var edge := 0;
    while edge < 4
      invariant 0 <= edge <= 4 && |edgeIntersections| == 4
      invariant forall e :: edge <= e < 4 ==> edgeIntersections[e] == Bucket(all, e)
      invariant redSegments == SegmentsBelow(all, edge)
    {
      var segments, sorted := EdgePairs(w, polygon, edgeIntersections[edge], edge);
      edgeIntersections := edgeIntersections[edge := sorted];
      SegmentsNext(all, edge, redSegments, segments);
      redSegments := redSegments + segments;
      edge := edge + 1;
    }
  }

  /** generateRedBorderSegments: collects the hits of every side of the
      polygon (the last side closing it), buckets them by edge, sorts each
      bucket of two hits or more in place and pairs its entries. */
  method GenerateRedBorderSegments(w: Window, polygon: seq<Point2D>) returns (redSegments: seq<BorderSegment>)
    ensures redSegments == RedSegments(w, polygon)
  {
    redSegments := [];
    var allIntersections := CollectIntersections(w, polygon);
    if |allIntersections| < 2 {
      return;
    }
    assert forall h :: h in allIntersections ==> IsEdge(h.edge) by {
      CollectOnBorder(w, polygon, |polygon|);
    }
    var edgeIntersections := GroupByEdge(allIntersections);
    redSegments, edgeIntersections := PairEdges(w, polygon, edgeIntersections);
  }
}
