/** Cohen-Sutherland line clipping against the rectangular clip window of
    Lab4/main.cpp: region outcodes, the point-in-window test, and the
    clipping loop, in exact real arithmetic. */
module Clipping {

  datatype Point2D = Point2D(x: real, y: real)

  /** The clip window xmin..xmax by ymin..ymax. The program keeps it in
      globals; the model passes it explicitly. */
  datatype Window = Window(xmin: real, ymin: real, xmax: real, ymax: real)
  {
    predicate Valid() {
      xmin <= xmax && ymin <= ymax
    }
  }

  /** The window the program clips against. */
  const ClipWindow: Window := Window(-0.3, -0.2, 0.3, 0.2)

  /** Outcode bits. */
  const INSIDE: bv4 := 0
  const LEFT: bv4 := 1
  const RIGHT: bv4 := 2
  const BOTTOM: bv4 := 4
  const TOP: bv4 := 8

  /** isPointInClipWindow: the boundary counts as inside. */
  predicate IsPointInClipWindow(w: Window, p: Point2D) {
    w.xmin <= p.x <= w.xmax && w.ymin <= p.y <= w.ymax
  }

  /** computeCode: LEFT or else RIGHT by x, BOTTOM or else TOP by y. */
  function ComputeCode(w: Window, p: Point2D): (code: bv4)
    ensures code == INSIDE <==> IsPointInClipWindow(w, p)
    ensures (code & LEFT != 0) <==> p.x < w.xmin
    ensures (code & RIGHT != 0) <==> w.xmin <= p.x && w.xmax < p.x
    ensures (code & BOTTOM != 0) <==> p.y < w.ymin
    ensures (code & TOP != 0) <==> w.ymin <= p.y && w.ymax < p.y
    ensures code & (LEFT | RIGHT) != LEFT | RIGHT
    ensures code & (BOTTOM | TOP) != BOTTOM | TOP
  {
    var horizontal := if p.x < w.xmin then LEFT else if p.x > w.xmax then RIGHT else INSIDE;
    var vertical := if p.y < w.ymin then BOTTOM else if p.y > w.ymax then TOP else INSIDE;
    INSIDE | horizontal | vertical
  }

  predicate IsSide(side: bv4) {
    side == LEFT || side == RIGHT || side == BOTTOM || side == TOP
  }

  /** The boundary a clip step works on: the highest set bit of the outcode,
      so TOP before BOTTOM before RIGHT before LEFT. */
  function Side(codeOut: bv4): (side: bv4)
    ensures codeOut != INSIDE ==> IsSide(side) && codeOut & side != 0
  {
    if codeOut & TOP != 0 then TOP
    else if codeOut & BOTTOM != 0 then BOTTOM
    else if codeOut & RIGHT != 0 then RIGHT
    else if codeOut & LEFT != 0 then LEFT
    else INSIDE
  }

  /** How far p lies beyond the boundary line of the window on `side`:
      positive outside that boundary, zero on it, negative within it. */
  function Excess(w: Window, side: bv4, p: Point2D): real {
    if side == TOP then p.y - w.ymax
    else if side == BOTTOM then w.ymin - p.y
    else if side == RIGHT then p.x - w.xmax
    else w.xmin - p.x
  }

  /** In a well-formed window an outcode bit is set exactly when the point
      lies beyond that boundary. */
  lemma CodeExcess(w: Window, p: Point2D, side: bv4)
    requires w.Valid() && IsSide(side)
    ensures (ComputeCode(w, p) & side != 0) <==> Excess(w, side, p) > 0.0
  {
  }

  /** The point at parameter t on the segment from p (t = 0) to q (t = 1). */
  function Lerp(p: Point2D, q: Point2D, t: real): Point2D {
    Point2D(p.x + t * (q.x - p.x), p.y + t * (q.y - p.y))
  }

  /** The value at parameter t of the affine function that is a at 0 and b at 1. */
  function Affine(a: real, b: real, t: real): real {
    a + t * (b - a)
  }

  /** Excess is affine along a segment. */
  lemma ExcessLerp(w: Window, side: bv4, p: Point2D, q: Point2D, t: real)
    ensures Excess(w, side, Lerp(p, q, t)) == Affine(Excess(w, side, p), Excess(w, side, q), t)
  {
    var d := Excess(w, side, q) - Excess(w, side, p);
    if side == TOP || side == BOTTOM {
      assert d == q.y - p.y || d == p.y - q.y;
      assert t * (p.y - q.y) == -(t * (q.y - p.y));
    } else {
      assert d == q.x - p.x || d == p.x - q.x;
      assert t * (p.x - q.x) == -(t * (q.x - p.x));
    }
  }

  /** A point between two parameters takes a value between theirs. */
  lemma AffineBetween(a: real, b: real, ta: real, t: real, tb: real)
    requires ta <= t <= tb
    ensures Affine(a, b, ta) <= Affine(a, b, t) <= Affine(a, b, tb)
         || Affine(a, b, tb) <= Affine(a, b, t) <= Affine(a, b, ta)
  {
    assert Affine(a, b, t) - Affine(a, b, ta) == (t - ta) * (b - a);
    assert Affine(a, b, tb) - Affine(a, b, t) == (tb - t) * (b - a);
    if b >= a {
      assert (t - ta) * (b - a) >= 0.0 && (tb - t) * (b - a) >= 0.0;
    } else {
      assert (t - ta) * (b - a) <= 0.0 && (tb - t) * (b - a) <= 0.0;
    }
  }

  /** The sign of a product. */
  lemma MulSigns(x: real, y: real)
    ensures x * y > 0.0 <==> (x > 0.0 && y > 0.0) || (x < 0.0 && y < 0.0)
  {
  }

  /** An affine function positive at ta and zero at tb is positive on the
      whole half-open stretch from ta up to tb. */
  lemma AffineBeforeZero(a: real, b: real, ta: real, tb: real, t: real)
    requires Affine(a, b, ta) > 0.0 && Affine(a, b, tb) == 0.0
    requires ta <= t < tb || tb < t <= ta
    ensures Affine(a, b, t) > 0.0
  {
    assert Affine(a, b, ta) == (ta - tb) * (b - a);
    assert Affine(a, b, t) == (t - tb) * (b - a);
    MulSigns(ta - tb, b - a);
    MulSigns(t - tb, b - a);
  }

  /** One coordinate of LerpCompose. */
  lemma AffineCompose(a: real, d: real, t1: real, t2: real, s: real)
    ensures (a + t1 * d) + s * ((a + t2 * d) - (a + t1 * d)) == a + (t1 + s * (t2 - t1)) * d
  {
    assert (a + t2 * d) - (a + t1 * d) == (t2 - t1) * d;
    assert s * ((t2 - t1) * d) == (s * (t2 - t1)) * d;
    assert (t1 + s * (t2 - t1)) * d == t1 * d + (s * (t2 - t1)) * d;
  }

  /** Composing two parameterisations of the same line. */
  lemma LerpCompose(p0: Point2D, q0: Point2D, t1: real, t2: real, s: real)
    ensures Lerp(Lerp(p0, q0, t1), Lerp(p0, q0, t2), s) == Lerp(p0, q0, t1 + s * (t2 - t1))
  {
    AffineCompose(p0.x, q0.x - p0.x, t1, t2, s);
    AffineCompose(p0.y, q0.y - p0.y, t1, t2, s);
  }

  /** The point where a clip step lands, computed as the source does: on
      the boundary chosen by Side, along the line through p and q, always
      measured from p. */
  function EdgePoint(w: Window, codeOut: bv4, p: Point2D, q: Point2D): (r: Point2D)
    requires Side(codeOut) == TOP || Side(codeOut) == BOTTOM ==> p.y != q.y
    requires Side(codeOut) == RIGHT || Side(codeOut) == LEFT ==> p.x != q.x
    ensures Side(codeOut) != INSIDE ==> Excess(w, Side(codeOut), r) == 0.0
  {
    if codeOut & TOP != 0 then Point2D(p.x + (q.x - p.x) * ((w.ymax - p.y) / (q.y - p.y)), w.ymax)
    else if codeOut & BOTTOM != 0 then Point2D(p.x + (q.x - p.x) * ((w.ymin - p.y) / (q.y - p.y)), w.ymin)
    else if codeOut & RIGHT != 0 then Point2D(w.xmax, p.y + (q.y - p.y) * ((w.xmax - p.x) / (q.x - p.x)))
    else if codeOut & LEFT != 0 then Point2D(w.xmin, p.y + (q.y - p.y) * ((w.xmin - p.x) / (q.x - p.x)))
    else Point2D(0.0, 0.0)
  }

  /** The parameter of the crossing with the boundary on `side` along the
      segment from p to q, the fraction the source's formula uses. */
  function CrossParam(w: Window, side: bv4, p: Point2D, q: Point2D): real
    requires side == TOP || side == BOTTOM ==> p.y != q.y
    requires side == RIGHT || side == LEFT ==> p.x != q.x
  {
    if side == TOP then (w.ymax - p.y) / (q.y - p.y)
    else if side == BOTTOM then (w.ymin - p.y) / (q.y - p.y)
    else if side == RIGHT then (w.xmax - p.x) / (q.x - p.x)
    else if side == LEFT then (w.xmin - p.x) / (q.x - p.x)
    else 0.0
  }

  /** s = n / d lies in [0, 1] when n lies between 0 and d. */
  lemma FractionUnit(n: real, d: real)
    requires d != 0.0 && (0.0 <= n <= d || d <= n <= 0.0)
    ensures 0.0 <= n / d <= 1.0
  {
    var s := n / d;
    assert s * d == n;
    assert (s - 1.0) * d == n - d;
    MulSigns(s, d);
    MulSigns(s - 1.0, d);
    MulSigns(-s, d);
    MulSigns(1.0 - s, d);
    assert (-s) * d == -n && (1.0 - s) * d == d - n;
  }

  /** The source's formula for a crossing with the horizontal line
      y = bound lying between the endpoints: the point at parameter
      (bound - p.y) / (q.y - p.y), in [0, 1], from p toward q. */
  lemma CrossHorizontal(p: Point2D, q: Point2D, bound: real)
    requires p.y <= bound <= q.y || q.y <= bound <= p.y
    requires p.y != q.y
    ensures 0.0 <= (bound - p.y) / (q.y - p.y) <= 1.0
    ensures Lerp(p, q, (bound - p.y) / (q.y - p.y)) == Point2D(p.x + (q.x - p.x) * ((bound - p.y) / (q.y - p.y)), bound)
  {
    FractionUnit(bound - p.y, q.y - p.y);
  }

  /** The source's formula for a crossing with the vertical line x = bound
      lying between the endpoints: the point at parameter
      (bound - p.x) / (q.x - p.x), in [0, 1], from p toward q. */
  lemma CrossVertical(p: Point2D, q: Point2D, bound: real)
    requires p.x <= bound <= q.x || q.x <= bound <= p.x
    requires p.x != q.x
    ensures 0.0 <= (bound - p.x) / (q.x - p.x) <= 1.0
    ensures Lerp(p, q, (bound - p.x) / (q.x - p.x)) == Point2D(bound, p.y + (q.y - p.y) * ((bound - p.x) / (q.x - p.x)))
  {
    FractionUnit(bound - p.x, q.x - p.x);
  }

  lemma EdgeTop(w: Window, codeOut: bv4, p: Point2D, q: Point2D)
    requires Side(codeOut) == TOP && (p.y > w.ymax) != (q.y > w.ymax)
    ensures p.y != q.y && 0.0 <= CrossParam(w, TOP, p, q) <= 1.0
    ensures EdgePoint(w, codeOut, p, q) == Lerp(p, q, CrossParam(w, TOP, p, q))
  {
    CrossHorizontal(p, q, w.ymax);
  }

  lemma EdgeBottom(w: Window, codeOut: bv4, p: Point2D, q: Point2D)
    requires Side(codeOut) == BOTTOM && (p.y < w.ymin) != (q.y < w.ymin)
    ensures p.y != q.y && 0.0 <= CrossParam(w, BOTTOM, p, q) <= 1.0
    ensures EdgePoint(w, codeOut, p, q) == Lerp(p, q, CrossParam(w, BOTTOM, p, q))
  {
    CrossHorizontal(p, q, w.ymin);
  }

  lemma EdgeRight(w: Window, codeOut: bv4, p: Point2D, q: Point2D)
    requires Side(codeOut) == RIGHT && (p.x > w.xmax) != (q.x > w.xmax)
    ensures p.x != q.x && 0.0 <= CrossParam(w, RIGHT, p, q) <= 1.0
    ensures EdgePoint(w, codeOut, p, q) == Lerp(p, q, CrossParam(w, RIGHT, p, q))
  {
    CrossVertical(p, q, w.xmax);
  }

  lemma EdgeLeft(w: Window, codeOut: bv4, p: Point2D, q: Point2D)
    requires Side(codeOut) == LEFT && (p.x < w.xmin) != (q.x < w.xmin)
    ensures p.x != q.x && 0.0 <= CrossParam(w, LEFT, p, q) <= 1.0
    ensures EdgePoint(w, codeOut, p, q) == Lerp(p, q, CrossParam(w, LEFT, p, q))
  {
    CrossVertical(p, q, w.xmin);
  }

  /** When exactly one endpoint lies beyond the chosen boundary, the clip
      step's point is the crossing of the segment with that boundary: it
      lies on the segment at a parameter in [0, 1]. */
  lemma EdgePointOnSegment(w: Window, codeOut: bv4, p: Point2D, q: Point2D)
    requires codeOut != INSIDE
    requires (Excess(w, Side(codeOut), p) > 0.0) != (Excess(w, Side(codeOut), q) > 0.0)
    ensures Side(codeOut) == TOP || Side(codeOut) == BOTTOM ==> p.y != q.y
    ensures Side(codeOut) == RIGHT || Side(codeOut) == LEFT ==> p.x != q.x
    ensures 0.0 <= CrossParam(w, Side(codeOut), p, q) <= 1.0
    ensures EdgePoint(w, codeOut, p, q) == Lerp(p, q, CrossParam(w, Side(codeOut), p, q))
  {
    var side := Side(codeOut);
    if side == TOP {
      EdgeTop(w, codeOut, p, q);
    } else if side == BOTTOM {
      EdgeBottom(w, codeOut, p, q);
    } else if side == RIGHT {
      EdgeRight(w, codeOut, p, q);
    } else {
      EdgeLeft(w, codeOut, p, q);
    }
  }

  /** The point at parameter t is, coordinate by coordinate, affine in t. */
  lemma LerpAffine(p: Point2D, q: Point2D, t: real)
    ensures Lerp(p, q, t) == Point2D(Affine(p.x, q.x, t), Affine(p.y, q.y, t))
  {
  }

  /** A point beyond one boundary is outside the window. */
  lemma ExcessOutside(w: Window, side: bv4, p: Point2D)
    requires IsSide(side) && Excess(w, side, p) > 0.0
    ensures !IsPointInClipWindow(w, p)
  {
  }

  /** The number of outcode bits set: the measure of the clipping loop. */
  function Bits(code: bv4): nat {
    (if code & LEFT != 0 then 1 else 0) + (if code & RIGHT != 0 then 1 else 0)
    + (if code & BOTTOM != 0 then 1 else 0) + (if code & TOP != 0 then 1 else 0)
  }

  /** Dropping a bit from a set of outcode bits lowers the count. */
  lemma BitsShrink(a: bv4, u: bv4, side: bv4)
    requires a & u == a && a & side == 0 && u & side != 0 && IsSide(side)
    ensures Bits(a) < Bits(u)
  {
  }

  /** Bits of a code made of bits that are all in u lie in u. */
  lemma BitsWithin(a: bv4, u: bv4)
    requires a & LEFT != 0 ==> u & LEFT != 0
    requires a & RIGHT != 0 ==> u & RIGHT != 0
    requires a & BOTTOM != 0 ==> u & BOTTOM != 0
    requires a & TOP != 0 ==> u & TOP != 0
    ensures a & u == a
  {
  }

  /** A point of the segment between p and q is beyond a boundary only if
      one of the endpoints is. */
  lemma CodeBetween(w: Window, p: Point2D, q: Point2D, s: real, side: bv4)
    requires w.Valid() && IsSide(side) && 0.0 <= s <= 1.0
    ensures (ComputeCode(w, Lerp(p, q, s)) & side != 0) ==> (ComputeCode(w, p) & side != 0) || (ComputeCode(w, q) & side != 0)
  {
    ExcessLerp(w, side, p, q, s);
    AffineBetween(Excess(w, side, p), Excess(w, side, q), 0.0, s, 1.0);
    CodeExcess(w, p, side);
    CodeExcess(w, q, side);
    CodeExcess(w, Lerp(p, q, s), side);
  }

  /** A crossing point e = Lerp(p, q, s) on the boundary `side` has an
      outcode made of bits of the endpoints' codes, without `side`. */
  lemma CrossingCode(w: Window, p: Point2D, q: Point2D, s: real, side: bv4)
    requires w.Valid() && IsSide(side) && 0.0 <= s <= 1.0
    requires Excess(w, side, Lerp(p, q, s)) == 0.0
    ensures var c := ComputeCode(w, Lerp(p, q, s));
      c & (ComputeCode(w, p) | ComputeCode(w, q)) == c && c & side == 0
  {
    var u := ComputeCode(w, p) | ComputeCode(w, q);
    CodeBetween(w, p, q, s, LEFT);
    CodeBetween(w, p, q, s, RIGHT);
    CodeBetween(w, p, q, s, BOTTOM);
    CodeBetween(w, p, q, s, TOP);
    BitsWithin(ComputeCode(w, Lerp(p, q, s)), u);
    CodeExcess(w, Lerp(p, q, s), side);
  }

  /** The state of the clipping loop: the current endpoints p and q are
      the points at parameters t1 <= t2 of the original segment p0 q0, and
      every point of the original segment outside [t1, t2] lies outside the
      window. */
  ghost predicate Clipped(w: Window, p0: Point2D, q0: Point2D, p: Point2D, q: Point2D, t1: real, t2: real) {
    && 0.0 <= t1 <= t2 <= 1.0
    && p == Lerp(p0, q0, t1) && q == Lerp(p0, q0, t2)
    && forall t :: 0.0 <= t <= 1.0 && (t < t1 || t2 < t) ==> !IsPointInClipWindow(w, Lerp(p0, q0, t))
  }

  /** The parameter on the original segment of the point at parameter s of
      its piece between parameters t1 and t2. */
  function Within(t1: real, t2: real, s: real): real {
    t1 + s * (t2 - t1)
  }

  /** The codes of the two endpoints decide the segment at once: both
      inside the window, or both beyond one boundary. */
  predicate Trivial(w: Window, p1: Point2D, p2: Point2D) {
    ComputeCode(w, p1) | ComputeCode(w, p2) == INSIDE || ComputeCode(w, p1) & ComputeCode(w, p2) != INSIDE
  }

  /** The invariant of the clipping loop on the segment p1 p2: the current
      state is Clipped, and a trivially decided segment is never moved. */
  ghost predicate ClipState(w: Window, p1: Point2D, p2: Point2D, q1: Point2D, q2: Point2D, t1: real, t2: real) {
    Clipped(w, p1, p2, q1, q2, t1, t2) && (Trivial(w, p1, p2) ==> q1 == p1 && q2 == p2)
  }

  /** s * d lies between 0 and d for s in [0, 1] and d >= 0. */
  lemma ScaleUnit(s: real, d: real)
    requires 0.0 <= s <= 1.0 && 0.0 <= d
    ensures 0.0 <= s * d <= d
  {
    assert d - s * d == (1.0 - s) * d;
  }

  /** A point between the current endpoints, which are points of the
      original segment, is a point of the original segment between them. */
  lemma BetweenOnOriginal(p0: Point2D, q0: Point2D, t1: real, t2: real, s: real)
    requires t1 <= t2 && 0.0 <= s <= 1.0
    ensures t1 <= Within(t1, t2, s) <= t2
    ensures Lerp(Lerp(p0, q0, t1), Lerp(p0, q0, t2), s) == Lerp(p0, q0, Within(t1, t2, s))
  {
    ScaleUnit(s, t2 - t1);
    LerpCompose(p0, q0, t1, t2, s);
  }

  /** The points of the original segment strictly before the crossing at
      tn, from the endpoint at ta on, lie beyond the boundary `side`. */
  lemma DiscardedOutside(w: Window, p0: Point2D, q0: Point2D, side: bv4, ta: real, tn: real, t: real)
    requires IsSide(side)
    requires Excess(w, side, Lerp(p0, q0, ta)) > 0.0 && Excess(w, side, Lerp(p0, q0, tn)) == 0.0
    requires ta <= t < tn || tn < t <= ta
    ensures !IsPointInClipWindow(w, Lerp(p0, q0, t))
  {
    var a, b := Excess(w, side, p0), Excess(w, side, q0);
    ExcessLerp(w, side, p0, q0, ta);
    ExcessLerp(w, side, p0, q0, tn);
    ExcessLerp(w, side, p0, q0, t);
    AffineBeforeZero(a, b, ta, tn, t);
    ExcessOutside(w, side, Lerp(p0, q0, t));
  }

  /** One clip step, in terms of its parameter s and point e: moving the
      endpoint at ta (p or q, the one beyond `side`) to the crossing
      e = Lerp(p, q, s) with that boundary keeps the loop state, now with
      the range [u1, u2], and removes a bit from the union of the codes. */
  lemma ClipStep(w: Window, p0: Point2D, q0: Point2D, p: Point2D, q: Point2D, t1: real, t2: real,
                 side: bv4, s: real, e: Point2D, first: bool)
    requires w.Valid() && Clipped(w, p0, q0, p, q, t1, t2) && IsSide(side)
    requires if first then Excess(w, side, p) > 0.0 && Excess(w, side, q) <= 0.0
             else Excess(w, side, q) > 0.0 && Excess(w, side, p) <= 0.0
    requires 0.0 <= s <= 1.0 && e == Lerp(p, q, s) && Excess(w, side, e) == 0.0
    ensures first ==> Clipped(w, p0, q0, e, q, Within(t1, t2, s), t2)
    ensures !first ==> Clipped(w, p0, q0, p, e, t1, Within(t1, t2, s))
    ensures first ==> Bits(ComputeCode(w, e) | ComputeCode(w, q)) < Bits(ComputeCode(w, p) | ComputeCode(w, q))
    ensures !first ==> Bits(ComputeCode(w, p) | ComputeCode(w, e)) < Bits(ComputeCode(w, p) | ComputeCode(w, q))
  {
    var c1, c2 := ComputeCode(w, p), ComputeCode(w, q);
    BetweenOnOriginal(p0, q0, t1, t2, s);
    var tn := Within(t1, t2, s);
    if first {
      KeepClipped(w, p0, q0, side, t1, t2, t1, tn, tn, t2);
    } else {
      KeepClipped(w, p0, q0, side, t1, t2, t2, tn, t1, tn);
    }
    CodeExcess(w, p, side);
    CodeExcess(w, q, side);
    CrossingCode(w, p, q, s, side);
    if first {
      BitsShrink(ComputeCode(w, e) | c2, c1 | c2, side);
    } else {
      BitsShrink(c1 | ComputeCode(w, e), c1 | c2, side);
    }
  }

  /** One clip step that replaces the first endpoint, whose code is not
      INSIDE, keeps the loop state and removes a bit from the union of
      the codes. */
  lemma ClipFirst(w: Window, p0: Point2D, q0: Point2D, p: Point2D, q: Point2D, t1: real, t2: real)
    requires w.Valid() && ClipState(w, p0, q0, p, q, t1, t2)
    requires ComputeCode(w, p) != INSIDE && ComputeCode(w, p) & ComputeCode(w, q) == INSIDE
    ensures Side(ComputeCode(w, p)) == TOP || Side(ComputeCode(w, p)) == BOTTOM ==> p.y != q.y
    ensures Side(ComputeCode(w, p)) == RIGHT || Side(ComputeCode(w, p)) == LEFT ==> p.x != q.x
    ensures ClipState(w, p0, q0, EdgePoint(w, ComputeCode(w, p), p, q), q,
                    Within(t1, t2, CrossParam(w, Side(ComputeCode(w, p)), p, q)), t2)
    ensures Bits(ComputeCode(w, EdgePoint(w, ComputeCode(w, p), p, q)) | ComputeCode(w, q))
          < Bits(ComputeCode(w, p) | ComputeCode(w, q))
  {
    assert ComputeCode(w, q) & Side(ComputeCode(w, p)) == 0;
    CodeExcess(w, p, Side(ComputeCode(w, p)));
    CodeExcess(w, q, Side(ComputeCode(w, p)));
    EdgePointOnSegment(w, ComputeCode(w, p), p, q);
    ClipStep(w, p0, q0, p, q, t1, t2, Side(ComputeCode(w, p)), CrossParam(w, Side(ComputeCode(w, p)), p, q),
             EdgePoint(w, ComputeCode(w, p), p, q), true);
  }

  /** One clip step that replaces the second endpoint, when the first one
      is inside, keeps the loop state and removes a bit from the union of
      the codes. */
  lemma ClipSecond(w: Window, p0: Point2D, q0: Point2D, p: Point2D, q: Point2D, t1: real, t2: real)
    requires w.Valid() && ClipState(w, p0, q0, p, q, t1, t2)
    requires ComputeCode(w, p) == INSIDE && ComputeCode(w, q) != INSIDE
    ensures Side(ComputeCode(w, q)) == TOP || Side(ComputeCode(w, q)) == BOTTOM ==> p.y != q.y
    ensures Side(ComputeCode(w, q)) == RIGHT || Side(ComputeCode(w, q)) == LEFT ==> p.x != q.x
    ensures ClipState(w, p0, q0, p, EdgePoint(w, ComputeCode(w, q), p, q),
                    t1, Within(t1, t2, CrossParam(w, Side(ComputeCode(w, q)), p, q)))
    ensures Bits(ComputeCode(w, p) | ComputeCode(w, EdgePoint(w, ComputeCode(w, q), p, q)))
          < Bits(ComputeCode(w, p) | ComputeCode(w, q))
  {
    CodeExcess(w, p, Side(ComputeCode(w, q)));
    CodeExcess(w, q, Side(ComputeCode(w, q)));
    EdgePointOnSegment(w, ComputeCode(w, q), p, q);
    ClipStep(w, p0, q0, p, q, t1, t2, Side(ComputeCode(w, q)), CrossParam(w, Side(ComputeCode(w, q)), p, q),
             EdgePoint(w, ComputeCode(w, q), p, q), false);
  }

  /** Moving one end of [t1, t2] to a crossing tn with the boundary `side`
      keeps every point outside the new range outside the window: the
      stretch between the old end ta (beyond `side`) and tn is beyond it.
      The new range is [u1, u2]. */
  lemma KeepClipped(w: Window, p0: Point2D, q0: Point2D, side: bv4, t1: real, t2: real, ta: real, tn: real, u1: real, u2: real)
    requires IsSide(side)
    requires forall t :: 0.0 <= t <= 1.0 && (t < t1 || t2 < t) ==> !IsPointInClipWindow(w, Lerp(p0, q0, t))
    requires t1 <= tn <= t2
    requires (ta == t1 && u1 == tn && u2 == t2) || (ta == t2 && u1 == t1 && u2 == tn)
    requires Excess(w, side, Lerp(p0, q0, ta)) > 0.0 && Excess(w, side, Lerp(p0, q0, tn)) == 0.0
    ensures forall t :: 0.0 <= t <= 1.0 && (t < u1 || u2 < t) ==> !IsPointInClipWindow(w, Lerp(p0, q0, t))
  {
    forall t | 0.0 <= t <= 1.0 && (t < u1 || u2 < t)
      ensures !IsPointInClipWindow(w, Lerp(p0, q0, t))
    {
      if t1 <= t <= t2 {
        DiscardedOutside(w, p0, q0, side, ta, tn, t);
      }
    }
  }

  /** The window is convex: the stretch of a segment between two points
      inside it lies inside it. */
  lemma SegmentInside(w: Window, p0: Point2D, q0: Point2D, t1: real, t2: real)
    requires IsPointInClipWindow(w, Lerp(p0, q0, t1)) && IsPointInClipWindow(w, Lerp(p0, q0, t2))
    ensures forall t :: t1 <= t <= t2 ==> IsPointInClipWindow(w, Lerp(p0, q0, t))
  {
    forall t | t1 <= t <= t2
      ensures IsPointInClipWindow(w, Lerp(p0, q0, t))
    {
      LerpAffine(p0, q0, t1);
      LerpAffine(p0, q0, t2);
      LerpAffine(p0, q0, t);
      AffineBetween(p0.x, q0.x, t1, t, t2);
      AffineBetween(p0.y, q0.y, t1, t, t2);
    }
  }

  /** The stretch of a segment between two points beyond the same boundary
      lies beyond it, so outside the window. */
  lemma SegmentBeyond(w: Window, p0: Point2D, q0: Point2D, t1: real, t2: real, side: bv4)
    requires IsSide(side)
    requires Excess(w, side, Lerp(p0, q0, t1)) > 0.0 && Excess(w, side, Lerp(p0, q0, t2)) > 0.0
    ensures forall t :: t1 <= t <= t2 ==> !IsPointInClipWindow(w, Lerp(p0, q0, t))
  {
    forall t | t1 <= t <= t2
      ensures !IsPointInClipWindow(w, Lerp(p0, q0, t))
    {
      var a, b := Excess(w, side, p0), Excess(w, side, q0);
      ExcessLerp(w, side, p0, q0, t1);
      ExcessLerp(w, side, p0, q0, t2);
      ExcessLerp(w, side, p0, q0, t);
      AffineBetween(a, b, t1, t, t2);
      ExcessOutside(w, side, Lerp(p0, q0, t));
    }
  }

  /** The ends of the parameterisation. */
  lemma LerpEnds(p: Point2D, q: Point2D)
    ensures Lerp(p, q, 0.0) == p && Lerp(p, q, 1.0) == q
  {
  }

  /** The loop starts from the whole segment, parameters 0 and 1. */
  lemma ClipStart(w: Window, p1: Point2D, p2: Point2D)
    ensures ClipState(w, p1, p2, p1, p2, 0.0, 1.0)
  {
    LerpEnds(p1, p2);
  }

  /** The loop ends in acceptance when both current endpoints are inside:
      the whole range [t1, t2] is then inside, and the segment was not one
      that is trivially rejected. */
  lemma Accepted(w: Window, p1: Point2D, p2: Point2D, q1: Point2D, q2: Point2D, t1: real, t2: real)
    requires ClipState(w, p1, p2, q1, q2, t1, t2)
    requires ComputeCode(w, q1) | ComputeCode(w, q2) == INSIDE
    ensures IsPointInClipWindow(w, q1) && IsPointInClipWindow(w, q2)
    ensures forall t :: t1 <= t <= t2 ==> IsPointInClipWindow(w, Lerp(p1, p2, t))
    ensures ComputeCode(w, p1) | ComputeCode(w, p2) == INSIDE ==> q1 == p1 && q2 == p2
    ensures ComputeCode(w, p1) & ComputeCode(w, p2) == INSIDE
  {
    SegmentInside(w, p1, p2, t1, t2);
  }

  /** The loop ends in rejection when both current endpoints are beyond the
      same boundary: no point of the original segment is then inside, and
      the segment was not one that is trivially accepted. */
  lemma Rejected(w: Window, p1: Point2D, p2: Point2D, q1: Point2D, q2: Point2D, t1: real, t2: real)
    requires w.Valid() && ClipState(w, p1, p2, q1, q2, t1, t2)
    requires ComputeCode(w, q1) & ComputeCode(w, q2) != INSIDE
    ensures forall t :: 0.0 <= t <= 1.0 ==> !IsPointInClipWindow(w, Lerp(p1, p2, t))
    ensures ComputeCode(w, p1) & ComputeCode(w, p2) != INSIDE ==> q1 == p1 && q2 == p2
    ensures ComputeCode(w, p1) | ComputeCode(w, p2) != INSIDE
  {
    var side := Side(ComputeCode(w, q1) & ComputeCode(w, q2));
    CodeExcess(w, q1, side);
    CodeExcess(w, q2, side);
    SegmentBeyond(w, p1, p2, t1, t2, side);
  }

  /** cohenSutherlandClip: clips the segment p1 p2 to the window. The
      result is accept together with the clipped endpoints; the ghost t1
      and t2 locate them on the original segment. The clipped segment is
      exactly the part of the original that lies in the window, and a
      rejected segment has no point in it. Segments trivially accepted or
      rejected come back unchanged. */
  method CohenSutherlandClip(w: Window, p1: Point2D, p2: Point2D)
    returns (accept: bool, q1: Point2D, q2: Point2D, ghost t1: real, ghost t2: real)
    requires w.Valid()
    ensures Clipped(w, p1, p2, q1, q2, t1, t2)
    ensures accept ==> IsPointInClipWindow(w, q1) && IsPointInClipWindow(w, q2)
    ensures accept ==> forall t :: t1 <= t <= t2 ==> IsPointInClipWindow(w, Lerp(p1, p2, t))
    ensures !accept ==> forall t :: 0.0 <= t <= 1.0 ==> !IsPointInClipWindow(w, Lerp(p1, p2, t))
    ensures ComputeCode(w, p1) | ComputeCode(w, p2) == INSIDE ==> accept && q1 == p1 && q2 == p2
    ensures ComputeCode(w, p1) & ComputeCode(w, p2) != INSIDE ==> !accept && q1 == p1 && q2 == p2
  {
    var code1, code2 := ComputeCode(w, p1), ComputeCode(w, p2);
    accept := false;
    q1, q2, t1, t2 := p1, p2, 0.0, 1.0;
    ClipStart(w, p1, p2);
    while true
      invariant code1 == ComputeCode(w, q1) && code2 == ComputeCode(w, q2)
      invariant ClipState(w, p1, p2, q1, q2, t1, t2)
      decreases Bits(code1 | code2)
    {
      if code1 | code2 == INSIDE {
        Accepted(w, p1, p2, q1, q2, t1, t2);
        accept := true;
        break;
      } else if code1 & code2 != INSIDE {
        Rejected(w, p1, p2, q1, q2, t1, t2);
        break;
      } else {
        var codeOut := if code1 != INSIDE then code1 else code2;
        if code1 != INSIDE {
          ClipFirst(w, p1, p2, q1, q2, t1, t2);
        } else {
          ClipSecond(w, p1, p2, q1, q2, t1, t2);
        }
        var e := EdgePoint(w, codeOut, q1, q2);
        ghost var tn := Within(t1, t2, CrossParam(w, Side(codeOut), q1, q2));
        if codeOut == code1 {
          q1 := e;
          code1 := ComputeCode(w, q1);
          t1 := tn;
        } else {
          q2 := e;
          code2 := ComputeCode(w, q2);
          t2 := tn;
        }
      }
    }
  }
}
