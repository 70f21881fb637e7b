/** The two line rasterizers of Lab2/main.cpp: the digital differential
    analyzer (DDA) and Bresenham's integer algorithm. */
module LineRaster {
  import opened Raster

  function Sign(n: int): int {
    if n > 0 then 1 else if n < 0 then -1 else 0
  }

  function Last<T>(s: seq<T>): T
    requires |s| > 0
  {
    s[|s| - 1]
  }

  // ---------------------------------------------------------------- DDA

  /** Number of unit steps the DDA takes: the larger of |dx| and |dy|. */
  function DdaSteps(x1: real, y1: real, x2: real, y2: real): real {
    Max(Abs(x2 - x1), Abs(y2 - y1))
  }

  /** The per-step increment along one axis. When both endpoints coincide
      the source divides 0 by 0, but that quotient is never used (the loop
      emits its single point before the first increment); the model uses 0. */
  function DdaIncrement(d: real, steps: real): real {
    if steps == 0.0 then 0.0 else d / steps
  }

  /** The unrounded position after k increments, in exact arithmetic. */
  function Sample(start: real, inc: real, k: int): real {
    start + k as real * inc
  }

  lemma SampleNext(start: real, inc: real, k: int)
    ensures Sample(start, inc, k + 1) == Sample(start, inc, k) + inc
  {
    assert (k + 1) as real * inc == k as real * inc + inc;
  }

  /** Reference definition of the DDA output: sample k is the start point
      moved k increments along the line, each coordinate rounded; there is
      one sample for every integer k with 0 <= k <= steps. */
  function DdaLine(x1: real, y1: real, x2: real, y2: real): seq<Point> {
    var steps := DdaSteps(x1, y1, x2, y2);
    var xInc := DdaIncrement(x2 - x1, steps);
    var yInc := DdaIncrement(y2 - y1, steps);
    seq(steps.Floor + 1, k => Point(Round(Sample(x1, xInc, k)), Round(Sample(y1, yInc, k))))
  }

  /** DDA(x1, y1, x2, y2): accumulates the increments in `x`, `y` and emits
      the rounded position for i = 0, 1, ... while i <= steps. */
  method Dda(x1: real, y1: real, x2: real, y2: real) returns (points: seq<Point>)
    ensures points == DdaLine(x1, y1, x2, y2)
  {
    var dx, dy := x2 - x1, y2 - y1;
    var steps := Max(Abs(dx), Abs(dy));
    var xInc, yInc := DdaIncrement(dx, steps), DdaIncrement(dy, steps);
    var x, y := x1, y1;
    ghost var line := DdaLine(x1, y1, x2, y2);
    points := [];
    var i := 0;
    while i as real <= steps
      invariant 0 <= i <= steps.Floor + 1
      invariant x == Sample(x1, xInc, i) && y == Sample(y1, yInc, i)
      invariant points == line[..i]
      decreases steps.Floor + 1 - i
    {
      assert line[i] == Point(Round(x), Round(y));
      points := points + [Point(Round(x), Round(y))];
      SampleNext(x1, xInc, i);
      SampleNext(y1, yInc, i);
      x, y := x + xInc, y + yInc;
      i := i + 1;
    }
  }

  /** Coincident endpoints give exactly one point, the rounded input. */
  lemma DdaCoincident(x: real, y: real)
    ensures DdaLine(x, y, x, y) == [Point(Round(x), Round(y))]
  {
    assert DdaSteps(x, y, x, y) == 0.0;
  }

  lemma IntegerSteps(x1: int, y1: int, x2: int, y2: int)
    ensures DdaSteps(x1 as real, y1 as real, x2 as real, y2 as real) == Imax(IAbs(x2 - x1), IAbs(y2 - y1)) as real
  {
  }

  /** n increments of d / n lead from a to a + d. */
  lemma FullRun(a: int, d: int, n: int)
    requires n > 0
    ensures Sample(a as real, DdaIncrement(d as real, n as real), n) == (a + d) as real
  {
    var inc := d as real / n as real;
    assert n as real * inc == d as real;
  }

  /** For integer endpoints the DDA emits max(|dx|, |dy|) + 1 points, starting
      exactly at the first endpoint and ending exactly at the second. */
  lemma {:induction false} DdaIntegerEndpoints(x1: int, y1: int, x2: int, y2: int)
    ensures |DdaLine(x1 as real, y1 as real, x2 as real, y2 as real)| == Imax(IAbs(x2 - x1), IAbs(y2 - y1)) + 1
    ensures DdaLine(x1 as real, y1 as real, x2 as real, y2 as real)[0] == Point(x1, y1)
    ensures Last(DdaLine(x1 as real, y1 as real, x2 as real, y2 as real)) == Point(x2, y2)
  {
    var n := Imax(IAbs(x2 - x1), IAbs(y2 - y1));
    IntegerSteps(x1, y1, x2, y2);
    RoundIntegral(x1);
    RoundIntegral(y1);
    if n > 0 {
      FullRun(x1, x2 - x1, n);
      FullRun(y1, y2 - y1, n);
      RoundIntegral(x2);
      RoundIntegral(y2);
    }
  }

  /** Along an axis whose increment is a whole unit s, samples are integral
      and so rounding leaves them in place: the rounded value moves by s. */
  lemma StepOnUnitAxis(a: int, k: int, s: int)
    ensures Round(Sample(a as real, s as real, k + 1)) - Round(Sample(a as real, s as real, k)) == s
  {
    assert Sample(a as real, s as real, k) == (a + k * s) as real;
    assert Sample(a as real, s as real, k + 1) == (a + k * s + s) as real;
    RoundIntegral(a + k * s);
    RoundIntegral(a + k * s + s);
  }

  /** On the dominant axis the increment is d / |d| = sign(d). */
  lemma MajorAxisStep(a: int, d: int, k: int)
    requires d != 0
    ensures var inc := DdaIncrement(d as real, IAbs(d) as real);
      Round(Sample(a as real, inc, k + 1)) - Round(Sample(a as real, inc, k)) == Sign(d)
  {
    assert DdaIncrement(d as real, IAbs(d) as real) == Sign(d) as real;
    StepOnUnitAxis(a, k, Sign(d));
  }

  /** On the other axis the increment d / n has magnitude at most one, so the
      rounded samples move by at most one unit. */
  lemma MinorAxisStep(a: int, k: int, d: int, n: int)
    requires n > 0 && IAbs(d) <= n
    ensures var inc := DdaIncrement(d as real, n as real);
      IAbs(Round(Sample(a as real, inc, k + 1)) - Round(Sample(a as real, inc, k))) <= 1
  {
    var inc := DdaIncrement(d as real, n as real);
    SampleNext(a as real, inc, k);
    if IAbs(d) == n {
      assert inc == Sign(d) as real;
      StepOnUnitAxis(a, k, Sign(d));
    } else {
      assert Abs(inc) < 1.0 by {
        assert Abs(inc) == IAbs(d) as real / n as real;
      }
      RoundClose(Sample(a as real, inc, k), Sample(a as real, inc, k + 1));
    }
  }

  /** For integer endpoints, consecutive DDA points advance by exactly one
      unit (in the direction of the line) along the dominant axis and by at
      most one unit along the other axis. */
  lemma {:induction false} DdaUnitStep(x1: int, y1: int, x2: int, y2: int, k: nat)
    requires k + 1 < |DdaLine(x1 as real, y1 as real, x2 as real, y2 as real)|
    ensures var line := DdaLine(x1 as real, y1 as real, x2 as real, y2 as real);
      if IAbs(x2 - x1) >= IAbs(y2 - y1) then
        line[k + 1].x - line[k].x == Sign(x2 - x1) && IAbs(line[k + 1].y - line[k].y) <= 1
      else
        line[k + 1].y - line[k].y == Sign(y2 - y1) && IAbs(line[k + 1].x - line[k].x) <= 1
  {
    var line := DdaLine(x1 as real, y1 as real, x2 as real, y2 as real);
    var n := Imax(IAbs(x2 - x1), IAbs(y2 - y1));
    IntegerSteps(x1, y1, x2, y2);
    var xInc := DdaIncrement((x2 - x1) as real, n as real);
    var yInc := DdaIncrement((y2 - y1) as real, n as real);
    assert line[k] == Point(Round(Sample(x1 as real, xInc, k)), Round(Sample(y1 as real, yInc, k)));
    assert line[k + 1] == Point(Round(Sample(x1 as real, xInc, k + 1)), Round(Sample(y1 as real, yInc, k + 1)));
    if IAbs(x2 - x1) >= IAbs(y2 - y1) {
      MajorAxisStep(x1, x2 - x1, k);
      MinorAxisStep(y1, k, y2 - y1, n);
    } else {
      MajorAxisStep(y1, y2 - y1, k);
      MinorAxisStep(x1, k, x2 - x1, n);
    }
  }

  // ---------------------------------------------------------- Bresenham

  /** Un-transposes a point of a steep line: the algorithm walks along its
      driving axis `u` and places the non-driving coordinate `v`. */
  function Place(steep: bool, u: int, v: int): Point {
    if steep then Point(v, u) else Point(u, v)
  }

  /** Endpoints after the two normalisations of the source: transpose when
      the line is steep (|dy| > |dx|), then swap so that u1 <= u2. */
  datatype Walk = Walk(steep: bool, u1: int, v1: int, u2: int, v2: int)
  {
    function Run(): int { u2 - u1 }
    function Rise(): int { IAbs(v2 - v1) }
    /** The non-driving coordinate after e steps; the source steps up when
        v2 > v1 and down otherwise. */
    function Row(e: int): int { if v2 > v1 then v1 + e else v1 - e }
  }

  function Normalise(x1: int, y1: int, x2: int, y2: int): (w: Walk)
    ensures w.u1 <= w.u2 && 0 <= w.Rise() <= w.Run()
    ensures w.Run() == Imax(IAbs(x2 - x1), IAbs(y2 - y1))
    ensures {Place(w.steep, w.u1, w.v1), Place(w.steep, w.u2, w.v2)} == {Point(x1, y1), Point(x2, y2)}
  {
    var steep := IAbs(y2 - y1) > IAbs(x2 - x1);
    var a1, b1, a2, b2 := if steep then y1 else x1, if steep then x1 else y1,
                          if steep then y2 else x2, if steep then x2 else y2;
    if a1 > a2 then Walk(steep, a2, b2, a1, b1) else Walk(steep, a1, b1, a2, b2)
  }

  /** The nearest row to the ideal line after k unit steps along the driving
      axis: rise * k / run rounded to nearest, halves rounded up. */
  function NearestRow(rise: int, run: int, k: int): int
    requires run >= 0 && k >= 0 && rise >= 0
  {
    if run == 0 then 0 else (2 * rise * k + run) / (2 * run)
  }

  /** Reference definition of Bresenham's output: one point per unit of the
      driving axis, the other coordinate on the nearest row of the ideal line. */
  function BresenhamLine(x1: int, y1: int, x2: int, y2: int): seq<Point> {
    WalkLine(Normalise(x1, y1, x2, y2))
  }

  function WalkLine(w: Walk): seq<Point>
    requires w.u1 <= w.u2
  {
    seq(w.Run() + 1, k requires 0 <= k => Place(w.steep, w.u1 + k, w.Row(NearestRow(w.Rise(), w.Run(), k))))
  }

  lemma MulLeft(d: int, a: int, b: int)
    requires d > 0 && a <= b
    ensures d * a <= d * b
  {
    assert d * b - d * a == d * (b - a);
  }

  /** Integer division is determined by the bracketing of its dividend. */
  lemma DivBracket(n: int, d: int, q: int)
    requires d > 0 && d * q <= n < d * q + d
    ensures n / d == q
  {
    var r := n / d;
    assert n == d * r + n % d;
    if r > q {
      MulLeft(d, q + 1, r);
      assert false;
    } else if r < q {
      MulLeft(d, r + 1, q);
      assert false;
    }
  }

  /** Adding at most d to the dividend raises the quotient by at most one. */
  lemma FloorStep(n: int, d: int, a: int)
    requires d > 0 && 0 <= a <= d
    ensures (n + a) / d == n / d || (n + a) / d == n / d + 1
  {
    var q := n / d;
    assert n == d * q + n % d;
    assert d * (q + 1) == d * q + d;
    if n + a < d * q + d {
      DivBracket(n + a, d, q);
    } else {
      DivBracket(n + a, d, q + 1);
    }
  }

  /** An error term in [-run, run) pins down the nearest row. */
  lemma RowFromError(run: int, rise: int, k: int, rows: int)
    requires 0 < run && 0 <= rise && 0 <= k
    requires -run <= 2 * rise * k - 2 * run * rows < run
    ensures NearestRow(rise, run, k) == rows
  {
    assert (2 * run) * rows == 2 * run * rows;
    DivBracket(2 * rise * k + run, 2 * run, rows);
  }

  /** The error term err = 2*rise*k - 2*run*rows of a walk that has made k
      steps and climbed `rows` rows: it stays in [-run, run), which makes
      `rows` the nearest row while the walk is within its run. */
  predicate Tracks(run: int, rise: int, k: int, rows: int, err: int) {
    && err == 2 * rise * k - 2 * run * rows
    && -run <= err && (err < run || run == 0)
    && (0 <= k <= run && 0 <= rise ==> rows == NearestRow(rise, run, k))
  }

  lemma TracksStart(run: int, rise: int)
    requires 0 <= rise <= run
    ensures Tracks(run, rise, 0, 0, 0)
  {
    if run > 0 {
      RowFromError(run, rise, 0, 0);
    }
  }

  /** One iteration of Bresenham's loop: the decision p = err + 2*rise - run
      chooses whether to climb so that the error stays in [-run, run). */
  lemma DecisionStep(run: int, rise: int, k: int, rows: int, err: int)
    requires 0 <= rise <= run && 0 <= k
    requires Tracks(run, rise, k, rows, err)
    ensures err + 2 * rise - run >= 0 ==> Tracks(run, rise, k + 1, rows + 1, err + 2 * rise - 2 * run)
    ensures err + 2 * rise - run < 0 ==> Tracks(run, rise, k + 1, rows, err + 2 * rise)
  {
    var inc := if err + 2 * rise - run >= 0 then 1 else 0;
    assert 2 * rise * (k + 1) - 2 * run * (rows + inc) == err + 2 * rise - 2 * run * inc;
    if k + 1 <= run {
      RowFromError(run, rise, k + 1, rows + inc);
    }
  }

  /** The state of Bresenham's loop after k steps of walk w: the points
      drawn are the first k of the reference line, y is the row climbed to,
      and err is the error term of Tracks. */
  ghost predicate Drawn(w: Walk, k: int, rows: int, y: int, err: int, points: seq<Point>)
    requires w.u1 <= w.u2
  {
    && 0 <= k <= w.Run() + 1
    && points == WalkLine(w)[..k]
    && y == w.Row(rows)
    && Tracks(w.Run(), w.Rise(), k, rows, err)
  }

  /** One iteration of Bresenham's loop, from the state before it (k0, rows0,
      y0, err0, points0) to the state after it: the drawn prefix grows by
      the reference point, and the decision err0 + 2*rise - run chooses the
      row so that the error term stays in range. */
  lemma DrawnStep(w: Walk, k0: int, rows0: int, y0: int, err0: int, points0: seq<Point>,
                  k: int, rows: int, y: int, err: int, points: seq<Point>)
    requires w.u1 <= w.u2 && w.Rise() <= w.Run()
    requires Drawn(w, k0, rows0, y0, err0, points0) && k0 <= w.Run()
    requires k == k0 + 1 && points == points0 + [Place(w.steep, w.u1 + k0, y0)]
    requires err0 + 2 * w.Rise() - w.Run() >= 0 ==>
      rows == rows0 + 1 && y == w.Row(rows0 + 1) && err == err0 + 2 * w.Rise() - 2 * w.Run()
    requires err0 + 2 * w.Rise() - w.Run() < 0 ==>
      rows == rows0 && y == y0 && err == err0 + 2 * w.Rise()
    ensures Drawn(w, k, rows, y, err, points)
  {
    var line := WalkLine(w);
    assert line[k0] == Place(w.steep, w.u1 + k0, y0);
    assert line[..k] == points0 + [line[k0]];
    DecisionStep(w.Run(), w.Rise(), k0, rows0, err0);
  }

  /** Bresenham(x1, y1, x2, y2) on integer endpoints: walks x from x1 to x2
      (after normalisation), emitting the un-transposed point, and steps the
      non-driving coordinate when the decision variable p is non-negative.
      The decision variable is the error term of the walk shifted by
      2*dy - dx; the error stays in [-dx, dx), which is what makes every
      emitted row the nearest one. */
  method Bresenham(x1: int, y1: int, x2: int, y2: int) returns (points: seq<Point>)
    ensures points == BresenhamLine(x1, y1, x2, y2)
  {
    var dx, dy := IAbs(x2 - x1), IAbs(y2 - y1);
    var steep := dy > dx;
    var a1, b1, a2, b2 := x1, y1, x2, y2;
    if steep {
      a1, b1, a2, b2, dx, dy := b1, a1, b2, a2, dy, dx;
    }
    if a1 > a2 {
      a1, a2 := a2, a1;
      b1, b2 := b2, b1;
    }
    ghost var w := Walk(steep, a1, b1, a2, b2);
    assert w == Normalise(x1, y1, x2, y2);
    assert dx == w.Run() && dy == w.Rise();
    var y, p := b1, 2 * dy - dx;
    ghost var k, rows := 0, 0;
    TracksStart(dx, dy);
    var x := a1;
    points := [];
    while x <= a2
      invariant a1 <= x <= a2 + 1 && k == x - a1
      invariant Drawn(w, k, rows, y, p - 2 * dy + dx, points)
    {
      ghost var k0, rows0, y0, err0, points0 := k, rows, y, p - 2 * dy + dx, points;
      points := points + [if steep then Point(y, x) else Point(x, y)];
      if p >= 0 {
        y, p := y + (if b2 > b1 then 1 else -1), p - 2 * dx;
        rows := rows + 1;
      }
      p := p + 2 * dy;
      x, k := x + 1, k + 1;
      DrawnStep(w, k0, rows0, y0, err0, points0, k, rows, y, p - 2 * dy + dx, points);
    }
  }

  /** After the whole run the walk has climbed exactly `rise` rows. */
  lemma FullRise(run: int, rise: int)
    requires 0 <= rise <= run && 0 < run
    ensures NearestRow(rise, run, run) == rise
  {
    assert 2 * rise * run - 2 * run * rise == 0;
    RowFromError(run, rise, run, rise);
  }

  lemma WalkEnds(w: Walk)
    requires w.u1 <= w.u2 && w.Rise() <= w.Run()
    ensures |WalkLine(w)| == w.Run() + 1
    ensures WalkLine(w)[0] == Place(w.steep, w.u1, w.v1)
    ensures Last(WalkLine(w)) == Place(w.steep, w.u2, w.v2)
  {
    if w.Run() > 0 {
      RowFromError(w.Run(), w.Rise(), 0, 0);
      FullRise(w.Run(), w.Rise());
    }
    assert w.Row(w.Rise()) == w.v2;
  }

  /** The line has max(|dx|, |dy|) + 1 points; its first and last points are
      the two endpoints (in walking order). */
  lemma BresenhamEndpoints(x1: int, y1: int, x2: int, y2: int)
    ensures var line := BresenhamLine(x1, y1, x2, y2);
      && |line| == Imax(IAbs(x2 - x1), IAbs(y2 - y1)) + 1
      && {line[0], Last(line)} == {Point(x1, y1), Point(x2, y2)}
  {
    WalkEnds(Normalise(x1, y1, x2, y2));
  }

  /** Each point lies within half a pixel of the ideal line: point k sits
      k units along the driving axis, and its row offset e satisfies
      -run <= 2*rise*k - 2*run*e <= run, i.e. |e - rise*k/run| <= 1/2. */
  lemma BresenhamNearLine(x1: int, y1: int, x2: int, y2: int, k: nat)
    requires k < |BresenhamLine(x1, y1, x2, y2)|
    ensures var w := Normalise(x1, y1, x2, y2);
      var e := NearestRow(w.Rise(), w.Run(), k);
      && BresenhamLine(x1, y1, x2, y2)[k] == Place(w.steep, w.u1 + k, w.Row(e))
      && -w.Run() <= 2 * w.Rise() * k - 2 * w.Run() * e <= w.Run()
  {
    var w := Normalise(x1, y1, x2, y2);
    if w.Run() > 0 {
      NearestRowError(w.Rise(), w.Run(), k);
    }
  }

  lemma NearestRowError(rise: int, run: int, k: int)
    requires 0 < run && 0 <= rise && 0 <= k
    ensures var e := NearestRow(rise, run, k);
      -run <= 2 * rise * k - 2 * run * e <= run
  {
    var n, d := 2 * rise * k + run, 2 * run;
    var e := n / d;
    assert n == d * e + n % d;
    assert d * e == 2 * run * e;
  }

  /** Consecutive points advance the driving coordinate by exactly one; the
      other coordinate stays or moves one row in the walk's direction. */
  lemma BresenhamUnitStep(x1: int, y1: int, x2: int, y2: int, k: nat)
    requires k + 1 < |BresenhamLine(x1, y1, x2, y2)|
    ensures var w := Normalise(x1, y1, x2, y2);
      var line := BresenhamLine(x1, y1, x2, y2);
      var row, next := NearestRow(w.Rise(), w.Run(), k), NearestRow(w.Rise(), w.Run(), k + 1);
      && (next == row || next == row + 1)
      && line[k] == Place(w.steep, w.u1 + k, w.Row(row))
      && line[k + 1] == Place(w.steep, w.u1 + k + 1, w.Row(next))
  {
    var w := Normalise(x1, y1, x2, y2);
    var n := 2 * w.Rise() * k + w.Run();
    assert 2 * w.Rise() * (k + 1) + w.Run() == n + 2 * w.Rise();
    FloorStep(n, 2 * w.Run(), 2 * w.Rise());
  }

  lemma FlatRow(run: int, k: int)
    requires run > 0 && k >= 0
    ensures NearestRow(0, run, k) == 0
  {
    DivBracket(run, 2 * run, 0);
  }

  lemma HorizontalWalk(w: Walk)
    requires w == Walk(false, 0, 0, 5, 0)
    ensures WalkLine(w) == [Point(0, 0), Point(1, 0), Point(2, 0), Point(3, 0), Point(4, 0), Point(5, 0)]
  {
    var line := WalkLine(w);
    forall k | 0 <= k < 6 ensures line[k] == Point(k, 0) {
      FlatRow(5, k);
    }
  }

  /** Bresenham(0, 0, 5, 0) is the horizontal run (0,0), (1,0), ..., (5,0). */
  lemma BresenhamHorizontalRun()
    ensures BresenhamLine(0, 0, 5, 0) == [Point(0, 0), Point(1, 0), Point(2, 0), Point(3, 0), Point(4, 0), Point(5, 0)]
  {
    var w := Walk(false, 0, 0, 5, 0);
    assert Normalise(0, 0, 5, 0) == w;
    HorizontalWalk(w);
  }

  /** Coincident endpoints give exactly one point, the input. */
  lemma BresenhamCoincident(x: int, y: int)
    ensures BresenhamLine(x, y, x, y) == [Point(x, y)]
  {
  }
}
