/** Shared vocabulary of the scan-conversion routines of Lab2/main.cpp:
    a pixel position, absolute value, maximum and C++'s `round`. */
module Raster {

  /** A rasterized pixel. The source stores floats, but every coordinate the
      rasterizers emit is integral (a rounded value, or integer arithmetic on
      integer inputs), so the model keeps integers. */
  datatype Point = Point(x: int, y: int)

  function Abs(r: real): real {
    if r < 0.0 then -r else r
  }

  function IAbs(n: int): int {
    if n < 0 then -n else n
  }

  function Max(a: real, b: real): real {
    if a < b then b else a
  }

  function Imax(a: int, b: int): int {
    if a < b then b else a
  }

  /** C++ `round`: to the nearest integer, halfway cases away from zero. */
  function Round(r: real): (n: int)
    ensures r - 0.5 <= n as real <= r + 0.5
    ensures n as real == r + 0.5 ==> r > 0.0
    ensures n as real == r - 0.5 ==> r < 0.0
  {
    if r >= 0.0 then (r + 0.5).Floor else -((-r + 0.5).Floor)
  }

  /** Rounding an integral value gives it back. */
  lemma RoundIntegral(n: int)
    ensures Round(n as real) == n
  {
  }

  /** Rounding never moves two values further apart than one unit plus their distance:
      two reals less than one apart round to integers at most one apart. */
  lemma RoundClose(a: real, b: real)
    requires Abs(b - a) < 1.0
    ensures IAbs(Round(b) - Round(a)) <= 1
  {
  }
}
