/** JavaScript built-ins the application leans on, stated over exact arithmetic.
    Reals stand for the program's doubles; rounding steps are written out. */
module JsSemantics {

  /** `null`/`undefined` versus a present value. */
  datatype Option<+T> = None | Some(value: T)

  /** `Math.max(a, b)` on reals. */
  function Max(a: real, b: real): (r: real)
    ensures r >= a && r >= b
    ensures r == a || r == b
  {
    if a >= b then a else b
  }

  /** `Math.min(a, b)` on integers. */
  function MinInt(a: int, b: int): (r: int)
    ensures r <= a && r <= b
    ensures r == a || r == b
  {
    if a <= b then a else b
  }

  /** `Math.round(x)`: the nearest integer, halves rounded towards +infinity. */
  function Round(x: real): (n: int)
    ensures x - 0.5 < n as real <= x + 0.5
  {
    (x + 0.5).Floor
  }

  /** A whole number of cents: what `toFixed(2)` can print. */
  ghost predicate WholeCents(r: real) {
    (r * 100.0).Floor as real == r * 100.0
  }

  lemma CentsOf(n: int)
    ensures WholeCents(n as real / 100.0)
  {
    assert (n as real / 100.0) * 100.0 == n as real;
  }

  /** `parseFloat(x.toFixed(2))`. `toFixed` rounds the magnitude to the nearest multiple of 1/100,
      taking the larger one on a tie, and then puts the sign back: halves go away from zero. */
  function Fixed2(x: real): (r: real)
    ensures x - 0.005 <= r <= x + 0.005
    ensures x >= 0.0 ==> x - 0.005 < r && r >= 0.0
    ensures x < 0.0 ==> r < x + 0.005 && r <= 0.0
    ensures WholeCents(r)
  {
    var n := if x < 0.0 then -Round(-x * 100.0) else Round(x * 100.0);
    CentsOf(n);
    n as real / 100.0
  }

  /** Rounding to cents is symmetric about zero. */
  lemma Fixed2Symmetric(x: real)
    ensures Fixed2(-x) == -Fixed2(x)
  {
  }

  /** A tie rounds away from zero on both sides: 0.125 gives 0.13 and -0.125 gives -0.13. */
  lemma Fixed2TiesAwayFromZero()
    ensures Fixed2(0.125) == 0.13 && Fixed2(-0.125) == -0.13
  {
  }

  lemma RoundMonotone(x: real, y: real)
    requires x <= y
    ensures Round(x) <= Round(y)
  {
  }

  lemma Fixed2Monotone(x: real, y: real)
    requires x <= y
    ensures Fixed2(x) <= Fixed2(y)
  {
    if x >= 0.0 {
      RoundMonotone(x * 100.0, y * 100.0);
    } else if y < 0.0 {
      RoundMonotone(-y * 100.0, -x * 100.0);
    }
  }

  /** Values at least a cent apart stay strictly ordered after rounding to cents. */
  lemma Fixed2StrictlyMonotone(x: real, y: real)
    requires x + 0.01 <= y
    ensures Fixed2(x) < Fixed2(y)
  {
  }
}
