/** Real-number helpers shared by both classifiers: the `abs`, `min` and
    `max` builtins, and Python's `round(x, 1)` taken on
    exact reals (round half to even at one decimal place). */
module Numeric {

  function Abs(x: real): real {
    if x < 0.0 then -x else x
  }

  function Min(a: real, b: real): real {
    if a <= b then a else b
  }

  function Max(a: real, b: real): real {
    if a >= b then a else b
  }

  /** `x` is a whole number of tenths. */
  predicate IsTenth(x: real) {
    (x * 10.0).Floor as real == x * 10.0
  }

  /** The number of tenths `round(x, 1)` lands on: the integer nearest to
      `10 * x`, ties going to the even neighbour. */
  function RoundedTenths(x: real): (n: int)
    ensures x * 10.0 - 0.5 <= n as real <= x * 10.0 + 0.5
  {
    var t := x * 10.0;
    var f := t.Floor;
    var d := t - f as real;
    if d < 0.5 then f
    else if d > 0.5 then f + 1
    else if f % 2 == 0 then f
    else f + 1
  }

  /** Python's `round(x, 1)` on exact reals: the nearest tenth, never more
      than half a tenth away. */
  function Round1(x: real): (r: real)
    ensures x - 0.05 <= r <= x + 0.05
    ensures IsTenth(r)
  {
    var n := RoundedTenths(x);
    assert (n as real / 10.0) * 10.0 == n as real;
    n as real / 10.0
  }

  /** Rounding is monotone: it never reverses the order of two values. */
  lemma Round1Monotone(x: real, y: real)
    requires x <= y
    ensures Round1(x) <= Round1(y)
  {
    RoundedTenthsMonotone(x, y);
  }

  lemma RoundedTenthsMonotone(x: real, y: real)
    requires x <= y
    ensures RoundedTenths(x) <= RoundedTenths(y)
  {
    var fx, fy := (x * 10.0).Floor, (y * 10.0).Floor;
    assert fx <= fy;
    if fx < fy {
      assert RoundedTenths(x) <= fx + 1 <= fy <= RoundedTenths(y);
    }
  }

  /** A value that is already a whole number of tenths is left alone. */
  lemma Round1Exact(x: real)
    requires IsTenth(x)
    ensures Round1(x) == x
  {
    assert RoundedTenths(x) == (x * 10.0).Floor;
  }

  /** Rounding the interval [lo, hi] with tenth end points stays inside it;
      in particular a percentage in [0, 100] stays in [0, 100]. */
  lemma Round1Within(x: real, lo: real, hi: real)
    requires IsTenth(lo) && IsTenth(hi)
    requires lo <= x <= hi
    ensures lo <= Round1(x) <= hi
  {
    Round1Monotone(lo, x);
    Round1Monotone(x, hi);
    Round1Exact(lo);
    Round1Exact(hi);
  }

  lemma Round1Percent(x: real)
    requires 0.0 <= x <= 100.0
    ensures 0.0 <= Round1(x) <= 100.0
  {
    assert IsTenth(0.0) && IsTenth(100.0);
    Round1Within(x, 0.0, 100.0);
  }

  /** Rounding commutes with `min`, because it is monotone. */
  lemma Round1Min(a: real, b: real)
    ensures Round1(Min(a, b)) == Min(Round1(a), Round1(b))
  {
    if a <= b {
      Round1Monotone(a, b);
    } else {
      Round1Monotone(b, a);
    }
  }

  /** Where rounding crosses an even number of tenths `n`: the result
      reaches `n / 10` exactly when `10 * x` is at least `n - 1/2`, the tie
      itself rounding up to the even `n`. */
  lemma Round1AtLeastEven(x: real, n: int)
    requires n % 2 == 0
    ensures Round1(x) >= n as real / 10.0 <==> x * 10.0 >= n as real - 0.5
  {
    var t := x * 10.0;
    var f := t.Floor;
    var m := RoundedTenths(x);
    assert Round1(x) >= n as real / 10.0 <==> m >= n;
    if t >= n as real - 0.5 {
      if t < n as real {
        assert f == n - 1;
        assert (f % 2 == 0) == false;
        assert m == n;
      }
    } else {
      if f == n - 1 {
        assert m == f;
      }
    }
  }
}
