/**
 * The two arithmetic helpers of the governor: a linear rescaler between two
 * ranges, and rounding to the nearest multiple of a step. Python's floats
 * are modelled by exact reals.
 */
module Utils {

  /**
   * The closure `build_rescaler(srcMin, srcMax, tarMin, tarMax)` applied to
   * `x`: the affine map sending srcMin to tarMin and srcMax to tarMax, except
   * that a one-point source range yields 0 (not tarMin).
   */
  function Rescale(srcMin: real, srcMax: real, tarMin: real, tarMax: real, x: real): real {
    if srcMin == srcMax then 0.0
    else (tarMax - tarMin) / (srcMax - srcMin) * (x - srcMin) + tarMin
  }

  /** A one-point source range gives 0 for every x, whatever the target range. */
  lemma RescaleDegenerate(src: real, tarMin: real, tarMax: real, x: real)
    ensures Rescale(src, src, tarMin, tarMax, x) == 0.0
  {
  }

  /** The ends of the source range go to the ends of the target range. */
  lemma RescaleEndpoints(srcMin: real, srcMax: real, tarMin: real, tarMax: real)
    requires srcMin != srcMax
    ensures Rescale(srcMin, srcMax, tarMin, tarMax, srcMin) == tarMin
    ensures Rescale(srcMin, srcMax, tarMin, tarMax, srcMax) == tarMax
  {
    var ratio := (tarMax - tarMin) / (srcMax - srcMin);
    assert ratio * (srcMax - srcMin) == tarMax - tarMin;
  }

  /** A larger input never gives a smaller output, for ordered ranges. */
  lemma RescaleMonotone(srcMin: real, srcMax: real, tarMin: real, tarMax: real, x: real, y: real)
    requires srcMin < srcMax && tarMin <= tarMax
    requires x <= y
    ensures Rescale(srcMin, srcMax, tarMin, tarMax, x) <= Rescale(srcMin, srcMax, tarMin, tarMax, y)
  {
    var ratio := (tarMax - tarMin) / (srcMax - srcMin);
    assert ratio >= 0.0;
    MulMonotone(ratio, x - srcMin, y - srcMin);
  }

  /** The source range is mapped into the target range. */
  lemma RescaleBounds(srcMin: real, srcMax: real, tarMin: real, tarMax: real, x: real)
    requires srcMin < srcMax && tarMin <= tarMax
    requires srcMin <= x <= srcMax
    ensures tarMin <= Rescale(srcMin, srcMax, tarMin, tarMax, x) <= tarMax
  {
    RescaleEndpoints(srcMin, srcMax, tarMin, tarMax);
    RescaleMonotone(srcMin, srcMax, tarMin, tarMax, srcMin, x);
    RescaleMonotone(srcMin, srcMax, tarMin, tarMax, x, srcMax);
  }

  lemma MulMonotone(c: real, a: real, b: real)
    requires c >= 0.0 && a <= b
    ensures c * a <= c * b
  {
    assert c * b - c * a == c * (b - a);
  }

  /**
   * Python's `round(r)`: the nearest integer, and on a tie (a fractional
   * part of exactly one half) the even one of the two neighbours.
   */
  function RoundHalfEven(r: real): (n: int)
    ensures n as real - 0.5 <= r <= n as real + 0.5
    ensures r == n as real - 0.5 || r == n as real + 0.5 ==> n % 2 == 0
  {
    var f := r.Floor;
    var frac := r - f as real;
    if frac < 0.5 then f
    else if frac > 0.5 then f + 1
    else if f % 2 == 0 then f
    else f + 1
  }

  /** The two properties of RoundHalfEven's contract determine it: no other integer has them. */
  lemma RoundHalfEvenUnique(r: real, m: int)
    requires m as real - 0.5 <= r <= m as real + 0.5
    requires r == m as real - 0.5 || r == m as real + 0.5 ==> m % 2 == 0
    ensures RoundHalfEven(r) == m
  {
  }

  /** Rounding never reverses the order of two values. */
  lemma RoundHalfEvenMonotone(x: real, y: real)
    requires x <= y
    ensures RoundHalfEven(x) <= RoundHalfEven(y)
  {
  }

  /** `round_by(x, step)`: `round(x / step) * step`. */
  function RoundBy(x: real, step: real): real
    requires step != 0.0
  {
    RoundHalfEven(x / step) as real * step
  }

  function Abs(r: real): real { if r < 0.0 then -r else r }

  /** `round_by(x, step)` is an integer multiple of `step` within half a step of `x`. */
  lemma RoundByNearestMultiple(x: real, step: real)
    requires step != 0.0
    ensures (RoundBy(x, step) / step).Floor as real == RoundBy(x, step) / step
    ensures Abs(RoundBy(x, step) - x) <= Abs(step) / 2.0
  {
    var q := x / step;
    var n := RoundHalfEven(q);
    var m := n as real;
    assert RoundBy(x, step) / step == m by {
      MulDivCancel(m, step);
    }
    var d := m - q;
    assert RoundBy(x, step) - x == d * step by {
      DivMulCancel(x, step);
      Distribute(m, q, step);
    }
    assert Abs(d) <= 0.5;
    HalfStepBound(d, step);
  }

  lemma Distribute(a: real, b: real, s: real)
    ensures (a - b) * s == a * s - b * s
  {
  }

  /** Within half a unit of zero, scaled by `s`: within half of `|s|`. */
  lemma HalfStepBound(d: real, s: real)
    requires Abs(d) <= 0.5
    ensures Abs(d * s) <= Abs(s) / 2.0
  {
    AbsMul(d, s);
    MulMonotone(Abs(s), Abs(d), 0.5);
    assert Abs(d) * Abs(s) == Abs(s) * Abs(d);
  }

  lemma MulDivCancel(m: real, s: real)
    requires s != 0.0
    ensures (m * s) / s == m
  {
  }

  lemma DivMulCancel(x: real, s: real)
    requires s != 0.0
    ensures (x / s) * s == x
  {
  }

  lemma AbsMul(a: real, b: real)
    ensures Abs(a * b) == Abs(a) * Abs(b)
  {
    if a < 0.0 && b >= 0.0 {
      assert a * b == -((-a) * b);
    } else if a >= 0.0 && b < 0.0 {
      assert a * b == -(a * (-b));
    } else if a < 0.0 && b < 0.0 {
      assert a * b == (-a) * (-b);
    }
  }

  /** A non-negative input rounds to a non-negative multiple. */
  lemma RoundByNonNegative(x: real, step: real)
    requires step > 0.0 && x >= 0.0
    ensures RoundBy(x, step) >= 0.0
  {
    var n := RoundHalfEven(x / step);
    assert x / step >= 0.0;
    assert n >= 0;
    MulMonotone(step, 0.0, n as real);
  }

  /**
   * The documented examples: 165 / 50 = 3.3 rounds down to 150, and the tie
   * 175 / 50 = 3.5 goes to the even quotient 4, giving 200; the tie
   * 125 / 50 = 2.5 likewise goes DOWN to the even quotient 2, giving 100.
   */
  lemma RoundByExamples()
    ensures RoundBy(165.0, 50.0) == 150.0
    ensures RoundBy(175.0, 50.0) == 200.0
    ensures RoundBy(125.0, 50.0) == 100.0
  {
    RoundHalfEvenUnique(3.3, 3);
    RoundHalfEvenUnique(3.5, 4);
    RoundHalfEvenUnique(2.5, 2);
  }
}
