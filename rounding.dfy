/** Real helpers for scores: `Math.max` on reals and the
    `Math.round(x * 100) / 100` idiom that rounds a score to two decimals. */
module Rounding {

  function MaxReal(a: real, b: real): real { if a >= b then a else b }

  /** `Math.round(x * 100) / 100`: `Math.round` rounds half-way cases up,
      so it is `Floor(y + 1/2)`. Scores are exact rationals here. */
  function Round2(x: real): real
  {
    ((x * 100.0 + 0.5).Floor as real) / 100.0
  }

  /** A value already on the two-decimal grid is left alone by rounding;
      in particular rounding twice is rounding once. */
  lemma Round2OfGrid(n: int)
    ensures Round2(n as real / 100.0) == n as real / 100.0
  {
    var x := n as real / 100.0;
    assert x * 100.0 == n as real;
    assert (x * 100.0 + 0.5).Floor == n;
  }

  lemma Round2Idempotent(x: real)
    ensures Round2(Round2(x)) == Round2(x)
  {
    Round2OfGrid((x * 100.0 + 0.5).Floor);
  }

  /** Rounding keeps a score inside [0, 100]. */
  lemma Round2InRange(x: real)
    requires 0.0 <= x <= 100.0
    ensures 0.0 <= Round2(x) <= 100.0
  {
    var n := (x * 100.0 + 0.5).Floor;
    assert 0.0 <= x * 100.0 <= 10000.0;
    assert 0 <= n <= 10000;
  }

  /** Rounding never reverses the order of two values. */
  lemma Round2Monotone(x: real, y: real)
    requires x <= y
    ensures Round2(x) <= Round2(y)
  {
    assert x * 100.0 + 0.5 <= y * 100.0 + 0.5;
    assert (x * 100.0 + 0.5).Floor <= (y * 100.0 + 0.5).Floor;
  }

  /** A value of at most 100 rounds to 100 exactly when it is at least 99.995. */
  lemma Round2Full(x: real)
    requires x <= 100.0
    ensures Round2(x) == 100.0 <==> x >= 99.995
  {
    var n := (x * 100.0 + 0.5).Floor;
    assert Round2(x) == n as real / 100.0;
    assert x * 100.0 + 0.5 <= 10000.5;
    assert n <= 10000;
    if x >= 99.995 {
      assert x * 100.0 + 0.5 >= 10000.0;
      assert n >= 10000;
    } else {
      assert x * 100.0 + 0.5 < 10000.0;
      assert n < 10000;
    }
  }
}
