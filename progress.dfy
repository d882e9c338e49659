/**
 * Reading-progress arithmetic. Percentages are computed exactly (`real`)
 * where the app uses `Float`, and with truncation toward zero where it
 * converts to `Int` with `toInt()` or divides `Long`s.
 */
module Progress {

  lemma DivBounds(a: int, b: int)
    requires a >= 0 && b > 0
    ensures 0 <= (a / b) * b <= a < (a / b) * b + b
  {
    var q := a / b;
    assert a == b * q + a % b;
    assert q * b == b * q;
  }

  lemma MulLe(x: int, y: int, b: int)
    requires x <= y && b > 0
    ensures x * b <= y * b
  {
    assert y * b - x * b == (y - x) * b;
  }

  lemma DivMonotone(a: int, c: int, b: int)
    requires 0 <= a <= c && b > 0
    ensures a / b <= c / b
  {
    DivBounds(a, b);
    DivBounds(c, b);
    if a / b > c / b {
      MulLe(c / b + 1, a / b, b);
    }
  }

  /**
   * Kotlin's `Long`/`Int` division by a positive divisor, which truncates
   * toward zero (unlike Dafny's `/`, which rounds toward minus infinity here).
   */
  function TruncDiv(a: int, b: int): (q: int)
    requires b > 0
    ensures a >= 0 ==> 0 <= q * b <= a < q * b + b
    ensures a < 0 ==> q * b - b < a <= q * b <= 0
  {
    if a >= 0 then DivBounds(a, b); a / b
    else
      var n := (-a) / b;
      DivBounds(-a, b);
      assert (-n) * b == -(n * b);
      -n
  }

  /** Truncated division by a positive number is monotone in the dividend. */
  lemma TruncDivMonotone(a: int, c: int, b: int)
    requires b > 0 && a <= c
    ensures TruncDiv(a, b) <= TruncDiv(c, b)
  {
    if a >= 0 {
      DivMonotone(a, c, b);
    } else if c < 0 {
      DivMonotone(-c, -a, b);
    }
  }

  /** A positive multiple is at least the divisor. */
  lemma MulAtLeast(k: int, d: int)
    requires k >= 1 && d > 0
    ensures k * d >= d
  {
    assert k * d == (k - 1) * d + d;
    assert (k - 1) * d >= 0;
  }

  /** The only multiple strictly between `-d` and `d` is 0. */
  lemma MulBelow(k: int, d: int)
    requires d > 0 && -d < k * d < d
    ensures k == 0
  {
    if k >= 1 {
      MulAtLeast(k, d);
    } else if k <= -1 {
      MulAtLeast(-k, d);
    }
  }

  /** Quotient and remainder are the unique ones. */
  lemma DivUnique(q: int, r: int, d: int)
    requires d > 0 && 0 <= r < d
    ensures (q * d + r) / d == q && (q * d + r) % d == r
  {
    var x := q * d + r;
    var q', r' := x / d, x % d;
    assert x == q' * d + r';
    assert (q - q') * d == r' - r;
    MulBelow(q - q', d);
  }

  /** The exact percentage `part / total × 100`, or 0 when `total` is not positive. */
  function ExactPercent(part: int, total: int): real {
    if total > 0 then part as real / total as real * 100.0 else 0.0
  }

  /**
   * The whole-number percentage `(part / total × 100).toInt()`, or 0 when
   * `total` is not positive.
   */
  function WholePercent(part: int, total: int): int {
    if total > 0 then TruncDiv(100 * part, total) else 0
  }

  /** Dividing an inequality by a positive real keeps it. */
  lemma DivideReal(lo: real, y: real, t: real)
    requires t > 0.0 && lo <= y
    ensures lo / t <= y / t
  {
    assert y / t - lo / t == (y - lo) / t;
  }

  lemma DivideRealStrict(lo: real, y: real, t: real)
    requires t > 0.0 && lo < y
    ensures lo / t < y / t
  {
    assert y / t - lo / t == (y - lo) / t;
  }

  lemma IntMulReal(a: int, b: int)
    ensures (a * b) as real == a as real * b as real
  {
  }

  lemma MulDivReal(a: real, t: real)
    requires t != 0.0
    ensures (a * t) / t == a
  {
  }

  /** `k · total / total`, for `k` one of the bounds `q`, `q + 1`, `q - 1`. */
  lemma BoundOverTotal(k: int, total: int)
    requires total > 0
    ensures (k * total) as real / total as real == k as real
  {
    IntMulReal(k, total);
    MulDivReal(k as real, total as real);
  }

  lemma ExactPercentAsQuotient(part: int, total: int)
    requires total > 0
    ensures ExactPercent(part, total) == (100 * part) as real / total as real
  {
  }

  /** The whole percentage is the exact one with its fraction cut off. */
  lemma WholePercentTruncates(part: int, total: int)
    requires total > 0
    ensures part >= 0 ==> WholePercent(part, total) as real <= ExactPercent(part, total) < WholePercent(part, total) as real + 1.0
    ensures part < 0 ==> WholePercent(part, total) as real - 1.0 < ExactPercent(part, total) <= WholePercent(part, total) as real
  {
    var q := TruncDiv(100 * part, total);
    var t := total as real;
    var a := 100 * part;
    ExactPercentAsQuotient(part, total);
    if part >= 0 {
      assert q * total <= a < (q + 1) * total;
      BoundOverTotal(q, total);
      BoundOverTotal(q + 1, total);
      DivideReal((q * total) as real, a as real, t);
      DivideRealStrict(a as real, ((q + 1) * total) as real, t);
    } else {
      assert (q - 1) * total < a <= q * total;
      BoundOverTotal(q, total);
      BoundOverTotal(q - 1, total);
      DivideRealStrict(((q - 1) * total) as real, a as real, t);
      DivideReal(a as real, (q * total) as real, t);
    }
  }

  /** Between no page and every page the percentage stays within 0..100. */
  lemma WholePercentBounds(part: int, total: int)
    requires 0 <= part <= total
    ensures 0 <= WholePercent(part, total) <= 100
  {
    if total > 0 {
      TruncDivMonotone(0, 100 * part, total);
      TruncDivMonotone(100 * part, 100 * total, total);
      WholePercentFull(total);
    }
  }

  /** Having read every page is 100 %. */
  lemma WholePercentFull(total: int)
    requires total > 0
    ensures WholePercent(total, total) == 100
  {
    DivUnique(100, 0, total);
    assert TruncDiv(100 * total, total) == (100 * total) / total;
  }

  /** For a fixed page count, reading further never lowers the percentage. */
  lemma WholePercentMonotone(part: int, part': int, total: int)
    requires part <= part'
    ensures WholePercent(part, total) <= WholePercent(part', total)
  {
    if total > 0 {
      TruncDivMonotone(100 * part, 100 * part', total);
    }
  }

  /** Within 0..total pages the exact percentage stays within 0..100. */
  lemma ExactPercentBounds(part: int, total: int)
    requires 0 <= part <= total
    ensures 0.0 <= ExactPercent(part, total) <= 100.0
  {
    if total > 0 {
      assert part as real / total as real <= 1.0;
    }
  }
}
