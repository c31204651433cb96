/**
  Integer form of the percentages the front end shows. JavaScript computes
  `Math.round((part / whole) * 100)`; `Math.round` rounds halves upwards, so on
  exact rationals the result is `floor((200 * part + whole) / (2 * whole))`.
 */
module Percent {

  /** The integer nearest to `100 * part / whole`, halves rounded up. */
  function RoundPercent(part: nat, whole: nat): (r: int)
    requires whole > 0
    ensures 2 * whole * r <= 200 * part + whole < 2 * whole * r + 2 * whole
    ensures part <= whole ==> 0 <= r <= 100
    ensures part == 0 ==> r == 0
    ensures part == whole ==> r == 100
  {
    var r := (200 * part + whole) / (2 * whole);
    RoundBounds(part, whole, r);
    r
  }

  lemma RoundBounds(part: nat, whole: nat, r: int)
    requires whole > 0 && r == (200 * part + whole) / (2 * whole)
    ensures 2 * whole * r <= 200 * part + whole < 2 * whole * r + 2 * whole
    ensures part <= whole ==> 0 <= r <= 100
    ensures part == 0 ==> r == 0
    ensures part == whole ==> r == 100
  {
    var n := 200 * part + whole;
    var d := 2 * whole;
    DivBounds(n, d, r);
    if part <= whole {
      assert n < d * 101;
      Below(n, d, r, 101);
    }
    if part == 0 {
      Below(n, d, r, 1);
    }
    if part == whole {
      assert d * 100 <= n;
      Above(n, d, r, 100);
    }
  }

  lemma DivBounds(n: nat, d: nat, q: int)
    requires d > 0 && q == n / d
    ensures q >= 0 && d * q <= n < d * q + d
  {
  }

  /** If `n < d * k` then the quotient is below `k`. */
  lemma Below(n: nat, d: nat, q: int, k: nat)
    requires d > 0 && d * q <= n && n < d * k
    ensures q < k
  {
    if q >= k {
      MulMono(d, k, q);
    }
  }

  /** If `d * k <= n` then the quotient is at least `k`. */
  lemma Above(n: nat, d: nat, q: int, k: nat)
    requires d > 0 && n < d * q + d && d * k <= n
    ensures q >= k
  {
    if q < k {
      MulMono(d, q + 1, k);
    }
  }

  lemma MulMono(d: nat, a: int, b: int)
    requires a <= b
    ensures d * a <= d * b
  {
  }

  /**
    The progress shown for `completed` of `total` items:
    `Math.round((completed / total) * 100) || 0`, where the `|| 0` turns the
    `NaN` of an empty list into 0.
   */
  function Progress(completed: nat, total: nat): (r: int)
    ensures total == 0 ==> r == 0
    ensures total > 0 ==> 2 * total * r <= 200 * completed + total < 2 * total * r + 2 * total
    ensures completed <= total ==> 0 <= r <= 100
  {
    if total == 0 then 0 else RoundPercent(completed, total)
  }
}
