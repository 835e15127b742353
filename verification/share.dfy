/** An entry's share of its root's total and the high/low classification used to
    colour it (Main.java, the high-percentage threshold and the per-entry percentage).
    Shares are exact rationals here; the source computes them in single precision. */
module Share {

  /** The high-percentage threshold: an entry is "high" from a fifth of the total upwards. */
  const HighPercentageThreshold: real := 0.2

  /** The entry's area divided by the root's total, or 0 when the total is 0. */
  function Share(area: nat, total: nat): (r: real)
    ensures total == 0 ==> r == 0.0
    ensures total > 0 ==> r * total as real == area as real
  {
    if total == 0 then 0.0 else area as real / total as real
  }

  /** The share as the percentage shown to the user: a hundred times the share, so
      100 for an entry holding the whole total and 0 when there is nothing to share. */
  function Percentage(area: nat, total: nat): (r: real)
    ensures total == 0 ==> r == 0.0
    ensures total > 0 ==> r * total as real == 100.0 * area as real
    ensures total > 0 && area == total ==> r == 100.0
  {
    var s := Share(area, total);
    assert total > 0 ==> (s * 100.0) * total as real == 100.0 * area as real by {
      if total > 0 {
        assert (s * 100.0) * total as real == 100.0 * (s * total as real);
      }
    }
    assert total > 0 && area == total ==> s == 1.0 by {
      if total > 0 && area == total {
        ShareBounds(area, total);
      }
    }
    s * 100.0
  }

  /** An entry is high when its share reaches the threshold, the threshold itself included. */
  predicate IsHigh(area: nat, total: nat) {
    Share(area, total) >= HighPercentageThreshold
  }

  /** The classification in integer arithmetic: high exactly when the total is positive
      and the area is at least a fifth of it, the boundary included. */
  lemma IsHighIff(area: nat, total: nat)
    ensures IsHigh(area, total) <==> total > 0 && 5 * area >= total
  {
    if total > 0 {
      var s := Share(area, total);
      ScaleMonotone(s, HighPercentageThreshold, total as real);
      assert (5 * area) as real == 5.0 * area as real;
    }
  }

  /** An area within the total has a share between 0 and 1, and exactly 1 when it is the whole. */
  lemma ShareBounds(area: nat, total: nat)
    requires area <= total
    ensures 0.0 <= Share(area, total) <= 1.0
    ensures Share(area, total) == 1.0 <==> total > 0 && area == total
  {
    if total > 0 {
      var s := Share(area, total);
      ScaleMonotone(s, 0.0, total as real);
      ScaleMonotone(s, 1.0, total as real);
      ScaleMonotone(1.0, s, total as real);
    }
  }

  /** Multiplying by a positive factor keeps the order. */
  lemma ScaleMonotone(q: real, c: real, t: real)
    requires t > 0.0
    ensures q >= c <==> q * t >= c * t
  {
    if q >= c {
      assert (q - c) * t >= 0.0;
    } else {
      assert (c - q) * t > 0.0;
    }
  }
}
