/**
 * The percentages shown in the progress text: `updateProgress` displays
 * `Math.round(Math.min(p, 1) * 100)` and the archive phase displays
 * `Math.min(Math.round(percent), 100)`. Ratios are exact fractions
 * `num / den` here.
 */
module Progress {
  import opened Wrappers

  /**
   * `Math.round(num / den)`: the integer nearest to the fraction, halves
   * rounded up (towards positive infinity, as JavaScript does).
   */
  function RoundHalfUp(num: int, den: Positive): (r: int)
    ensures 2 * r * den <= 2 * num + den < 2 * (r + 1) * den
  {
    (2 * num + den) / (2 * den)
  }

  /** Rounding never reverses the order of two fractions with one denominator. */
  lemma RoundHalfUpMonotone(a: int, b: int, den: Positive)
    requires a <= b
    ensures RoundHalfUp(a, den) <= RoundHalfUp(b, den)
  {
    var ra, rb := RoundHalfUp(a, den), RoundHalfUp(b, den);
    if ra > rb {
      assert rb + 1 <= ra;
      assert 2 * (rb + 1) * den <= 2 * ra * den by {
        MulLe(rb + 1, ra, 2 * den);
      }
    }
  }

  lemma MulLe(x: int, y: int, m: nat)
    requires x <= y
    ensures x * m <= y * m
  {
  }

  /** A whole number of denominators rounds to itself. */
  lemma RoundHalfUpExact(k: int, den: Positive)
    ensures RoundHalfUp(k * den, den) == k
  {
    var r := RoundHalfUp(k * den, den);
    if r < k {
      MulLe(r + 1, k, 2 * den);
    } else if r > k {
      MulLe(k + 1, r, 2 * den);
    }
  }

  /** The page-phase percentage `round(min(num / den, 1) * 100)`. */
  function Percent(num: int, den: Positive): int
  {
    var capped := if num >= den then den else num;
    RoundHalfUp(100 * capped, den)
  }

  /** The shown percentage of a non-negative ratio lies in 0..100, and is 100 once the ratio reaches 1. */
  lemma PercentBounds(num: int, den: Positive)
    ensures num >= 0 ==> 0 <= Percent(num, den)
    ensures Percent(num, den) <= 100
    ensures num >= den ==> Percent(num, den) == 100
  {
    RoundHalfUpExact(100, den);
    var capped := if num >= den then den else num;
    RoundHalfUpMonotone(100 * capped, 100 * den, den);
    if num >= 0 {
      RoundHalfUpExact(0, den);
      RoundHalfUpMonotone(0, 100 * capped, den);
    }
  }

  /** A larger ratio never shows a smaller percentage. */
  lemma PercentMonotone(a: int, b: int, den: Positive)
    requires a <= b
    ensures Percent(a, den) <= Percent(b, den)
  {
    var ca := if a >= den then den else a;
    var cb := if b >= den then den else b;
    RoundHalfUpMonotone(100 * ca, 100 * cb, den);
  }

  /** The archive-phase percentage: the rounded `percent` reported by the packer, capped at 100. */
  function ArchivePercent(num: int, den: Positive): (r: int)
    ensures r <= 100
    ensures r == 100 || r == RoundHalfUp(num, den)
    ensures RoundHalfUp(num, den) <= 100 ==> r == RoundHalfUp(num, den)
  {
    Min(RoundHalfUp(num, den), 100)
  }

  /** The archive-phase percentage follows the reported value's order. */
  lemma ArchivePercentMonotone(a: int, b: int, den: Positive)
    requires a <= b
    ensures ArchivePercent(a, den) <= ArchivePercent(b, den)
  {
    RoundHalfUpMonotone(a, b, den);
  }
}
