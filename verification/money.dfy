/**
 Money arithmetic. Amounts are whole paise (hundredths of a rupee), so the
 controllers' "round to 2 decimals" becomes rounding a rational number of
 paise to the nearest whole paisa.
 */
module Money {

  /** Sum of a sequence of amounts, folded from the left as `reduce` does. */
  function Sum(xs: seq<int>): int
  {
    if |xs| == 0 then 0 else Sum(xs[..|xs| - 1]) + xs[|xs| - 1]
  }

  /**
   `num / den` rounded to the nearest integer, halves away from zero: the
   rounding `Number.prototype.toFixed(2)` applies to the exact quotient
   (a negative value is rounded by its magnitude).
   */
  function RoundDiv(num: int, den: int): (r: int)
    requires den > 0
    // r is nearest to num/den: |r - num/den| <= 1/2 ...
    ensures -den <= 2 * (den * r - num) <= den
    // ... and a tie goes away from zero
    ensures num >= 0 ==> 2 * (den * r - num) > -den
    ensures num < 0 ==> 2 * (den * r - num) < den
  {
    if num >= 0 then RoundUpHalf(num, den) as int else -(RoundUpHalf(-num, den) as int)
  }

  /** Rounds a non-negative quotient half up. */
  function RoundUpHalf(num: nat, den: int): (r: nat)
    requires den > 0
    ensures -den < 2 * (den * r - num) <= den
  {
    var q := (2 * num + den) / (2 * den);
    assert 2 * den * q <= 2 * num + den < 2 * den * q + 2 * den by {
      DivBounds(2 * num + den, 2 * den);
    }
    q
  }

  lemma DivBounds(a: nat, b: int)
    requires b > 0
    ensures b * (a / b) <= a < b * (a / b) + b
  {
  }

  /** Two roundings that agree with the same bounds are the same integer. */
  lemma RoundDivUnique(num: int, den: int, r: int)
    requires den > 0
    requires -den <= 2 * (den * r - num) <= den
    requires num >= 0 ==> 2 * (den * r - num) > -den
    requires num < 0 ==> 2 * (den * r - num) < den
    ensures r == RoundDiv(num, den)
  {
    var s := RoundDiv(num, den);
    if r < s {
      assert den * s - den * r >= den by { MulMonotone(den, s - r); }
    } else if r > s {
      assert den * r - den * s >= den by { MulMonotone(den, r - s); }
    }
  }

  lemma MulMonotone(d: int, k: int)
    requires d > 0 && k >= 1
    ensures d * k >= d
  {
  }

  /** Sum of `n` copies of `x`. */
  lemma {:induction false} SumOfCopies(xs: seq<int>, x: int)
    requires forall i :: 0 <= i < |xs| ==> xs[i] == x
    ensures Sum(xs) == |xs| * x
  {
    if |xs| > 0 {
      SumOfCopies(xs[..|xs| - 1], x);
    }
  }
}
