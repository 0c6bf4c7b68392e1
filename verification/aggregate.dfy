/** `Avg('rating')` followed by `round(average, 1)`, on ratings kept as
    integer tenths: the mean in tenths, rounded to a whole tenth. */
module Aggregate {
  import opened Wrappers

  function Sum(s: seq<int>): int
  {
    if s == [] then 0 else Sum(s[..|s| - 1]) + s[|s| - 1]
  }

  function Min(s: seq<int>): (m: int)
    requires |s| > 0
    ensures m in s
    ensures forall i :: 0 <= i < |s| ==> m <= s[i]
  {
    if |s| == 1 then s[0]
    else
      var m := Min(s[..|s| - 1]);
      assert forall i :: 0 <= i < |s| - 1 ==> s[..|s| - 1][i] == s[i];
      if s[|s| - 1] < m then s[|s| - 1] else m
  }

  function Max(s: seq<int>): (m: int)
    requires |s| > 0
    ensures m in s
    ensures forall i :: 0 <= i < |s| ==> s[i] <= m
  {
    if |s| == 1 then s[0]
    else
      var m := Max(s[..|s| - 1]);
      assert forall i :: 0 <= i < |s| - 1 ==> s[..|s| - 1][i] == s[i];
      if s[|s| - 1] > m then s[|s| - 1] else m
  }

  /** Every element lies between `lo` and `hi`, so the sum lies between
      |s|·lo and |s|·hi. */
  lemma {:induction false} SumBetween(s: seq<int>, lo: int, hi: int)
    requires forall i :: 0 <= i < |s| ==> lo <= s[i] <= hi
    ensures |s| * lo <= Sum(s) <= |s| * hi
  {
    if s != [] {
      var init := s[..|s| - 1];
      assert forall i :: 0 <= i < |init| ==> init[i] == s[i];
      SumBetween(init, lo, hi);
      assert |s| * lo == |init| * lo + lo;
      assert |s| * hi == |init| * hi + hi;
    }
  }

  /** n·a < n·b with n > 0 gives a < b. */
  lemma CancelLess(n: int, a: int, b: int)
    requires n > 0 && n * a < n * b
    ensures a < b
  {
  }

  /** `num / den` rounded to the nearest integer, ties to the even one
      (Python rounds a Decimal that way). */
  function RoundHalfEven(num: int, den: nat): (r: int)
    requires den > 0
    ensures -(den as int) <= 2 * den * r - 2 * num <= den
    ensures num / den <= r <= num / den + 1
    ensures r == num / den + 1 ==> num % den > 0
  {
    var q := num / den;
    var m := num % den;
    assert num == den * q + m;
    if 2 * m < den then q
    else if 2 * m > den then q + 1
    else if q % 2 == 0 then q else q + 1
  }

  /** The rounded mean of `s`, or None for no values at all. */
  function Average(s: seq<int>): (r: Option<int>)
    ensures r.None? <==> s == []
  {
    if s == [] then None else Some(RoundHalfEven(Sum(s), |s|))
  }

  /** Rounding `num / den` stays within any integer bounds of the quotient. */
  lemma {:induction false} RoundWithin(num: int, den: nat, lo: int, hi: int)
    requires den > 0
    requires den * lo <= num <= den * hi
    ensures lo <= RoundHalfEven(num, den) <= hi
  {
    var q := num / den;
    var m := num % den;
    var r := RoundHalfEven(num, den);
    assert num == den * q + m && 0 <= m < den;
    assert den * lo < den * (q + 1);
    CancelLess(den, lo, q + 1);
    if r == q {
      if q > hi {
        CancelLess(den, hi, q);
      }
    } else {
      assert den * q < den * hi;
      CancelLess(den, q, hi);
    }
  }

  /** The rounded mean is within half a unit of the exact mean, and lies
      between the smallest and the largest value. */
  lemma {:induction false} AverageBounds(s: seq<int>)
    requires s != []
    ensures -|s| <= 2 * |s| * Average(s).value - 2 * Sum(s) <= |s|
    ensures Min(s) <= Average(s).value <= Max(s)
  {
    SumBetween(s, Min(s), Max(s));
    RoundWithin(Sum(s), |s|, Min(s), Max(s));
  }
}
