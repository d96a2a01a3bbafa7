/**
 * Go's `math.Round`, which rounds to the nearest integer with halves away
 * from zero, on exact real numbers. Every metric is stored in tenths, so
 * `math.Round(x*10)/10` becomes the integer `RoundHalfAway(x * 10)` tenths.
 */
module Rounding {

  /** `math.Round`: the nearest integer; a value exactly halfway goes away from zero. */
  function RoundHalfAway(x: real): (r: int)
    ensures x >= 0.0 ==> r as real - 0.5 <= x < r as real + 0.5
    ensures x < 0.0 ==> r as real - 0.5 < x <= r as real + 0.5
  {
    if x >= 0.0 then (x + 0.5).Floor else -((0.5 - x).Floor)
  }

  /** The ingestion step: a value in units, rounded to one decimal, as a count of tenths. */
  function RoundTenths(x: real): (t: int)
    ensures -0.5 <= t as real - x * 10.0 <= 0.5
  {
    RoundHalfAway(x * 10.0)
  }

  /** Nearest-integer rounding has one answer: any integer meeting the half-away rule is it. */
  lemma RoundIsUnique(x: real, n: int)
    requires x >= 0.0 ==> n as real - 0.5 <= x < n as real + 0.5
    requires x < 0.0 ==> n as real - 0.5 < x <= n as real + 0.5
    ensures RoundHalfAway(x) == n
  {
  }

  /** Rounding an integer leaves it unchanged, so rounding twice is rounding once. */
  lemma RoundOfInteger(n: int)
    ensures RoundHalfAway(n as real) == n
  {
    RoundIsUnique(n as real, n);
  }

  lemma RoundIdempotent(x: real)
    ensures RoundHalfAway(RoundHalfAway(x) as real) == RoundHalfAway(x)
  {
    RoundOfInteger(RoundHalfAway(x));
  }

  /** Halves away from zero is symmetric about zero. */
  lemma RoundSymmetric(x: real)
    ensures RoundHalfAway(-x) == -RoundHalfAway(x)
  {
    RoundIsUnique(-x, -RoundHalfAway(x));
  }

  /** Rounding preserves order. */
  lemma RoundMonotone(x: real, y: real)
    requires x <= y
    ensures RoundHalfAway(x) <= RoundHalfAway(y)
  {
  }

  /** A value between two integers rounds to a value between them. */
  lemma RoundBetween(lo: int, x: real, hi: int)
    requires lo as real <= x <= hi as real
    ensures lo <= RoundHalfAway(x) <= hi
  {
    RoundMonotone(lo as real, x);
    RoundMonotone(x, hi as real);
    RoundOfInteger(lo);
    RoundOfInteger(hi);
  }

  /** A tie goes away from zero on both sides. */
  lemma RoundTies(n: nat)
    ensures RoundHalfAway(n as real + 0.5) == n + 1
    ensures RoundHalfAway(-(n as real) - 0.5) == -(n + 1)
  {
    RoundIsUnique(n as real + 0.5, n + 1);
    RoundIsUnique(-(n as real) - 0.5, -(n + 1));
  }
}
