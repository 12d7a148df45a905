/** Validation of a requested range against the duration ceiling
    (the first two branches of the per-part step of `cutVideo`). */
module Validation {

  const MinInt32: int := -0x8000_0000
  const MaxInt32: int := 0x7FFF_FFFF

  /** Java's `int`. Request bounds and `maxDuration` are parsed into it. */
  type Int32 = x: int | MinInt32 <= x <= MaxInt32

  /** Two's-complement wrap-around of Java's 32-bit `int` arithmetic. */
  function Wrap32(x: int): (r: Int32)
    ensures MinInt32 <= x <= MaxInt32 ==> r == x
    ensures (r - x) % 0x1_0000_0000 == 0
  {
    ((x - MinInt32) % 0x1_0000_0000) + MinInt32
  }

  /** The three outcomes of validating one part. */
  datatype Verdict =
    | Reversed  // `to <= from`: boundaries reversed or empty range
    | TooLong   // the range is longer than `maxDuration`
    | Accepted  // the part may be looked up and, if absent, transcoded

  /** The duration check as written: `to - from` is evaluated in 32-bit
      `int` arithmetic before being compared with `maxDuration`. */
  function ClassifyAsWritten(from: Int32, to: Int32, maxDuration: Int32): (v: Verdict)
    ensures v == Reversed <==> to <= from
  {
    if to <= from then Reversed
    else if Wrap32(to - from) > maxDuration then TooLong
    else Accepted
  }

  /** The duration check with the difference taken exactly, as the guard
      intends. The pipeline follows the code and uses `ClassifyAsWritten`;
      `AsWrittenVersusIntended` states where the two differ. */
  function Classify(from: int, to: int, maxDuration: int): (v: Verdict)
    ensures v == Reversed <==> to <= from
    ensures v == Accepted <==> 0 < to - from <= maxDuration
  {
    if to <= from then Reversed
    else if to - from > maxDuration then TooLong
    else Accepted
  }

  /** The range from the smallest to the largest `int`, with the default
      ceiling of 10 seconds: the subtraction wraps to -1, so the written guard
      accepts a range of 4294967295 seconds. */
  lemma {:induction false} OverflowAdmitsHugeRange()
    ensures ClassifyAsWritten(MinInt32, MaxInt32, 10) == Accepted
    ensures Classify(MinInt32, MaxInt32, 10) == TooLong
  {
  }

  lemma {:induction false} WrapOfOverflow(d: int)
    requires MaxInt32 < d <= MaxInt32 - MinInt32
    ensures Wrap32(d) == d - 0x1_0000_0000
  {
    var k := d - MinInt32;
    assert 0x1_0000_0000 <= k < 2 * 0x1_0000_0000;
    assert k % 0x1_0000_0000 == k - 0x1_0000_0000;
  }

  /** The written guard agrees with the intended one on every range whose
      length fits in an `int`; with a non-negative ceiling it additionally
      accepts every range longer than `MaxInt32` seconds. */
  lemma {:induction false} AsWrittenVersusIntended(from: Int32, to: Int32, maxDuration: Int32)
    ensures to - from <= MaxInt32 ==>
              ClassifyAsWritten(from, to, maxDuration) == Classify(from, to, maxDuration)
    ensures 0 <= maxDuration && to - from > MaxInt32 ==>
              ClassifyAsWritten(from, to, maxDuration) == Accepted
              && Classify(from, to, maxDuration) == TooLong
  {
    if to - from > MaxInt32 {
      WrapOfOverflow(to - from);
    }
  }
}
