/**
 * The sequence helpers of recipes.py: `daterange`, `append_if` and
 * `prepend_if`. Dates are day numbers, so `start + timedelta(n)` is
 * `start + n` and `(end - start).days` is `end - start`.
 */
module Sequences {

  /** Python's `bool` as an integer: `True` counts 1, `False` counts 0. */
  function BoolToInt(b: bool): int
  {
    if b then 1 else 0
  }

  /**
   * `daterange(start, end, include_end)`: every day from `start` up to but
   * excluding `end`, or including it when `include_end` holds; `range` of a
   * negative length is empty.
   */
  function DateRange(start: int, end: int, includeEnd: bool): (days: seq<int>)
    ensures |days| == if end - start + BoolToInt(includeEnd) < 0 then 0 else end - start + BoolToInt(includeEnd)
    ensures forall i, j :: 0 <= i < j < |days| ==> days[i] < days[j]
    ensures |days| > 0 ==> days[0] == start
  {
    var periodLen := end - start + BoolToInt(includeEnd);
    seq(if periodLen < 0 then 0 else periodLen, n requires n >= 0 => start + n)
  }

  /** A day is in the range exactly when it lies between the bounds. */
  lemma DateRangeMembers(start: int, end: int, includeEnd: bool)
    ensures forall d :: d in DateRange(start, end, includeEnd) <==> start <= d < end + BoolToInt(includeEnd)
  {
    var days := DateRange(start, end, includeEnd);
    forall d | start <= d < end + BoolToInt(includeEnd) ensures d in days {
      assert days[d - start] == d;
    }
  }

  /** Including the end day is the same as ending one day later. */
  lemma DateRangeIncludeEnd(start: int, end: int)
    ensures DateRange(start, end, true) == DateRange(start, end + 1, false)
  {
  }

  /** Consecutive ranges concatenate into the range that spans both. */
  lemma DateRangeSplit(start: int, middle: int, end: int)
    requires start <= middle <= end
    ensures DateRange(start, end, false) == DateRange(start, middle, false) + DateRange(middle, end, false)
  {
    var whole := DateRange(start, end, false);
    var left := DateRange(start, middle, false);
    var right := DateRange(middle, end, false);
    forall i | 0 <= i < |whole| ensures whole[i] == (left + right)[i] {
      if i >= |left| {
        assert (left + right)[i] == right[i - |left|];
      }
    }
  }

  /** The sequence read back to front. */
  function Reverse<T>(s: seq<T>): (r: seq<T>)
    ensures |r| == |s|
  {
    seq(|s|, i requires 0 <= i < |s| => s[|s| - 1 - i])
  }

  /**
   * `append_if(value, iterable, cond)`: everything from `iterable`, then
   * `value` when `cond(value)` holds.
   */
  function AppendIf<T>(value: T, xs: seq<T>, cond: T -> bool): (r: seq<T>)
    ensures xs <= r && |r| <= |xs| + 1
    ensures |r| == |xs| + 1 <==> cond(value)
    ensures |r| == |xs| + 1 ==> r[|xs|] == value
  {
    if cond(value) then xs + [value] else xs
  }

  /**
   * `prepend_if(value, iterable, cond)`: `value` first when `cond(value)`
   * holds, then everything from `iterable`.
   */
  function PrependIf<T>(value: T, xs: seq<T>, cond: T -> bool): (r: seq<T>)
    ensures |xs| <= |r| <= |xs| + 1 && r[|r| - |xs|..] == xs
    ensures |r| == |xs| + 1 <==> cond(value)
    ensures |r| == |xs| + 1 ==> r[0] == value
  {
    if cond(value) then [value] + xs else xs
  }

  /** `prepend_if` is `append_if` seen from the other end. */
  lemma PrependIfMirrorsAppendIf<T>(value: T, xs: seq<T>, cond: T -> bool)
    ensures PrependIf(value, xs, cond) == Reverse(AppendIf(value, Reverse(xs), cond))
  {
  }
}
