/**
 Day arithmetic of the burndown component. Dates are millisecond timestamps (the
 value `Date.getTime()` returns); a sprint range holds an optional start and end.
 */
module Dates {
  import opened Js

  /** `1000 * 60 * 60 * 24`, the divisor of the day count. */
  const MillisPerDay: int := 1000 * 60 * 60 * 24

  /**
   The ceiling of `n / d` for a positive divisor: the unique `q` with
   `(q - 1) * d < n <= q * d`.
   */
  function CeilDiv(n: int, d: int): (q: int)
    requires d > 0
    ensures (q - 1) * d < n <= q * d
  {
    var f := n / d;
    assert n == f * d + n % d;
    if n % d == 0 then f else f + 1
  }

  /** Any `q` bracketing `n` the way a ceiling does is the ceiling. */
  lemma CeilDivUnique(n: int, d: int, q: int)
    requires d > 0
    requires (q - 1) * d < n <= q * d
    ensures CeilDiv(n, d) == q
  {
    var c := CeilDiv(n, d);
    FactorLess(q - 1, c, d);
    FactorLess(c - 1, q, d);
  }

  /** Multiples of a positive number are ordered as their factors. */
  lemma FactorLess(a: int, b: int, d: int)
    requires d > 0 && a * d < b * d
    ensures a < b
  {
  }

  /**
   `getDaysBetween(start, end)`: the number of days from `start` to `end`, a partial
   day counting as a whole one. It is negative when `end` is a day or more before
   `start`.
   */
  function DaysBetween(start: int, end: int): (days: int)
    ensures (days - 1) * MillisPerDay < end - start <= days * MillisPerDay
  {
    CeilDiv(end - start, MillisPerDay)
  }

  /** A whole number of days between the timestamps gives exactly that number. */
  lemma DaysBetweenWholeDays(start: int, k: int)
    ensures DaysBetween(start, start + k * MillisPerDay) == k
  {
    assert (k - 1) * MillisPerDay == k * MillisPerDay - MillisPerDay;
    CeilDivUnique(k * MillisPerDay, MillisPerDay, k);
  }

  /** Any positive span up to one day counts as one day. */
  lemma DaysBetweenPartialDay(start: int, end: int)
    requires start < end <= start + MillisPerDay
    ensures DaysBetween(start, end) == 1
  {
    CeilDivUnique(end - start, MillisPerDay, 1);
  }

  /** A later end never gives fewer days. */
  lemma DaysBetweenMonotone(start: int, end1: int, end2: int)
    requires end1 <= end2
    ensures DaysBetween(start, end1) <= DaysBetween(start, end2)
  {
  }

  /** The sprint range `{ from, to }`; either end may be `undefined`. */
  datatype DateRange = DateRange(from: Option<int>, to: Option<int>)

  /**
   `totalDays`: the day count from `from` to `to` when both are set, and 0 when
   either is missing.
   */
  function TotalDays(range: DateRange): (days: int)
    ensures range.from.None? || range.to.None? ==> days == 0
    ensures range.from.Some? && range.to.Some? ==>
              (days - 1) * MillisPerDay < range.to.value - range.from.value <= days * MillisPerDay
  {
    if range.from.Some? && range.to.Some? then DaysBetween(range.from.value, range.to.value) else 0
  }

  /** Moving the end by whole days moves the day count by the same number. */
  lemma DaysBetweenShift(start: int, end: int, k: int)
    ensures DaysBetween(start, end + k * MillisPerDay) == DaysBetween(start, end) + k
  {
    var q := DaysBetween(start, end);
    assert (q + k - 1) * MillisPerDay == (q - 1) * MillisPerDay + k * MillisPerDay;
    assert (q + k) * MillisPerDay == q * MillisPerDay + k * MillisPerDay;
    CeilDivUnique(end + k * MillisPerDay - start, MillisPerDay, q + k);
  }

  /** An end less than a day before the start, or at the start itself, gives zero days. */
  lemma DaysBetweenWithinDayBefore(start: int, end: int)
    requires start - MillisPerDay < end <= start
    ensures DaysBetween(start, end) == 0
  {
    CeilDivUnique(end - start, MillisPerDay, 0);
  }

  /**
   The range the component starts with. The start is one clock read (`first`); the
   end is fourteen calendar days after a second clock read (`second`). Adding
   calendar days keeps the local wall-clock time, so the end also moves by
   `offsetChange`, the change of the local UTC offset over those days (an hour
   across a daylight-saving switch, 0 otherwise). The range spans 14 days plus the
   day count of the drift `second + offsetChange - first`: for a drift within a day
   either way, 14 when it is not positive and 15 when it is.
   */
  function InitialRange(first: int, second: int, offsetChange: int): (range: DateRange)
    ensures range.from == Some(first)
    ensures TotalDays(range) == 14 + DaysBetween(first, second + offsetChange)
    ensures first - MillisPerDay < second + offsetChange <= first ==> TotalDays(range) == 14
    ensures first < second + offsetChange <= first + MillisPerDay ==> TotalDays(range) == 15
  {
    DaysBetweenShift(first, second + offsetChange, 14);
    assert first - MillisPerDay < second + offsetChange <= first ==> DaysBetween(first, second + offsetChange) == 0 by {
      if first - MillisPerDay < second + offsetChange <= first {
        DaysBetweenWithinDayBefore(first, second + offsetChange);
      }
    }
    assert first < second + offsetChange <= first + MillisPerDay ==> DaysBetween(first, second + offsetChange) == 1 by {
      if first < second + offsetChange <= first + MillisPerDay {
        DaysBetweenPartialDay(first, second + offsetChange);
      }
    }
    DateRange(Some(first), Some(second + 14 * MillisPerDay + offsetChange))
  }
}
