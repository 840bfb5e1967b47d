/**
 The derived values of the burndown table: each task's peak point value, their sum,
 the ideal rate `idealPointsPerDay`, and the "Ideal Burndown" row. The rate and the
 row are exact rationals.
 */
module Ideal {
  import opened Tasks

  /** True when every task has at least one day, so that its peak is defined. */
  predicate AllRowsNonEmpty(tasks: seq<Task>) {
    forall i :: 0 <= i < |tasks| ==> |tasks[i].points| > 0
  }

  /** `Math.max(...points)` for a non-empty row: an entry no other entry exceeds. */
  function MaxOf(points: seq<int>): (m: int)
    requires |points| > 0
    ensures m in points
    ensures forall j :: 0 <= j < |points| ==> points[j] <= m
  {
    if |points| == 1 then points[0]
    else
      var m := MaxOf(points[..|points| - 1]);
      assert m in points by {
        assert points == points[..|points| - 1] + [points[|points| - 1]];
      }
      if points[|points| - 1] > m then points[|points| - 1] else m
  }

  /** The peak of a row is the only entry that no other entry exceeds. */
  lemma MaxOfUnique(points: seq<int>, m: int)
    requires m in points
    requires forall j :: 0 <= j < |points| ==> points[j] <= m
    ensures MaxOf(points) == m
  {
  }

  /** True when no task records a negative point value on any day. */
  predicate NonNegativePoints(tasks: seq<Task>) {
    forall i, j :: 0 <= i < |tasks| && 0 <= j < |tasks[i].points| ==> tasks[i].points[j] >= 0
  }

  /**
   The sum of peaks that `idealPointsPerDay` divides: a left fold over the tasks,
   from the first to the last, adding each task's peak to a running total from 0.
   With no negative points the sum is not negative; with every peak zero it is zero.
   */
  function SumOfMaxima(tasks: seq<Task>): (sum: int)
    requires AllRowsNonEmpty(tasks)
    ensures NonNegativePoints(tasks) ==> sum >= 0
    ensures (forall i :: 0 <= i < |tasks| ==> MaxOf(tasks[i].points) == 0) ==> sum == 0
  {
    if tasks == [] then 0
    else SumOfMaxima(tasks[..|tasks| - 1]) + MaxOf(tasks[|tasks| - 1].points)
  }

  /** With no negative points, the sum of peaks is at least the peak of any one task. */
  lemma {:induction false} SumOfMaximaAtLeastPeak(tasks: seq<Task>, k: int)
    requires AllRowsNonEmpty(tasks) && NonNegativePoints(tasks)
    requires 0 <= k < |tasks|
    ensures MaxOf(tasks[k].points) <= SumOfMaxima(tasks)
  {
    var init := tasks[..|tasks| - 1];
    assert NonNegativePoints(init) by {
      forall i, j | 0 <= i < |init| && 0 <= j < |init[i].points| ensures init[i].points[j] >= 0 {
        assert init[i] == tasks[i];
      }
    }
    if k < |tasks| - 1 {
      assert init[k] == tasks[k];
      SumOfMaximaAtLeastPeak(init, k);
      var last := tasks[|tasks| - 1].points;
      assert last[0] >= 0;
    }
  }

  /** The sum of peaks over two lists joined is the sum of their sums. */
  lemma {:induction false} SumOfMaximaAppend(a: seq<Task>, b: seq<Task>)
    requires AllRowsNonEmpty(a) && AllRowsNonEmpty(b)
    ensures AllRowsNonEmpty(a + b)
    ensures SumOfMaxima(a + b) == SumOfMaxima(a) + SumOfMaxima(b)
    decreases |b|
  {
    if b == [] {
      assert a + b == a;
    } else {
      var init := b[..|b| - 1];
      assert (a + b)[..|a + b| - 1] == a + init;
      assert (a + b)[|a + b| - 1] == b[|b| - 1];
      SumOfMaximaAppend(a, init);
    }
  }

  /** The sum of the tasks' points on one day. */
  function DayTotal(tasks: seq<Task>, day: nat): int
    requires forall i :: 0 <= i < |tasks| ==> day < |tasks[i].points|
  {
    if tasks == [] then 0
    else DayTotal(tasks[..|tasks| - 1], day) + tasks[|tasks| - 1].points[day]
  }

  /**
   The ideal row starts from the sum of peaks, which is never below the points
   recorded on any single day.
   */
  lemma {:induction false} DayTotalAtMostSumOfMaxima(tasks: seq<Task>, day: nat)
    requires forall i :: 0 <= i < |tasks| ==> day < |tasks[i].points|
    ensures AllRowsNonEmpty(tasks)
    ensures DayTotal(tasks, day) <= SumOfMaxima(tasks)
  {
    if tasks != [] {
      DayTotalAtMostSumOfMaxima(tasks[..|tasks| - 1], day);
    }
  }

  /*
   The two methods below evaluate the peak and the sum of peaks the way the
   component's code runs them, as loops over the array and over the task list, and
   prove that they compute what the recursive definitions above define. The rest
   of the model reasons about the recursive definitions.
   */

  /** `Math.max(...points)` as the spread-argument loop evaluates it. */
  method RowPeak(points: seq<int>) returns (m: int)
    requires |points| > 0
    ensures m in points
    ensures forall j :: 0 <= j < |points| ==> points[j] <= m
  {
    m := points[0];
    var k := 1;
    while k < |points|
      invariant 1 <= k <= |points|
      invariant m in points[..k]
      invariant forall j :: 0 <= j < k ==> points[j] <= m
    {
      if points[k] > m {
        m := points[k];
      }
      k := k + 1;
    }
    assert points[..k] == points;
  }

  /** The `reduce` of line 72 as a loop: the running sum holds the peaks of the tasks seen so far. */
  method ReduceSumOfMaxima(tasks: seq<Task>) returns (sum: int)
    requires AllRowsNonEmpty(tasks)
    ensures sum == SumOfMaxima(tasks)
  {
    sum := 0;
    var i := 0;
    while i < |tasks|
      invariant 0 <= i <= |tasks|
      invariant sum == SumOfMaxima(tasks[..i])
    {
      var peak := RowPeak(tasks[i].points);
      MaxOfUnique(tasks[i].points, peak);
      assert tasks[..i + 1][..i] == tasks[..i];
      sum := sum + peak;
      i := i + 1;
    }
    assert tasks[..i] == tasks;
  }

  /**
   `idealPointsPerDay`: the sum of peaks divided by `totalDays`, i.e. the rate that,
   taken `totalDays` times, gives the sum of peaks.
   */
  function IdealPointsPerDay(peaks: int, totalDays: int): (rate: real)
    requires totalDays != 0
    ensures rate * totalDays as real == peaks as real
  {
    peaks as real / totalDays as real
  }

  /** `days - k` days' worth of the rate is the total less `k` days' worth. */
  lemma Ramp(days: real, k: real, rate: real, total: real)
    requires rate * days == total
    ensures (days - k) * rate == total - k * rate
  {
  }

  /**
   The "Ideal Burndown" row for a sum of peaks `peaks`, entry `i` being
   `(totalDays - i) * idealPointsPerDay`. It has one entry per day, none when
   `totalDays` is not positive (as `Array.from` clamps a negative length to 0), and it
   is a straight line: it starts from the sum of peaks and falls by the rate each day.
   */
  function IdealRow(peaks: int, totalDays: int): (row: seq<real>)
    ensures |row| == if totalDays > 0 then totalDays else 0
    ensures forall i :: 0 <= i < |row| ==>
              row[i] == peaks as real - i as real * IdealPointsPerDay(peaks, totalDays)
  {
    if totalDays <= 0 then []
    else
      var rate := IdealPointsPerDay(peaks, totalDays);
      var row := seq(totalDays, i requires 0 <= i < totalDays => (totalDays - i) as real * rate);
      assert forall i :: 0 <= i < |row| ==> row[i] == peaks as real - i as real * rate by {
        forall i | 0 <= i < |row| ensures row[i] == peaks as real - i as real * rate {
          Ramp(totalDays as real, i as real, rate, peaks as real);
        }
      }
      row
  }

  /** An entry of a ramp, scaled back by the day count, is its share of the total. */
  lemma Share(days: real, k: real, rate: real, total: real, e: real)
    requires rate * days == total
    requires e == total - k * rate
    ensures e * days == (days - k) * total
  {
  }

  /** Entry `i` is the share `(totalDays - i) / totalDays` of the sum of peaks. */
  lemma IdealRowShare(peaks: int, totalDays: int, i: int)
    requires 0 <= i < totalDays
    ensures IdealRow(peaks, totalDays)[i] * totalDays as real == (totalDays - i) as real * peaks as real
  {
    var e := IdealRow(peaks, totalDays)[i];
    Share(totalDays as real, i as real, IdealPointsPerDay(peaks, totalDays), peaks as real, e);
  }

  /** Day 0 of the ideal row is the sum of peaks. */
  lemma IdealRowStart(peaks: int, totalDays: int)
    requires totalDays > 0
    ensures IdealRow(peaks, totalDays)[0] == peaks as real
  {
  }

  /** Consecutive entries differ by exactly the rate. */
  lemma IdealRowStep(peaks: int, totalDays: int, i: int)
    requires 0 <= i < totalDays - 1
    ensures IdealRow(peaks, totalDays)[i] - IdealRow(peaks, totalDays)[i + 1]
         == IdealPointsPerDay(peaks, totalDays)
  {
  }

  /** The last entry is one day's worth: the rate itself. */
  lemma IdealRowEnd(peaks: int, totalDays: int)
    requires totalDays > 0
    ensures IdealRow(peaks, totalDays)[totalDays - 1] == IdealPointsPerDay(peaks, totalDays)
  {
    var rate := IdealPointsPerDay(peaks, totalDays);
    Ramp(totalDays as real, (totalDays - 1) as real, rate, peaks as real);
  }

  /** With a non-negative sum of peaks the row never rises and never drops below zero. */
  lemma IdealRowDescends(peaks: int, totalDays: int, i: int, j: int)
    requires peaks >= 0
    requires 0 <= i <= j < totalDays
    ensures 0.0 <= IdealRow(peaks, totalDays)[j] <= IdealRow(peaks, totalDays)[i]
  {
    var row := IdealRow(peaks, totalDays);
    var rate := IdealPointsPerDay(peaks, totalDays);
    Descend(totalDays as real, i as real, j as real, rate, peaks as real, row[i], row[j]);
  }

  /**
   On a ramp from a non-negative total down to one day's worth, a later day is no
   higher than an earlier one and no lower than zero.
   */
  lemma Descend(days: real, ki: real, kj: real, rate: real, total: real, ei: real, ej: real)
    requires rate * days == total && total >= 0.0
    requires 0.0 <= ki <= kj < days
    requires ei == total - ki * rate && ej == total - kj * rate
    ensures 0.0 <= ej <= ei
  {
    assert rate >= 0.0;
    assert (kj - ki) * rate >= 0.0;
    Ramp(days, kj, rate, total);
    assert (days - kj) * rate >= 0.0;
  }
}
