/**
 The burndown component as a whole: its state is a date range and a task list, and
 every task-list update that does not throw keeps two invariants the table relies
 on — each task has one point value per day of the range, and no two tasks share an
 id (given that the id handed to an added task is fresh). A range change whose reset
 throws leaves the old rows under the new range; the table is still drawn from that
 state, so the ideal row is defined for it too.
 */
module Burndown {
  import opened Js
  import opened Dates
  import opened Tasks
  import opened Ideal

  /** Every task has exactly one points entry per day of the range. */
  predicate PointsMatchRange(tasks: seq<Task>, range: DateRange) {
    forall i :: 0 <= i < |tasks| ==> |tasks[i].points| == TotalDays(range)
  }

  /** No two tasks carry the same id. */
  predicate UniqueIds(tasks: seq<Task>) {
    forall i, j :: 0 <= i < j < |tasks| ==> tasks[i].id != tasks[j].id
  }

  /**
   The state the component starts in: the initial range and no tasks. With no clock
   drift between the two reads and no offset change the range spans exactly 14 days.
   */
  lemma InitialStateConsistent(now: int)
    ensures PointsMatchRange([], InitialRange(now, now, 0)) && UniqueIds([])
    ensures TotalDays(InitialRange(now, now, 0)) == 14
  {
  }

  /** Adding a task keeps both invariants, uniqueness when the new id is fresh. */
  lemma AddTaskPreserves(tasks: seq<Task>, range: DateRange, id: int, name: string)
    requires PointsMatchRange(tasks, range)
    requires AddTask(tasks, range, id, name).Ok?
    ensures PointsMatchRange(AddTask(tasks, range, id, name).value, range)
    ensures UniqueIds(tasks) && IdAbsent(tasks, id) ==> UniqueIds(AddTask(tasks, range, id, name).value)
  {
    var r := AddTask(tasks, range, id, name).value;
    if r != tasks {
      assert r[..|tasks|] == tasks;
      assert forall i :: 0 <= i < |tasks| ==> r[i] == tasks[i];
    }
  }

  /** Deleting a task keeps every remaining row sized to the range. */
  lemma DeleteTaskPreservesPoints(tasks: seq<Task>, range: DateRange, id: int)
    requires PointsMatchRange(tasks, range)
    ensures PointsMatchRange(DeleteTask(tasks, id), range)
  {
    var r := DeleteTask(tasks, id);
    forall i | 0 <= i < |r| ensures |r[i].points| == TotalDays(range) {
      assert r[i] in tasks;
    }
  }

  /** Deleting a task never makes two ids equal. */
  lemma {:induction false} DeleteTaskPreservesUniqueIds(tasks: seq<Task>, id: int)
    requires UniqueIds(tasks)
    ensures UniqueIds(DeleteTask(tasks, id))
  {
    if tasks != [] {
      var init, last := tasks[..|tasks| - 1], tasks[|tasks| - 1];
      assert UniqueIds(init);
      DeleteTaskPreservesUniqueIds(init, id);
      var rest := DeleteTask(init, id);
      forall i | 0 <= i < |rest| ensures rest[i].id != last.id {
        assert rest[i] in init;
      }
    }
  }

  /** Editing a day keeps every row length and every id. */
  lemma UpdateTaskPointsPreserves(tasks: seq<Task>, range: DateRange, id: int, day: int, v: int)
    ensures PointsMatchRange(tasks, range) ==> PointsMatchRange(UpdateTaskPoints(tasks, id, day, v), range)
    ensures UniqueIds(tasks) ==> UniqueIds(UpdateTaskPoints(tasks, id, day, v))
  {
  }

  /** Changing a status keeps every row and every id. */
  lemma UpdateTaskStatusPreserves(tasks: seq<Task>, range: DateRange, id: int, s: Status)
    ensures PointsMatchRange(tasks, range) ==> PointsMatchRange(UpdateTaskStatus(tasks, id, s), range)
    ensures UniqueIds(tasks) ==> UniqueIds(UpdateTaskStatus(tasks, id, s))
  {
  }

  /**
   Whatever the rows looked like before, a range change that does not throw leaves
   every row sized to the new range, and keeps the ids.
   */
  lemma ResetPointsEstablishes(tasks: seq<Task>, range: DateRange)
    requires ResetPoints(tasks, range).Ok?
    ensures PointsMatchRange(ResetPoints(tasks, range).value, range)
    ensures UniqueIds(tasks) ==> UniqueIds(ResetPoints(tasks, range).value)
  {
  }

  /**
   A reset throws only when there is a task to reset and the new range has no valid
   day count: a date is missing, or the count is negative or beyond the array limit
   (the last only for timestamps further apart than JavaScript dates can be). A reset
   to a range with a positive, representable day count always succeeds.
   */
  lemma ResetPointsThrowsOnlyOnBadCount(tasks: seq<Task>, range: DateRange)
    ensures ResetPoints(tasks, range).Throw? ==>
              tasks != [] && (range.from.None? || range.to.None? || TotalDays(range) < 0 || TotalDays(range) >= ArrayLengthLimit)
    ensures ResetPoints(tasks, range).Throw? ==> TotalDays(range) <= 0 || TotalDays(range) >= ArrayLengthLimit
  {
  }

  /**
   The "Ideal Burndown" row for the current state, `totalDays` taken from the range.
   It needs a peak for every task only when there is a day to show. That holds for
   rows sized to the range (`IdealBurndownDefinedForConsistentState`) and for the
   old rows a failed reset leaves behind (such a range shows no day unless its count
   is beyond the array limit, which real dates never reach). It does not hold in
   the state drawn just before a reset runs when the old rows are empty, as after a
   range of zero days (`EmptyRowsUnderPositiveRange`); there the source shows
   -Infinity in every cell, which this function does not cover.
   */
  function IdealBurndown(tasks: seq<Task>, range: DateRange): (row: seq<real>)
    requires TotalDays(range) > 0 ==> AllRowsNonEmpty(tasks)
    ensures |row| == if TotalDays(range) > 0 then TotalDays(range) else 0
    ensures range.from.None? || range.to.None? ==> row == []
    ensures TotalDays(range) > 0 ==>
              var peaks := SumOfMaxima(tasks);
              forall i :: 0 <= i < |row| ==> row[i] == peaks as real - i as real * IdealPointsPerDay(peaks, TotalDays(range))
  {
    var days := TotalDays(range);
    if days <= 0 then []
    else
      var peaks := SumOfMaxima(tasks);
      var row := IdealRow(peaks, days);
      assert forall i :: 0 <= i < |row| ==> row[i] == peaks as real - i as real * IdealPointsPerDay(peaks, days);
      row
  }

  /** Rows sized to the range give every task a peak whenever the range has a day. */
  lemma IdealBurndownDefinedForConsistentState(tasks: seq<Task>, range: DateRange)
    requires PointsMatchRange(tasks, range)
    ensures TotalDays(range) > 0 ==> AllRowsNonEmpty(tasks)
  {
  }

  /**
   Empty rows can meet a range with days to show: a reset to a range of zero days
   empties every row, and the next range change is drawn with those rows before its
   own reset runs. Then `Math.max` has no argument for any task.
   */
  lemma EmptyRowsUnderPositiveRange(s: int)
    ensures
      var emptied := ResetPoints([Task(1, "A", Open, [0, 0])], DateRange(Some(s), Some(s)));
      var next := DateRange(Some(s), Some(s + 3 * MillisPerDay));
      && emptied == Ok([Task(1, "A", Open, [])])
      && TotalDays(next) == 3
      && !AllRowsNonEmpty(emptied.value)
  {
    var emptied := ResetPoints([Task(1, "A", Open, [0, 0])], DateRange(Some(s), Some(s)));
    DaysBetweenWholeDays(s, 0);
    assert emptied.Ok? && |emptied.value| == 1;
    assert emptied.value[0] == Task(1, "A", Open, []);
    assert emptied.value == [Task(1, "A", Open, [])];
    DaysBetweenWholeDays(s, 3);
  }

  /**
   A four-day sprint with two tasks peaking at 5 and 3 burns 2 points a day:
   the ideal row is 8, 6, 4, 2.
   */
  lemma FourDayExample(start: int)
    ensures
      var range := DateRange(Some(start), Some(start + 4 * MillisPerDay));
      var tasks := [Task(1, "A", Open, [5, 1, 0, 0]), Task(2, "B", Review, [0, 3, 2, 0])];
      && PointsMatchRange(tasks, range)
      && IdealBurndown(tasks, range) == [8.0, 6.0, 4.0, 2.0]
  {
    var range := DateRange(Some(start), Some(start + 4 * MillisPerDay));
    var tasks := [Task(1, "A", Open, [5, 1, 0, 0]), Task(2, "B", Review, [0, 3, 2, 0])];
    DaysBetweenWholeDays(start, 4);
    assert TotalDays(range) == 4;
    MaxOfUnique([5, 1, 0, 0], 5);
    MaxOfUnique([0, 3, 2, 0], 3);
    assert tasks[..1][..0] == [];
    assert SumOfMaxima(tasks) == 8;
    var row := IdealBurndown(tasks, range);
    assert |row| == 4;
    forall i | 0 <= i < 4 ensures row[i] == [8.0, 6.0, 4.0, 2.0][i] {
      IdealRowShare(8, 4, i);
    }
  }
}
