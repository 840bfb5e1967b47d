/**
 The task list of the burndown component and the state updates applied to it. Each
 `setTasks(...)` call of the component becomes a pure function from the old list to
 the new one; an update whose evaluation throws leaves the list as it was, so it is
 modelled as a `Result` carrying either the new list or the exception.
 */
module Tasks {
  import opened Js
  import Text
  import opened Dates

  /** The four values of the status selector. */
  datatype Status = Open | InDevelopment | Review | Done

  /** One row of the table: an id, a display name, a status and one point value per day. */
  datatype Task = Task(id: int, name: string, status: Status, points: seq<int>)

  /** True when no task in `tasks` carries `id`. */
  predicate IdAbsent(tasks: seq<Task>, id: int) {
    forall i :: 0 <= i < |tasks| ==> tasks[i].id != id
  }

  // ---------------------------------------------------------------------------
  // Adding a task
  // ---------------------------------------------------------------------------

  /**
   The day count that sizes a new task's points: `getDaysBetween(new Date(from),
   new Date(to))`. `new Date(undefined)` is an invalid date whose time is NaN, so a
   missing end yields NaN, written `None`.
   */
  function NewTaskDayCount(range: DateRange): (n: Option<int>)
    ensures n.Some? <==> range.from.Some? && range.to.Some?
    ensures n.Some? ==> n.value == TotalDays(range)
  {
    if range.from.Some? && range.to.Some? then Some(DaysBetween(range.from.value, range.to.value))
    else None
  }

  /**
   `addTask` with `name` typed into the input and `id` the value `Date.now()` gave.
   A blank name leaves the list alone. Otherwise a task is appended that is `Open`,
   keeps the name exactly as typed, and has one zero per day of the range; building
   that zero row throws a RangeError when the day count is missing, negative or too
   large, and then nothing is appended.
   */
  function AddTask(tasks: seq<Task>, range: DateRange, id: int, name: string): (r: Result<seq<Task>>)
    ensures Text.IsBlank(name) ==> r == Ok(tasks)
    ensures !Text.IsBlank(name) ==>
              (r.Ok? <==> range.from.Some? && range.to.Some? && 0 <= TotalDays(range) < ArrayLengthLimit)
    ensures r.Throw? ==> r.error == RangeError
    ensures !Text.IsBlank(name) && r.Ok? ==>
              && |r.value| == |tasks| + 1
              && r.value[..|tasks|] == tasks
              && r.value[|tasks|].id == id
              && r.value[|tasks|].name == name
              && r.value[|tasks|].status == Open
              && |r.value[|tasks|].points| == TotalDays(range)
              && AllZero(r.value[|tasks|].points)
  {
    if Text.IsBlank(name) then Ok(tasks)
    else
      match ZeroArray(NewTaskDayCount(range))
      case Ok(zeros) => Ok(tasks + [Task(id, name, Open, zeros)])
      case Throw(e) => Throw(e)
  }

  // ---------------------------------------------------------------------------
  // Deleting a task
  // ---------------------------------------------------------------------------

  /**
   `deleteTask(id)`, a filter of the list: the tasks whose id differs from `id`, in
   their original order. Nothing changes when no task has
   that id.
   */
  function DeleteTask(tasks: seq<Task>, id: int): (r: seq<Task>)
    ensures forall t :: t in r <==> t in tasks && t.id != id
    ensures |r| <= |tasks|
    ensures IdAbsent(r, id)
    ensures IdAbsent(tasks, id) ==> r == tasks
  {
    if tasks == [] then []
    else
      var init, last := tasks[..|tasks| - 1], tasks[|tasks| - 1];
      assert tasks == init + [last];
      if last.id != id then DeleteTask(init, id) + [last] else DeleteTask(init, id)
  }

  /** Deleting an id twice is the same as deleting it once. */
  lemma DeleteTaskIdempotent(tasks: seq<Task>, id: int)
    ensures DeleteTask(DeleteTask(tasks, id), id) == DeleteTask(tasks, id)
  {
  }

  /**
   Deleting distributes over concatenation, so every task keeps its position relative
   to the other survivors: the filter never reorders.
   */
  lemma {:induction false} DeleteTaskAppend(a: seq<Task>, b: seq<Task>, id: int)
    ensures DeleteTask(a + b, id) == DeleteTask(a, id) + DeleteTask(b, id)
    decreases |b|
  {
    if b == [] {
      assert a + b == a;
    } else {
      var init, last := b[..|b| - 1], b[|b| - 1];
      assert a + b == (a + init) + [last];
      assert (a + b)[..|a + b| - 1] == a + init;
      DeleteTaskAppend(a, init, id);
    }
  }

  /** A single task survives exactly when its id differs. */
  lemma DeleteTaskSingle(t: Task, id: int)
    ensures DeleteTask([t], id) == if t.id != id then [t] else []
  {
    assert [t][..0] == [];
  }

  /** The number of tasks in `tasks` carrying `id`. */
  function CountId(tasks: seq<Task>, id: int): nat {
    if tasks == [] then 0
    else CountId(tasks[..|tasks| - 1], id) + (if tasks[|tasks| - 1].id == id then 1 else 0)
  }

  /** Deleting removes exactly the tasks carrying the id, duplicates included. */
  lemma {:induction false} DeleteTaskCount(tasks: seq<Task>, id: int)
    ensures |DeleteTask(tasks, id)| == |tasks| - CountId(tasks, id)
  {
    if tasks != [] {
      DeleteTaskCount(tasks[..|tasks| - 1], id);
    }
  }

  // ---------------------------------------------------------------------------
  // Editing one day's points
  // ---------------------------------------------------------------------------

  /**
   One row with day `day` replaced by `v`. The source maps over the existing indices
   only, so an index outside the row changes nothing and the length never changes.
   */
  function SetDay(points: seq<int>, day: int, v: int): (r: seq<int>)
    ensures |r| == |points|
    ensures 0 <= day < |points| ==> r == points[day := v]
    ensures !(0 <= day < |points|) ==> r == points
  {
    seq(|points|, i requires 0 <= i < |points| => if i == day then v else points[i])
  }

  /**
   `updateTaskPoints(id, day, v)`: in every task carrying `id`, day `day` becomes `v`.
   Every other task, every other day, every id, name, status and row length is kept.
   */
  function UpdateTaskPoints(tasks: seq<Task>, id: int, day: int, v: int): (r: seq<Task>)
    ensures |r| == |tasks|
    ensures forall i :: 0 <= i < |tasks| ==>
              && r[i].id == tasks[i].id
              && r[i].name == tasks[i].name
              && r[i].status == tasks[i].status
              && |r[i].points| == |tasks[i].points|
    ensures forall i :: 0 <= i < |tasks| && (tasks[i].id != id || !(0 <= day < |tasks[i].points|)) ==>
              r[i] == tasks[i]
    ensures forall i, j :: 0 <= i < |tasks| && 0 <= j < |tasks[i].points| && j != day ==>
              r[i].points[j] == tasks[i].points[j]
    ensures forall i :: 0 <= i < |tasks| && tasks[i].id == id && 0 <= day < |tasks[i].points| ==>
              r[i].points[day] == v
  {
    seq(|tasks|, i requires 0 <= i < |tasks| =>
      if tasks[i].id == id then tasks[i].(points := SetDay(tasks[i].points, day, v)) else tasks[i])
  }

  /** A day index outside every row, a negative one in particular, changes nothing. */
  lemma UpdateTaskPointsOutOfRange(tasks: seq<Task>, id: int, day: int, v: int)
    requires forall i :: 0 <= i < |tasks| ==> !(0 <= day < |tasks[i].points|)
    ensures UpdateTaskPoints(tasks, id, day, v) == tasks
  {
  }

  /** Editing the same cell twice keeps only the second value. */
  lemma UpdateTaskPointsLastWins(tasks: seq<Task>, id: int, day: int, v1: int, v2: int)
    ensures UpdateTaskPoints(UpdateTaskPoints(tasks, id, day, v1), id, day, v2)
         == UpdateTaskPoints(tasks, id, day, v2)
  {
    var a := UpdateTaskPoints(UpdateTaskPoints(tasks, id, day, v1), id, day, v2);
    var b := UpdateTaskPoints(tasks, id, day, v2);
    forall i | 0 <= i < |tasks| ensures a[i] == b[i] {
      assert a[i].points == b[i].points;
    }
  }

  /** Edits of two different days commute. */
  lemma UpdateTaskPointsCommute(tasks: seq<Task>, id1: int, day1: int, v1: int, id2: int, day2: int, v2: int)
    requires day1 != day2
    ensures UpdateTaskPoints(UpdateTaskPoints(tasks, id1, day1, v1), id2, day2, v2)
         == UpdateTaskPoints(UpdateTaskPoints(tasks, id2, day2, v2), id1, day1, v1)
  {
    var a := UpdateTaskPoints(UpdateTaskPoints(tasks, id1, day1, v1), id2, day2, v2);
    var b := UpdateTaskPoints(UpdateTaskPoints(tasks, id2, day2, v2), id1, day1, v1);
    forall i | 0 <= i < |tasks| ensures a[i] == b[i] {
      assert a[i].points == b[i].points;
    }
  }

  // ---------------------------------------------------------------------------
  // Changing a status
  // ---------------------------------------------------------------------------

  /**
   `updateTaskStatus(id, s)`: every task carrying `id` gets status `s`; the list
   length and order, and every id, name and points row, are kept.
   */
  function UpdateTaskStatus(tasks: seq<Task>, id: int, s: Status): (r: seq<Task>)
    ensures |r| == |tasks|
    ensures forall i :: 0 <= i < |tasks| ==>
              && r[i].id == tasks[i].id
              && r[i].name == tasks[i].name
              && r[i].points == tasks[i].points
              && r[i].status == (if tasks[i].id == id then s else tasks[i].status)
    ensures IdAbsent(tasks, id) ==> r == tasks
  {
    seq(|tasks|, i requires 0 <= i < |tasks| =>
      if tasks[i].id == id then tasks[i].(status := s) else tasks[i])
  }

  /** Setting the status twice keeps only the second status. */
  lemma UpdateTaskStatusLastWins(tasks: seq<Task>, id: int, s1: Status, s2: Status)
    ensures UpdateTaskStatus(UpdateTaskStatus(tasks, id, s1), id, s2) == UpdateTaskStatus(tasks, id, s2)
  {
  }

  // ---------------------------------------------------------------------------
  // Resetting the points when the range changes
  // ---------------------------------------------------------------------------

  /**
   The effect run when the range changes: every task's points become a fresh all-zero
   row of the new day count (earlier values are not kept). The day count is computed
   inside the per-task callback, so an empty list never throws; otherwise a missing
   start throws a TypeError (`getTime` of `undefined`) and a missing end, negative or
   too large count throws a RangeError from `Array(...)`.
   */
  function ResetPoints(tasks: seq<Task>, range: DateRange): (r: Result<seq<Task>>)
    ensures tasks == [] ==> r == Ok([])
    ensures tasks != [] ==>
              (r.Ok? <==> range.from.Some? && range.to.Some? && 0 <= TotalDays(range) < ArrayLengthLimit)
    ensures tasks != [] && range.from.None? ==> r == Throw(TypeError)
    ensures range.from.Some? && r.Throw? ==> r.error == RangeError
    ensures r.Ok? ==>
              && |r.value| == |tasks|
              && forall i :: 0 <= i < |tasks| ==>
                   && r.value[i].id == tasks[i].id
                   && r.value[i].name == tasks[i].name
                   && r.value[i].status == tasks[i].status
                   && |r.value[i].points| == TotalDays(range)
                   && AllZero(r.value[i].points)
  {
    if tasks == [] then Ok([])
    else if range.from.None? then Throw(TypeError)
    else
      match ZeroArray(NewTaskDayCount(range))
      case Ok(zeros) => Ok(seq(|tasks|, i requires 0 <= i < |tasks| => tasks[i].(points := zeros)))
      case Throw(e) => Throw(e)
  }
}
