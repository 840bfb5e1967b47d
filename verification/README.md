# Sprint burndown tool — a Dafny model

This project models the logic of `BurndownToolComponent`, a client-side sprint
burndown widget. The user picks a sprint date range, keeps a list of tasks, and enters
a point value per task per day. The table ends with an "Ideal Burndown" row. That row
starts at the sum of each task's peak point value and falls by a fixed daily rate (in
exact arithmetic).

The component's React state becomes plain values: a `DateRange` and a `seq<Task>`.
Each `setTasks(...)` call becomes a pure function from the old list to the new one.
Dates are millisecond timestamps (`int`). An update whose evaluation throws is
modelled as a `Result` that is either the new list or the JavaScript exception. In
that case the list stays as it was. This is what happens when `addTask`, an event
handler, throws: React reports the error and the component keeps its state. The
reset on a range change runs in a `useEffect`, after the component has already been
drawn with the new range and the old rows. An error thrown there is not caught by
the component, and React then removes the whole tree. The model records such a reset
as a `Throw` and keeps the state it was applied to, which is the state last drawn; it
does not model the removal itself.

Modules, one per concern of `src/components/burndown-tool.tsx`:

- `Js` (`js.dfy`): `undefined` as `Option`, thrown exceptions as `Result`, and
  `Array(n).fill(0)`. That call throws a RangeError unless `n` is a valid array length.
- `Text` (`text.dfy`): `String.prototype.trim`, used by the blank-name guard.
- `Dates` (`dates.dfy`): `getDaysBetween` (a ceiling division by 86 400 000 ms),
  `totalDays`, and the initial fourteen-day range.
- `Tasks` (`tasks.dfy`): the `Task` record and the five list updates: add, delete,
  edit a day's points, change the status, and reset the points on a range change.
- `Ideal` (`ideal.dfy`): each task's peak, the sum of peaks (the `reduce` of line 72),
  `idealPointsPerDay`, and the ideal row. The rate and the row are exact `real`s, and
  they are stated over the sum of peaks as a plain number.
- `Burndown` (`burndown.dfy`): the two state invariants and the proof that every update
  that does not throw keeps them. Every row has one entry per day of the range, and ids
  are unique. A range change whose reset throws leaves the old rows under the new
  range; the module proves that this happens only for a range with no valid day count,
  and defines the ideal row of a state for that case too. It also holds a worked
  four-day example.

Points of the code that the model settles:

- The code refers to an undeclared `endDate` (lines 32, 34, 42, 92-93) and to
  `setDate.from` (line 83). The model uses the range's `to` field as the end date
  everywhere, as line 71 does.
- On a range change the code (lines 30-33) replaces every row with a fresh all-zero
  row, so values entered on days that still exist are lost. `ResetPoints` models that.
- Nothing rejects an end before the start, and nothing special-cases a zero-day
  range. With the end a day or more before the start, the day count is negative,
  `Array(...)` throws a RangeError, and the add or the reset is lost. For a range of
  zero days or fewer the ideal row is empty.
- With an empty task list, the reset never evaluates the day count, because that
  happens inside the per-task callback. So it cannot throw. With tasks present, a
  missing start throws a TypeError (`getTime` on `undefined`). A missing end gives
  `new Date(undefined)`, whose time is NaN, so `Array(NaN)` throws a RangeError.

## Model

| member | source | states |
|---|---|---|
| Js.ZeroArray | src/components/burndown-tool.tsx:42 | `Array(n).fill(0)` succeeds exactly for 0 <= n < 2^32 and then gives n zeros; a NaN, negative or too large n throws a RangeError |
| Text.IsWhiteSpace | src/components/burndown-tool.tsx:37 | on ASCII, exactly tab, line feed, vertical tab, form feed, carriage return and space count as white space for `trim` |
| Text.IsBlank | src/components/burndown-tool.tsx:37 | a name is rejected by the add-task guard exactly when every character is white space |
| Text.Trim | src/components/burndown-tool.tsx:37 | trimming gives the empty string exactly when every character is JavaScript white space, and otherwise a string that starts and ends with a non-white-space character |
| Text.TrimStart | src/components/burndown-tool.tsx:37 | removing leading white space leaves a suffix of the name, every removed character is white space, and the rest does not start with white space |
| Text.TrimEnd | src/components/burndown-tool.tsx:37 | removing trailing white space leaves a prefix of the name, every removed character is white space, and the rest does not end with white space |
| Dates.CeilDiv | src/components/burndown-tool.tsx:54 | `Math.ceil(n / d)` is the integer q with (q - 1) * d < n <= q * d |
| Dates.CeilDivUnique | src/components/burndown-tool.tsx:54 | that bracketing determines the ceiling uniquely |
| Dates.DaysBetween | src/components/burndown-tool.tsx:53-55 | the day count brackets the millisecond span: (days - 1) * 86400000 < end - start <= days * 86400000 |
| Dates.DaysBetweenWholeDays | src/components/burndown-tool.tsx:53-55 | a span of exactly k days gives k, the exact quotient |
| Dates.DaysBetweenPartialDay | src/components/burndown-tool.tsx:53-55 | any positive span up to one day counts as one whole day |
| Dates.DaysBetweenMonotone | src/components/burndown-tool.tsx:53-55 | a later end never gives fewer days |
| Dates.TotalDays | src/components/burndown-tool.tsx:71 | `totalDays` is 0 when either date is missing, and otherwise the ceiling day count from `from` to `to` |
| Dates.DaysBetweenShift | src/components/burndown-tool.tsx:53-55 | moving the end by k whole days moves the day count by exactly k |
| Dates.DaysBetweenWithinDayBefore | src/components/burndown-tool.tsx:53-55 | an end at the start or less than a day before it gives zero days |
| Dates.InitialRange | src/components/burndown-tool.tsx:21-24 | the initial range starts at the first clock read and spans 14 days plus the day count of the drift between the two clock reads and the local-offset change; a drift within a day gives 14 days when it is not positive and 15 when it is |
| Tasks.NewTaskDayCount | src/components/burndown-tool.tsx:42 | the new task's day count is NaN when either date is missing, and otherwise equals `totalDays` |
| Tasks.AddTask | src/components/burndown-tool.tsx:36-47 | a blank name leaves the list unchanged; otherwise the add succeeds exactly when both dates are set and the day count is a valid array length, and it appends one `Open` task with the given id and untrimmed name and a zero row of `totalDays` entries, with the earlier tasks unchanged and in order; a failure is a RangeError |
| Tasks.DeleteTask | src/components/burndown-tool.tsx:49-51 | a task is kept exactly when its id differs; no kept task has the id; with the id absent the list is unchanged |
| Tasks.DeleteTaskIdempotent | src/components/burndown-tool.tsx:49-51 | deleting twice equals deleting once |
| Tasks.DeleteTaskAppend | src/components/burndown-tool.tsx:49-51 | deleting distributes over concatenation, so the survivors keep their relative order |
| Tasks.DeleteTaskSingle | src/components/burndown-tool.tsx:50 | a single task survives exactly when its id differs |
| Tasks.DeleteTaskCount | src/components/burndown-tool.tsx:49-51 | the list shrinks by exactly the number of tasks carrying the id |
| Tasks.SetDay | src/components/burndown-tool.tsx:60 | the row becomes `points[day := v]` when `day` is an index of the row, and is unchanged otherwise; its length never changes |
| Tasks.UpdateTaskPoints | src/components/burndown-tool.tsx:57-63 | only day `day` of tasks carrying the id changes, to `v`; every id, name, status, row length, other task and other day is kept; an out-of-range day leaves the task unchanged |
| Tasks.UpdateTaskPointsOutOfRange | src/components/burndown-tool.tsx:57-63 | a day index outside every row changes nothing |
| Tasks.UpdateTaskPointsLastWins | src/components/burndown-tool.tsx:57-63 | writing the same cell twice keeps only the second value |
| Tasks.UpdateTaskPointsCommute | src/components/burndown-tool.tsx:57-63 | writes to two different days commute |
| Tasks.UpdateTaskStatus | src/components/burndown-tool.tsx:65-69 | tasks carrying the id get the new status and all others keep theirs; length, order, ids, names and points rows are kept; an absent id changes nothing |
| Tasks.UpdateTaskStatusLastWins | src/components/burndown-tool.tsx:65-69 | setting the status twice keeps only the second status |
| Tasks.ResetPoints | src/components/burndown-tool.tsx:28-34 | an empty list never throws; otherwise the reset succeeds exactly when both dates are set and the day count is a valid array length, a missing start throwing a TypeError and every other failure a RangeError; on success length, order, ids, names and statuses are kept and every row becomes `totalDays` zeros |
| Ideal.MaxOf | src/components/burndown-tool.tsx:72 | `Math.max(...points)` of a non-empty row is an entry of the row that no entry exceeds |
| Ideal.MaxOfUnique | src/components/burndown-tool.tsx:72 | the peak is the only such entry |
| Ideal.SumOfMaxima | src/components/burndown-tool.tsx:72 | the `reduce` sum of peaks is not negative when no point value is, and is 0 when every peak is 0 |
| Ideal.SumOfMaximaAtLeastPeak | src/components/burndown-tool.tsx:72 | with no negative point value, the sum of peaks is at least the peak of every single task |
| Ideal.SumOfMaximaAppend | src/components/burndown-tool.tsx:72 | the sum of peaks over two joined lists is the sum of their sums |
| Ideal.DayTotalAtMostSumOfMaxima | src/components/burndown-tool.tsx:72 | the sum of peaks is at least the total recorded on any single day |
| Ideal.RowPeak | src/components/burndown-tool.tsx:72 | the loop computing `Math.max(...points)` returns an entry of the row that no entry exceeds |
| Ideal.ReduceSumOfMaxima | src/components/burndown-tool.tsx:72 | the `reduce` loop adding each task's peak to a running sum yields the sum of peaks |
| Ideal.IdealPointsPerDay | src/components/burndown-tool.tsx:72 | the rate, taken `totalDays` times, gives the sum of peaks |
| Ideal.IdealRow | src/components/burndown-tool.tsx:162-163 | the row has `max(totalDays, 0)` entries and is a straight line: entry i is the sum of peaks minus i times the rate |
| Ideal.IdealRowShare | src/components/burndown-tool.tsx:162-163 | entry i is the share (totalDays - i) / totalDays of the sum of peaks: times `totalDays` it equals `totalDays - i` times the sum |
| Ideal.IdealRowStart | src/components/burndown-tool.tsx:162-163 | entry 0 is the sum of peaks |
| Ideal.IdealRowStep | src/components/burndown-tool.tsx:162-163 | consecutive entries differ by exactly the rate |
| Ideal.IdealRowEnd | src/components/burndown-tool.tsx:162-163 | the last entry equals the rate |
| Ideal.IdealRowDescends | src/components/burndown-tool.tsx:162-163 | with a non-negative sum of peaks, the row never rises and never drops below zero |
| Burndown.InitialStateConsistent | src/components/burndown-tool.tsx:21-25 | the initial state (no tasks; with both clock reads equal and no offset change, a range of exactly fourteen days) satisfies both invariants |
| Burndown.AddTaskPreserves | src/components/burndown-tool.tsx:36-47 | a successful add keeps every row sized to the range, and keeps ids unique when the new id is fresh |
| Burndown.DeleteTaskPreservesPoints | src/components/burndown-tool.tsx:49-51 | deleting keeps every remaining row sized to the range |
| Burndown.DeleteTaskPreservesUniqueIds | src/components/burndown-tool.tsx:49-51 | deleting keeps ids unique |
| Burndown.UpdateTaskPointsPreserves | src/components/burndown-tool.tsx:57-63 | editing a day keeps both invariants |
| Burndown.UpdateTaskStatusPreserves | src/components/burndown-tool.tsx:65-69 | changing a status keeps both invariants |
| Burndown.ResetPointsEstablishes | src/components/burndown-tool.tsx:28-34 | a reset that does not throw sizes every row to the new range, whatever the rows were before, and keeps ids unique |
| Burndown.ResetPointsThrowsOnlyOnBadCount | src/components/burndown-tool.tsx:28-34 | a reset throws only with tasks present and a missing date or a day count that is negative or at least 2^32, so after a failed reset the range shows no day unless its count is beyond the array limit, which real dates never reach |
| Burndown.IdealBurndown | src/components/burndown-tool.tsx:71-72 | defined whenever every task has a peak on a range with a day to show, which covers the state a failed reset leaves; the row has `max(totalDays, 0)` entries, is empty when a date is missing, and entry i is the sum of peaks minus i times the rate |
| Burndown.IdealBurndownDefinedForConsistentState | src/components/burndown-tool.tsx:71-72 | in a state whose rows match the range every task has a peak whenever the range has a day to show |
| Burndown.EmptyRowsUnderPositiveRange | src/components/burndown-tool.tsx:28-34 | a reset to a zero-day range empties every row, and those empty rows then meet a three-day range, so not every task has a peak while the range has days to show |
| Burndown.FourDayExample | src/components/burndown-tool.tsx:162-163 | a four-day range with two tasks peaking at 5 and 3 gives the ideal row 8, 6, 4, 2 |

## Left out

- Rendering: the JSX table, the `Select`, `Input` and `Button` widgets, and the `.toFixed(1)` display formatting (lines 74-170). These are presentation only.
- The task-name input's own state (lines 26, 45, 99-104). It is a UI field that is cleared after an add. The model takes the typed name as a parameter of `AddTask`.
- React scheduling: `useState` and `useEffect`. Each setter is a pure old-to-new function. The effect's dependency comparison is not modelled: every range change is taken to run the reset.
- `Date.now()` as the new task's id (line 39). It depends on the clock and need not be unique, so the id is a parameter. Uniqueness is proved only when the caller passes a fresh id.
- `Date` objects and `addDays` (line 23). Dates are integer millisecond timestamps.
- Dates.InitialRange: the two `new Date()` reads of lines 22-23 and the change of the local UTC offset across the fourteen days that `addDays` keeps wall-clock time through are parameters; the model does not compute them from a clock or a time zone.
- Floating point. Point values are integers: the fractional values and NaN that `Number(e.target.value)` can produce are not modelled. The day count is the exact ceiling of an integer quotient. A span is a whole number of milliseconds, so a quotient that is not whole is at least 1/86 400 000 away from every integer, and correctly rounded IEEE division keeps it off that integer while the quotient is below 2^53 / 86 400 000, about 1.04 × 10^8 days (some 285,000 years). The subtraction of two timestamps is exact below 2^53 ms. Both bounds are far beyond any sprint, and the model does not represent what happens past them. The rate and the ideal row are exact rationals, while the source rounds the `/` of line 72 and the `*` of line 163 to doubles (1 point over 49 days gives entry 0 as `49 * (1 / 49)`, which is 0.9999999999999999, not 1). The properties of `Ideal.IdealPointsPerDay`, `Ideal.IdealRow` and its lemmas, and `Burndown.IdealBurndown` therefore describe the exact values; the one-decimal `.toFixed(1)` display usually, but not always, shows the same.
- The uncaught error of a failed reset: React then removes the component, which the model does not represent; it keeps the state the reset was applied to.
- `src/components/ui/date-picker.tsx` and `src/app/layout.tsx` are not part of this model. They wrap calendar widgets and page metadata and hold no logic of this component.
- Ideal.IdealPointsPerDay: requires `totalDays != 0`. At 0 the source divides by zero and produces NaN or Infinity, which the model does not represent.
- Ideal.MaxOf: requires a non-empty row. `Math.max()` of no arguments is `-Infinity`, which is not modelled.
- Ideal.SumOfMaxima: requires every task to have a non-empty row. In a state that keeps the row-size invariant, this holds whenever `totalDays > 0`, which is when the sum reaches the row (line 72 computes it on every draw, and with an empty row it yields `-Infinity` without throwing); `Burndown.IdealBurndown` requires no more than that.
- Ideal.RowPeak: requires a non-empty row. `Math.max(...[])` is `-Infinity`, which is not modelled.
- Ideal.ReduceSumOfMaxima: requires every task to have a non-empty row. With an empty row the `reduce` of line 72 adds `-Infinity`, which is not modelled.
- Burndown.IdealBurndown: requires every task to have a non-empty row when the range has a day to show. The state drawn with a new range before its reset runs breaks this when the old rows are empty, after a range of zero days or a task added during one (`Burndown.EmptyRowsUnderPositiveRange`). There the source divides `-Infinity` by the day count and shows `-Infinity` in every cell of lines 162-163; that row is not modelled.
- Array lengths of the ideal row: timestamps are unbounded integers, so the model admits day counts of 2^32 and more, for which `Array.from({ length: totalDays })` (lines 112 and 162) would throw a RangeError; `Ideal.IdealRow` and `Burndown.IdealBurndown` return a row there instead. JavaScript time values lie within ±8.64 × 10^15 ms, so two real dates are never more than 2 × 10^8 days apart and this case, like the upper limit of `Js.ZeroArray`, never arises in the program.
