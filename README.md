# Teacher attendance view — Dafny model

This project models the logic of the teacher attendance screen of a school-management admin
panel (`TeacherViewAttendance.jsx`). The screen fetches a report for a date range. The report
holds a list of calendar days (`weekdays`, each with an optional `holiday_for` label) and a
list of teachers. Each teacher carries a name, a `teacher_ref`, and two parallel arrays,
`id` and `attendance_dates`: the record `id[i]` marks the teacher absent on
`attendance_dates[i]`. The screen draws one table per month, with a "P" or "A" cell per
teacher and day and one merged cell per holiday. Clicking a cell toggles the teacher's status:
it deletes or creates an absence record and then fetches the report again.

The model has six modules in five files:

- `AttendanceTypes` (`AttendanceTypes.dfy`): the report's data and JavaScript's truthiness of
  `holiday_for`. `ArrayOps` in the same file holds `Array.prototype.indexOf`.
- `ToggleDecision` (`ToggleDecision.dfy`): the choice `toggleAttendance` makes before it sends
  anything: skip a holiday, delete the record at the date's first position, or create one.
- `MonthGrouping` (`MonthGrouping.dfy`): the `reduce` that buckets days by month, as a method
  with loops over a dictionary and its key order, proved equal to a specification whose
  partition and ordering properties are proved as lemmas.
- `CellLayout` (`CellLayout.dfy`): the cell each teacher row emits for each day. The proofs say
  which day each cell stands for: the first row holds one cell per day, at that day's position;
  a later row holds the "P"/"A" cells of the working days, in order; each holiday is covered in
  every row by the first row's merged cell for that date.
- `AttendanceView` (`AttendanceView.dfy`): the component's state (`attendance` form,
  `attendanceData`, `loading`) as the class `TeacherAttendanceView`. Its handlers
  `OnInputChange`, `HandleSubmit` and `ToggleAttendance` update the fields step by step and are
  proved equal to the pure transitions `UpdateField`, `Submit` and `Toggle`. The lemmas state
  what those transitions promise.

Network calls are not performed. The class keeps a log `sent` of the requests it issues, and
each reply the code awaits is a parameter of the handler: a `FetchOutcome` (a response body,
possibly missing `weekdays` or `teacher`, or a failure) or a `MutationOutcome`
(acknowledged or rejected). `form.checkValidity()` is modelled as "both required date inputs
are non-empty", because a date input's value is either empty or a valid date.

The model keeps three behaviours of the code as written:

- The refetch after a toggle (line 120) is started without `await`. In this sequential model it
  completes before the toggle returns. `loading` is lowered in every non-holiday path either
  way.
- The holiday test (lines 70-72) looks for any weekday of the report with the clicked date and
  a truthy `holiday_for`. It does not read the clicked day's own label.
  `ToggleDecision.SkipExactlyOnHolidayColumns` shows the two agree when each date appears once
  in `weekdays`.
- A delete whose date index lies beyond the `id` array sends `id` `undefined`. This is modelled
  as `DeleteAttendance(None)`. `ToggleDecision.DeleteTargetsRecordOfDate` shows this cannot
  happen when the arrays are aligned.

## Model

| member | source | states |
|---|---|---|
| `ArrayOps.IndexOf` | src/pages/teacher/teacherViewAttendance/TeacherViewAttendance.jsx:81 | -1 exactly when the date is absent; otherwise a position holding the date with no earlier occurrence |
| `ToggleDecision.FindHoliday` | src/pages/teacher/teacherViewAttendance/TeacherViewAttendance.jsx:70-72 | nothing found exactly when no weekday falls on the date with a truthy label; otherwise the first weekday that does |
| `ToggleDecision.ToggleAction` | src/pages/teacher/teacherViewAttendance/TeacherViewAttendance.jsx:69-118 | skip iff a weekday is a holiday on the date; delete iff not a holiday and the date is recorded, with the id at the date's first position (`undefined` past the id array); create iff not a holiday and not recorded, carrying exactly the date and `teacher_ref` |
| `ToggleDecision.DeleteTargetsRecordOfDate` | src/pages/teacher/teacherViewAttendance/TeacherViewAttendance.jsx:80-90 | with aligned `id`/`attendance_dates`, the delete carries `id[i]` where `attendance_dates[i]` is the clicked date |
| `ToggleDecision.SkipExactlyOnHolidayColumns` | src/pages/teacher/teacherViewAttendance/TeacherViewAttendance.jsx:70-73 | with each date listed once, clicking a report day is skipped iff that day is itself a holiday |
| `MonthGrouping.GroupByMonth` | src/pages/teacher/teacherViewAttendance/TeacherViewAttendance.jsx:251-258 | the dictionary `reduce` followed by `Object.entries` yields exactly the groups of the grouping specification |
| `MonthGrouping.GroupsFor` | src/pages/teacher/teacherViewAttendance/TeacherViewAttendance.jsx:251-258 | one group per listed month, in that order, each holding that month's days |
| `MonthGrouping.ListedExactlyWhenPresent` | src/pages/teacher/teacherViewAttendance/TeacherViewAttendance.jsx:253-255 | a month gets a bucket exactly when some day falls in it, and then its bucket is non-empty |
| `MonthGrouping.MonthsListedOnce` | src/pages/teacher/teacherViewAttendance/TeacherViewAttendance.jsx:254 | each month key is created once, so no two groups share a month |
| `MonthGrouping.BucketHoldsOnlyItsMonth` | src/pages/teacher/teacherViewAttendance/TeacherViewAttendance.jsx:253-255 | every day in a month's bucket falls in that month |
| `MonthGrouping.PositionsIn` | src/pages/teacher/teacherViewAttendance/TeacherViewAttendance.jsx:255 | a bucket lists, in increasing input position, exactly the days of its month: order within a group follows input order |
| `MonthGrouping.FlattenKeepsEveryDay` | src/pages/teacher/teacherViewAttendance/TeacherViewAttendance.jsx:252-257 | when every day's month is listed once, the groups together hold each day exactly as often as the input |
| `MonthGrouping.GroupedIsPartition` | src/pages/teacher/teacherViewAttendance/TeacherViewAttendance.jsx:251-258 | distinct months, non-empty groups, one month per group, every day in the group of its month and no other, same multiset of days as the input |
| `MonthGrouping.GroupsInFirstAppearanceOrder` | src/pages/teacher/teacherViewAttendance/TeacherViewAttendance.jsx:251-258 | every day of a later group is preceded in the input by a day of each earlier group: groups follow first appearance |
| `CellLayout.RenderRow` | src/pages/teacher/teacherViewAttendance/TeacherViewAttendance.jsx:285-340 | the first row has, at each day's position, that day's cell; a later row has exactly the "P"/"A" cells of the non-holiday days, in order, each for its date with the teacher's mark |
| `CellLayout.HolidayCellSpansAllRows` | src/pages/teacher/teacherViewAttendance/TeacherViewAttendance.jsx:286-304 | a holiday gives row 0 a cell with the label and `rowSpan` equal to the number of teachers; every other row emits nothing |
| `CellLayout.WorkingDayShowsAbsence` | src/pages/teacher/teacherViewAttendance/TeacherViewAttendance.jsx:305-337 | a non-holiday cell shows "A" exactly when the date is in the teacher's `attendance_dates`, "P" otherwise, and is disabled while loading |
| `CellLayout.FirstRowSpansEveryHoliday` | src/pages/teacher/teacherViewAttendance/TeacherViewAttendance.jsx:286-300 | the first row's holiday cells reaching any teacher row number exactly the holidays |
| `CellLayout.EveryRowCoversEveryDay` | src/pages/teacher/teacherViewAttendance/TeacherViewAttendance.jsx:279-342 | the first row's cell at each holiday's position is that date's label cell, spanning every teacher row; a later row's own cells plus the cells spanning into it number exactly the days |
| `CellLayout.MarkFor` | src/pages/teacher/teacherViewAttendance/TeacherViewAttendance.jsx:305-307 | the mark is "A" exactly when the `indexOf` lookup the toggle makes at line 81 finds the date in `attendance_dates`, so every "A" cell has a position for the delete to use |
| `CellLayout.RenderCell` | src/pages/teacher/teacherViewAttendance/TeacherViewAttendance.jsx:285-337 | no cell exactly for a holiday in a row after the first; any cell emitted is for the day's own date, and it is the holiday cell exactly when the day is a holiday |
| `CellLayout.FirstRowFollowsDays` | src/pages/teacher/teacherViewAttendance/TeacherViewAttendance.jsx:286-300 | the first row's cell at position k is day k's label cell with `rowSpan` the number of teachers, or day k's "P"/"A" cell |
| `CellLayout.LaterRowFollowsWorkingDays` | src/pages/teacher/teacherViewAttendance/TeacherViewAttendance.jsx:302-337 | in a later row each working day has its own cell at its slot, slots increase with the days, and every cell is the cell of the working day at its slot: each working day is covered exactly once |
| `CellLayout.DayAtSlot` | src/pages/teacher/teacherViewAttendance/TeacherViewAttendance.jsx:302-304 | the day whose cell sits at a slot of a later row: a working day, at that slot |
| `AttendanceView.UpdateField` | src/pages/teacher/teacherViewAttendance/TeacherViewAttendance.jsx:25-30 | the named field takes the value, no field is lost, every other field keeps its value |
| `AttendanceView.TeacherAttendanceView.constructor` | src/pages/teacher/teacherViewAttendance/TeacherViewAttendance.jsx:17-23 | the form holds the default range, no report, not loading, nothing sent |
| `AttendanceView.TeacherAttendanceView.OnInputChange` | src/pages/teacher/teacherViewAttendance/TeacherViewAttendance.jsx:25-30 | only the form changes, to the field update |
| `AttendanceView.TeacherAttendanceView.HandleSubmit` | src/pages/teacher/teacherViewAttendance/TeacherViewAttendance.jsx:32-68 | the new state is the submit transition of the old one |
| `AttendanceView.TeacherAttendanceView.ToggleAttendance` | src/pages/teacher/teacherViewAttendance/TeacherViewAttendance.jsx:69-127 | the new state is the toggle transition of the old one |
| `AttendanceView.InvalidFormSendsNothing` | src/pages/teacher/teacherViewAttendance/TeacherViewAttendance.jsx:35-38 | an invalid form sends no request and changes nothing |
| `AttendanceView.SubmitStoresOnlyCompleteResponses` | src/pages/teacher/teacherViewAttendance/TeacherViewAttendance.jsx:40-67 | a valid form sends one fetch for its range; the report is replaced only by a response with both `weekdays` and `teacher`, kept otherwise and on failure |
| `AttendanceView.HolidayToggleChangesNothing` | src/pages/teacher/teacherViewAttendance/TeacherViewAttendance.jsx:70-73 | a toggle on a holiday sends nothing and leaves report and `loading` unchanged |
| `AttendanceView.ToggleRefetchesOnlyAfterSuccess` | src/pages/teacher/teacherViewAttendance/TeacherViewAttendance.jsx:77-126 | on a working day the mutation is sent first, a fetch follows only after success, a rejection keeps the report, `loading` ends false |
| `AttendanceView.LoadingLoweredAtRest` | src/pages/teacher/teacherViewAttendance/TeacherViewAttendance.jsx:124-126 | no handler leaves `loading` raised |
| `AttendanceView.ReportNeverCleared` | src/pages/teacher/teacherViewAttendance/TeacherViewAttendance.jsx:58-67 | once a report is held, no submit or toggle removes it |
| `AttendanceView.ClickFollowsDisplayedMark` | src/pages/teacher/teacherViewAttendance/TeacherViewAttendance.jsx:305-318 | with each date listed once, clicking an "A" cell deletes a record and clicking a "P" cell creates one for that date and teacher |
| `AttendanceView.Submit` | src/pages/teacher/teacherViewAttendance/TeacherViewAttendance.jsx:32-68 | only `attendanceData` and the request log can change; at most one request is appended; the report is either kept or replaced by an accepted response |
| `AttendanceView.Toggle` | src/pages/teacher/teacherViewAttendance/TeacherViewAttendance.jsx:69-127 | a skip leaves the view unchanged; otherwise the first request appended is the DELETE carrying the looked-up id or the POST carrying exactly the clicked date and the teacher's `teacher_ref`, at most two are appended (the second only after an acknowledgement), `loading` ends false, the form never changes, and the report is kept or replaced by an accepted refetch |

## Left out

- HTTP transport, the base URL and the bearer token read from `localStorage`: requests are
  entries of the `sent` log and replies are handler parameters.
- Toast messages, console logging, navigation, JSX markup, the header row of day numbers,
  Tailwind classes and the print handler `handlPrintPdf` (lines 139-165): presentation only.
- `moment` parsing and formatting: dates are structured values, and the month heading is the
  pair (year, month), which is what "MMMM YYYY" depends on. The default range (lines 13-14) is
  a constructor parameter, because it reads the clock.
- `res.data` fields other than `weekdays` and `teacher`: the view never reads them.
- The shape of the response: `weekdays` and `teacher` are assumed to be arrays of the documented
  records, with dates as canonical "YYYY-MM-DD" strings, so that comparing `Date` values agrees
  with the source's `===` on strings (lines 71, 75, 81, 305). A list that is present but
  malformed (not an array, or teacher entries without `attendance_dates` or `id`) passes the
  truthiness test at line 58 and then makes the render (lines 252, 279, 305) or a toggle
  (line 75) throw; the model cannot represent such a list.
- Overlapping toggles and the unawaited refetch (line 120): the model runs each handler to
  completion, so event-loop interleavings are not captured.
- What the server does with a create or delete, and so whether toggling twice restores a cell:
  the backend is not part of this model.
- `test.jsx`, `src/pages/dashboard/Home.jsx` and `src/pages/webiste/Contact/ContactList.jsx`:
  fetch-and-render components with no logic beyond their requests.
