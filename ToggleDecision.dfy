/** What a click on a grid cell asks the server to do (`toggleAttendance`, before any request is sent). */
module ToggleDecision {
  import opened AttendanceTypes
  import opened ArrayOps

  /** The test `weekdays.find` applies: the entry falls on `date` and its `holiday_for` is truthy. */
  predicate HolidayOn(d: Day, date: Date) {
    d.date == date && IsHoliday(d)
  }

  /** `weekdays.find(...)`: the first weekday that is a holiday on `date`, if any. */
  function FindHoliday(weekdays: seq<Day>, date: Date): (r: Option<Day>)
    ensures r.None? <==> forall k :: 0 <= k < |weekdays| ==> !HolidayOn(weekdays[k], date)
    ensures r.Some? ==> exists k :: 0 <= k < |weekdays| && weekdays[k] == r.value && HolidayOn(r.value, date) &&
                                     forall j :: 0 <= j < k ==> !HolidayOn(weekdays[j], date)
  {
    if weekdays == [] then None
    else if HolidayOn(weekdays[0], date) then Some(weekdays[0])
    else
      var r := FindHoliday(weekdays[1..], date);
      assert forall k :: 1 <= k < |weekdays| ==> weekdays[k] == weekdays[1..][k - 1];
      r
  }

  /** True when some weekday of the report is a holiday on `date`. */
  ghost predicate HolidayInReport(weekdays: seq<Day>, date: Date) {
    exists k :: 0 <= k < |weekdays| && HolidayOn(weekdays[k], date)
  }

  /**
   * The three outcomes of a toggle: nothing on a holiday; delete an existing absence record
   * (its id is `undefined` when the id array is shorter than the date array); create one.
   */
  datatype Action = Skip | Delete(id: Option<int>) | Create(date: Date, teacherRef: string)

  /** The action `toggleAttendance` chooses for `teacher` when the cell of `day` is clicked. */
  function ToggleAction(weekdays: seq<Day>, teacher: Teacher, day: Day): (a: Action)
    ensures a.Skip? <==> HolidayInReport(weekdays, day.date)
    ensures a.Delete? <==> !HolidayInReport(weekdays, day.date) && day.date in teacher.attendanceDates
    ensures a.Create? <==> !HolidayInReport(weekdays, day.date) && day.date !in teacher.attendanceDates
    ensures a.Delete? ==>
      exists i :: 0 <= i < |teacher.attendanceDates| && teacher.attendanceDates[i] == day.date &&
                  day.date !in teacher.attendanceDates[..i] &&
                  a.id == (if i < |teacher.ids| then Some(teacher.ids[i]) else None)
    ensures a.Create? ==> a.date == day.date && a.teacherRef == teacher.teacherRef
  {
    if FindHoliday(weekdays, day.date).Some? then Skip
    else if day.date in teacher.attendanceDates then
      var i := IndexOf(teacher.attendanceDates, day.date);
      Delete(if i < |teacher.ids| then Some(teacher.ids[i]) else None)
    else Create(day.date, teacher.teacherRef)
  }

  /**
   * With the id and date arrays aligned, a delete always carries the id recorded at the first
   * position of the clicked date, so it removes that date's absence record.
   */
  lemma DeleteTargetsRecordOfDate(weekdays: seq<Day>, teacher: Teacher, day: Day)
    requires Aligned(teacher)
    requires !HolidayInReport(weekdays, day.date) && day.date in teacher.attendanceDates
    ensures var i := IndexOf(teacher.attendanceDates, day.date);
            0 <= i < |teacher.ids| && teacher.attendanceDates[i] == day.date &&
            ToggleAction(weekdays, teacher, day) == Delete(Some(teacher.ids[i]))
  {
  }

  /**
   * When the weekdays list carries each date once, a day of the report is skipped exactly when
   * it is itself a holiday, that is, exactly for the cells drawn as holiday columns.
   */
  lemma SkipExactlyOnHolidayColumns(weekdays: seq<Day>, teacher: Teacher, k: nat)
    requires k < |weekdays|
    requires forall i, j :: 0 <= i < j < |weekdays| ==> weekdays[i].date != weekdays[j].date
    ensures ToggleAction(weekdays, teacher, weekdays[k]).Skip? <==> IsHoliday(weekdays[k])
  {
    if ToggleAction(weekdays, teacher, weekdays[k]).Skip? {
      var j :| 0 <= j < |weekdays| && HolidayOn(weekdays[j], weekdays[k].date);
      assert j == k;
    }
  }
}
