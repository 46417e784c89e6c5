/** What one teacher row of a month table shows for each day of that month. */
module CellLayout {
  import opened AttendanceTypes
  import opened ArrayOps

  datatype Mark = Present | Absent

  /**
   * A cell keyed by the date it stands for: a holiday label (`text`) spanning `rowSpan` teacher
   * rows, or a "P"/"A" cell that is dimmed and ignores clicks while `disabled` (the view's
   * `loading` flag).
   */
  datatype Cell =
    | HolidayCell(date: Date, text: string, rowSpan: nat)
    | MarkCell(date: Date, mark: Mark, disabled: bool)

  /**
   * A date listed in the teacher's `attendance_dates` is an absence, and then it has a position
   * there: the one `toggleAttendance` looks up to find the record to delete.
   */
  function MarkFor(teacher: Teacher, date: Date): (m: Mark)
    ensures m == Absent <==> IndexOf(teacher.attendanceDates, date) != -1
  {
    if date in teacher.attendanceDates then Absent else Present
  }

  /** The cell row `row` emits for `day`; `None` is the `null` the holiday branch returns for rows after the first. */
  function RenderCell(teachers: seq<Teacher>, row: nat, day: Day, loading: bool): (c: Option<Cell>)
    requires row < |teachers|
    ensures c.None? <==> IsHoliday(day) && row != 0
    ensures c.Some? ==> c.value.date == day.date
    ensures c.Some? ==> (c.value.HolidayCell? <==> IsHoliday(day))
  {
    if row == 0 && IsHoliday(day) then Some(HolidayCell(day.date, day.holidayFor.value, |teachers|))
    else if IsHoliday(day) then None
    else Some(MarkCell(day.date, MarkFor(teachers[row], day.date), loading))
  }

  /** The number of holiday columns among `dates`. */
  function HolidayCount(dates: seq<Day>): (n: nat)
    ensures n <= |dates|
  {
    if dates == [] then 0 else (if IsHoliday(dates[0]) then 1 else 0) + HolidayCount(dates[1..])
  }

  /** The days of `dates` that are not holidays, in order. */
  function WorkingDays(dates: seq<Day>): (ws: seq<Day>)
    ensures |ws| == |dates| - HolidayCount(dates)
    ensures forall t :: 0 <= t < |ws| ==> !IsHoliday(ws[t])
  {
    if dates == [] then []
    else (if IsHoliday(dates[0]) then [] else [dates[0]]) + WorkingDays(dates[1..])
  }

  /** The number of working days before position `k`: where day `k`'s cell sits in a later row. */
  function Slot(dates: seq<Day>, k: nat): nat
    requires k <= |dates|
  {
    if k == 0 then 0 else (if IsHoliday(dates[0]) then 0 else 1) + Slot(dates[1..], k - 1)
  }

  /**
   * The cells of one table row, `null`s dropped as React drops them: the first row has the cell
   * of each day at that day's position; a later row has the "P"/"A" cells of the working days,
   * in order.
   */
  function RenderRow(teachers: seq<Teacher>, row: nat, dates: seq<Day>, loading: bool): (cells: seq<Cell>)
    requires row < |teachers|
    ensures row == 0 ==> |cells| == |dates|
    ensures row == 0 ==> forall k :: 0 <= k < |dates| ==> Some(cells[k]) == RenderCell(teachers, 0, dates[k], loading)
    ensures row > 0 ==> |cells| == |WorkingDays(dates)|
    ensures row > 0 ==> forall t :: 0 <= t < |cells| ==>
      cells[t] == MarkCell(WorkingDays(dates)[t].date, MarkFor(teachers[row], WorkingDays(dates)[t].date), loading)
  {
    if dates == [] then []
    else
      var first := RenderCell(teachers, row, dates[0], loading);
      var rest := RenderRow(teachers, row, dates[1..], loading);
      assert forall k :: 1 <= k < |dates| ==> dates[k] == dates[1..][k - 1];
      (if first.Some? then [first.value] else []) + rest
  }

  /** The number of cells in a row that reach down into row `r` through their `rowSpan`. */
  function SpanningInto(cells: seq<Cell>, r: nat): nat {
    if cells == [] then 0
    else (if cells[0].HolidayCell? && cells[0].rowSpan > r then 1 else 0) + SpanningInto(cells[1..], r)
  }

  /**
   * A holiday is one merged cell: the first row shows its label spanning every teacher row,
   * and no later row emits a cell for it.
   */
  lemma HolidayCellSpansAllRows(teachers: seq<Teacher>, row: nat, day: Day, loading: bool)
    requires row < |teachers| && IsHoliday(day)
    ensures row == 0 ==> RenderCell(teachers, row, day, loading) == Some(HolidayCell(day.date, day.holidayFor.value, |teachers|))
    ensures row != 0 ==> RenderCell(teachers, row, day, loading).None?
  {
  }

  /** A working day shows "A" exactly when its date is among the teacher's absences, and "P" otherwise. */
  lemma WorkingDayShowsAbsence(teachers: seq<Teacher>, row: nat, day: Day, loading: bool)
    requires row < |teachers| && !IsHoliday(day)
    ensures RenderCell(teachers, row, day, loading).Some?
    ensures var c := RenderCell(teachers, row, day, loading).value;
      c.MarkCell? && c.date == day.date && c.disabled == loading &&
      (c.mark == Absent <==> day.date in teachers[row].attendanceDates)
  {
  }

  lemma {:induction false} FirstRowSpansEveryHoliday(teachers: seq<Teacher>, dates: seq<Day>, loading: bool, r: nat)
    requires 0 < |teachers| && r < |teachers|
    ensures SpanningInto(RenderRow(teachers, 0, dates, loading), r) == HolidayCount(dates)
  {
    if dates != [] {
      FirstRowSpansEveryHoliday(teachers, dates[1..], loading, r);
      var first := RenderCell(teachers, 0, dates[0], loading);
      var rest := RenderRow(teachers, 0, dates[1..], loading);
      assert RenderRow(teachers, 0, dates, loading) == [first.value] + rest;
      assert ([first.value] + rest)[1..] == rest;
    }
  }

  /** Working day `k` is the working day at its slot. */
  lemma {:induction false} SlotHoldsDay(dates: seq<Day>, k: nat)
    requires k < |dates| && !IsHoliday(dates[k])
    ensures Slot(dates, k) < |WorkingDays(dates)| && WorkingDays(dates)[Slot(dates, k)] == dates[k]
  {
    if k > 0 {
      SlotHoldsDay(dates[1..], k - 1);
    }
  }

  /** Distinct working days get distinct slots, in the order of the days. */
  lemma {:induction false} SlotsIncrease(dates: seq<Day>, k1: nat, k2: nat)
    requires k1 < k2 < |dates| && !IsHoliday(dates[k1])
    ensures Slot(dates, k1) < Slot(dates, k2)
  {
    if k1 > 0 {
      SlotsIncrease(dates[1..], k1 - 1, k2 - 1);
    } else {
      SlotPositiveAfterWorkingFirst(dates, k2);
    }
  }

  lemma {:induction false} SlotPositiveAfterWorkingFirst(dates: seq<Day>, k: nat)
    requires 0 < k <= |dates| && !IsHoliday(dates[0])
    ensures Slot(dates, k) >= 1
  {
  }

  /** The day whose cell sits at slot `t` of a later row. */
  function DayAtSlot(dates: seq<Day>, t: nat): (k: nat)
    requires t < |WorkingDays(dates)|
    ensures k < |dates| && !IsHoliday(dates[k]) && Slot(dates, k) == t && WorkingDays(dates)[t] == dates[k]
  {
    if !IsHoliday(dates[0]) && t == 0 then 0
    else
      var rest := dates[1..];
      var k := DayAtSlot(rest, if IsHoliday(dates[0]) then t else t - 1);
      assert dates[k + 1] == rest[k];
      k + 1
  }

  /** In the first row, the cell at position `k` is day `k`'s: its holiday label or its "P"/"A" cell. */
  lemma FirstRowFollowsDays(teachers: seq<Teacher>, dates: seq<Day>, loading: bool)
    requires 0 < |teachers|
    ensures var first := RenderRow(teachers, 0, dates, loading);
      && |first| == |dates|
      && (forall k :: 0 <= k < |dates| && IsHoliday(dates[k]) ==>
            first[k] == HolidayCell(dates[k].date, dates[k].holidayFor.value, |teachers|))
      && (forall k :: 0 <= k < |dates| && !IsHoliday(dates[k]) ==>
            first[k] == MarkCell(dates[k].date, MarkFor(teachers[0], dates[k].date), loading))
  {
  }

  /**
   * In a later row, each working day has its "P"/"A" cell at its slot, distinct working days
   * have increasing slots, and every cell of the row is the cell of the working day at its slot.
   */
  lemma {:induction false} LaterRowFollowsWorkingDays(teachers: seq<Teacher>, dates: seq<Day>, loading: bool, r: nat)
    requires 0 < r < |teachers|
    ensures var cells := RenderRow(teachers, r, dates, loading);
      && (forall k :: 0 <= k < |dates| && !IsHoliday(dates[k]) ==>
            Slot(dates, k) < |cells| &&
            cells[Slot(dates, k)] == MarkCell(dates[k].date, MarkFor(teachers[r], dates[k].date), loading))
      && (forall k1, k2 :: 0 <= k1 < k2 < |dates| && !IsHoliday(dates[k1]) ==> Slot(dates, k1) < Slot(dates, k2))
      && (forall t :: 0 <= t < |cells| ==>
            var k := DayAtSlot(dates, t);
            Slot(dates, k) == t && cells[t] == MarkCell(dates[k].date, MarkFor(teachers[r], dates[k].date), loading))
  {
    var cells := RenderRow(teachers, r, dates, loading);
    forall k | 0 <= k < |dates| && !IsHoliday(dates[k])
      ensures Slot(dates, k) < |cells| &&
              cells[Slot(dates, k)] == MarkCell(dates[k].date, MarkFor(teachers[r], dates[k].date), loading)
    {
      SlotHoldsDay(dates, k);
    }
    forall k1, k2 | 0 <= k1 < k2 < |dates| && !IsHoliday(dates[k1])
      ensures Slot(dates, k1) < Slot(dates, k2)
    {
      SlotsIncrease(dates, k1, k2);
    }
  }

  /**
   * The table covers every (teacher, day) slot exactly once: in the first row each day has
   * the cell at its own position; in a later row a holiday is covered by the first row's cell
   * for that date, whose `rowSpan` reaches every teacher row, and each working day by its own
   * "P"/"A" cell at its slot (see LaterRowFollowsWorkingDays); and a later row's own cells plus
   * the cells spanning into it number exactly the days.
   */
  lemma EveryRowCoversEveryDay(teachers: seq<Teacher>, dates: seq<Day>, loading: bool, r: nat)
    requires r < |teachers|
    ensures var first := RenderRow(teachers, 0, dates, loading);
      && |first| == |dates|
      && (forall k :: 0 <= k < |dates| && IsHoliday(dates[k]) ==>
            first[k] == HolidayCell(dates[k].date, dates[k].holidayFor.value, |teachers|) && first[k].rowSpan > r)
      && (r > 0 ==> |RenderRow(teachers, r, dates, loading)| + SpanningInto(first, r) == |dates|)
  {
    FirstRowFollowsDays(teachers, dates, loading);
    if r > 0 {
      FirstRowSpansEveryHoliday(teachers, dates, loading, r);
    }
  }
}
