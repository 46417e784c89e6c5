/** The data the teacher attendance report endpoint sends back, as the view holds it. */
module AttendanceTypes {

  datatype Option<+T> = None | Some(value: T)

  /** A calendar date ("YYYY-MM-DD" on the wire); two dates are the same exactly when their strings are. */
  datatype Date = Date(year: int, month: int, day: int)

  /** The key days are grouped under: the "MMMM YYYY" rendering of a date depends on its year and month only. */
  datatype Month = Month(year: int, month: int)

  function MonthOf(d: Date): Month {
    Month(d.year, d.month)
  }

  /** One entry of the report's `weekdays`: a date and its `holiday_for` label, when the server sends one. */
  datatype Day = Day(date: Date, holidayFor: Option<string>)

  /** JavaScript truthiness of `holiday_for`: the falsy labels are a missing one and the empty string. */
  predicate IsHoliday(d: Day) {
    d.holidayFor.Some? && d.holidayFor.value != ""
  }

  /**
   * One entry of the report's `teacher` list. `ids` and `attendanceDates` are parallel arrays:
   * the record with id `ids[i]` marks the teacher absent on `attendanceDates[i]`.
   */
  datatype Teacher = Teacher(name: string, teacherRef: string, ids: seq<int>, attendanceDates: seq<Date>)

  /** The positional pairing the server is expected to uphold between the two parallel arrays. */
  predicate Aligned(t: Teacher) {
    |t.ids| == |t.attendanceDates|
  }

  /** A report the view has accepted: both `weekdays` and `teacher` were present in the response. */
  datatype Report = Report(weekdays: seq<Day>, teachers: seq<Teacher>)
}

/** The JavaScript array primitives the view relies on. */
module ArrayOps {

  /** `Array.prototype.indexOf`: the first position of `x` in `s`, or -1 when `x` does not occur. */
  function IndexOf<T(==)>(s: seq<T>, x: T): (r: int)
    ensures r == -1 <==> x !in s
    ensures r != -1 ==> 0 <= r < |s| && s[r] == x && x !in s[..r]
  {
    if s == [] then -1
    else if s[0] == x then 0
    else
      var k := IndexOf(s[1..], x);
      if k == -1 then -1
      else
        assert s[..k + 1] == [s[0]] + s[1..][..k];
        k + 1
  }
}
