/**
 * The teacher attendance view's state: the filter form, the accepted report, the `loading`
 * flag, and the requests the view has sent. Each server reply is a parameter of the step that
 * awaits it, so a step's effect is a function of the state before it and of those replies.
 */
module AttendanceView {
  import opened AttendanceTypes
  import opened ArrayOps
  import opened ToggleDecision
  import CellLayout

  const FromDateField: string := "from_date"
  const ToDateField: string := "to_date"

  /** The `attendance` form object: input name to input value. */
  type Form = map<string, string>

  /** The requests the view sends, without transport details. */
  datatype Request =
    | FetchReport(fromDate: string, toDate: string)
    | DeleteAttendance(id: Option<int>)
    | CreateAttendance(teacherAttendanceDate: Date, teacherRef: string)

  /** The response body of a report fetch; either list may be missing. */
  datatype Response = Response(weekdays: Option<seq<Day>>, teachers: Option<seq<Teacher>>)

  /** How a report fetch ended: a response body, or a network or server error. */
  datatype FetchOutcome = Fetched(response: Response) | FetchFailed

  /** How a create or delete request ended. */
  datatype MutationOutcome = Acknowledged | Rejected

  datatype View = View(attendance: Form, attendanceData: Option<Report>, loading: bool, sent: seq<Request>)

  /** Both date inputs the form renders are always present in the form object. */
  predicate WellFormed(v: View) {
    FromDateField in v.attendance && ToDateField in v.attendance
  }

  /**
   * `form.checkValidity()`: both date inputs are `required`, and a date input's value is
   * either empty or a valid date, so the form is valid when neither value is empty.
   */
  predicate FormValid(form: Form)
    requires FromDateField in form && ToDateField in form
  {
    form[FromDateField] != "" && form[ToDateField] != ""
  }

  /** The view as it is first rendered, with the default range passed in. */
  function Initial(fromDate: string, toDate: string): View {
    View(map[FromDateField := fromDate, ToDateField := toDate], None, false, [])
  }

  /** `onInputChange`: the named input takes the new value and every other input keeps its own. */
  function UpdateField(form: Form, name: string, value: string): (r: Form)
    ensures name in r && r[name] == value
    ensures r.Keys == form.Keys + {name}
    ensures forall f :: f in form && f != name ==> r[f] == form[f]
  {
    form[name := value]
  }

  /** The request body `handleSubmit` posts. */
  function ReportRequest(v: View): Request
    requires WellFormed(v)
  {
    FetchReport(v.attendance[FromDateField], v.attendance[ToDateField])
  }

  /** The report a response yields when it carries both `weekdays` and `teacher`. */
  function Accepted(resp: Response): Option<Report> {
    if resp.weekdays.Some? && resp.teachers.Some? then Some(Report(resp.weekdays.value, resp.teachers.value))
    else None
  }

  /** `handleSubmit`: the validity gate, the fetch, and the acceptance test on its response. */
  function Submit(v: View, outcome: FetchOutcome): (r: View)
    requires WellFormed(v)
    ensures r.attendance == v.attendance && r.loading == v.loading
    ensures |v.sent| <= |r.sent| <= |v.sent| + 1 && r.sent[..|v.sent|] == v.sent
    ensures r.attendanceData == v.attendanceData || (outcome.Fetched? && Accepted(outcome.response).Some? && r.attendanceData == Accepted(outcome.response))
  {
    if !FormValid(v.attendance) then v
    else
      var posted := v.(sent := v.sent + [ReportRequest(v)]);
      if outcome.Fetched? && Accepted(outcome.response).Some? then posted.(attendanceData := Accepted(outcome.response))
      else posted
  }

  /** The request that carries out a create or delete action. */
  function MutationRequest(a: Action): Request
    requires !a.Skip?
  {
    if a.Delete? then DeleteAttendance(a.id) else CreateAttendance(a.date, a.teacherRef)
  }

  /**
   * `toggleAttendance`: on a holiday nothing happens; otherwise `loading` is raised, the
   * mutation is sent, the report is fetched again only if the mutation succeeded, and
   * `loading` is lowered whatever happened.
   */
  function Toggle(v: View, teacher: Teacher, day: Day, mutation: MutationOutcome, refetch: FetchOutcome): (r: View)
    requires WellFormed(v) && v.attendanceData.Some?
    ensures r.attendance == v.attendance
    ensures |v.sent| <= |r.sent| <= |v.sent| + 2 && r.sent[..|v.sent|] == v.sent
    ensures var a := ToggleAction(v.attendanceData.value.weekdays, teacher, day);
      if a.Skip? then r == v
      else (
        && !r.loading && |r.sent| > |v.sent|
        && (a.Delete? ==> r.sent[|v.sent|] == DeleteAttendance(a.id))
        && (a.Create? ==> r.sent[|v.sent|] == CreateAttendance(day.date, teacher.teacherRef)))
    ensures |r.sent| == |v.sent| + 2 ==> mutation.Acknowledged?
    ensures r.attendanceData == v.attendanceData || (mutation.Acknowledged? && refetch.Fetched? && Accepted(refetch.response).Some? && r.attendanceData == Accepted(refetch.response))
  {
    var action := ToggleAction(v.attendanceData.value.weekdays, teacher, day);
    if action.Skip? then v
    else
      var mutating := v.(loading := true, sent := v.sent + [MutationRequest(action)]);
      var settled := if mutation.Acknowledged? then Submit(mutating, refetch) else mutating;
      settled.(loading := false)
  }

  /** The attendance view component, its state updated in place by its handlers. */
  class TeacherAttendanceView {
    var attendance: Form
    var attendanceData: Option<Report>
    var loading: bool
    var sent: seq<Request>

    function State(): View
      reads this
    {
      View(attendance, attendanceData, loading, sent)
    }

    ghost predicate Valid()
      reads this
    {
      WellFormed(State())
    }

    constructor (fromDate: string, toDate: string)
      ensures Valid() && State() == Initial(fromDate, toDate)
    {
      attendance := map[FromDateField := fromDate, ToDateField := toDate];
      attendanceData := None;
      loading := false;
      sent := [];
    }

    method OnInputChange(name: string, value: string)
      requires Valid()
      modifies this`attendance
      ensures Valid()
      ensures State() == old(State()).(attendance := UpdateField(old(attendance), name, value))
    {
      attendance := attendance[name := value];
    }

    method HandleSubmit(outcome: FetchOutcome)
      requires Valid()
      modifies this`attendanceData, this`sent
      ensures Valid() && State() == Submit(old(State()), outcome)
    {
      if attendance[FromDateField] == "" || attendance[ToDateField] == "" {
        return;  // "Fill all required fields"
      }
      sent := sent + [FetchReport(attendance[FromDateField], attendance[ToDateField])];
      match outcome {
        case Fetched(resp) =>
          if resp.weekdays.Some? && resp.teachers.Some? {
            attendanceData := Some(Report(resp.weekdays.value, resp.teachers.value));
          }
        case FetchFailed =>
      }
    }

    method ToggleAttendance(teacher: Teacher, day: Day, mutation: MutationOutcome, refetch: FetchOutcome)
      requires Valid() && attendanceData.Some?
      modifies this`loading, this`attendanceData, this`sent
      ensures Valid() && State() == Toggle(old(State()), teacher, day, mutation, refetch)
    {
      var isHoliday := FindHoliday(attendanceData.value.weekdays, day.date);
      if isHoliday.Some? {
        return;
      }
      var isAbsent := day.date in teacher.attendanceDates;
      loading := true;
      if isAbsent {
        var attendanceIndex := IndexOf(teacher.attendanceDates, day.date);
        var attendanceId := if attendanceIndex < |teacher.ids| then Some(teacher.ids[attendanceIndex]) else None;
        sent := sent + [DeleteAttendance(attendanceId)];
      } else {
        sent := sent + [CreateAttendance(day.date, teacher.teacherRef)];
      }
      if mutation.Acknowledged? {
        HandleSubmit(refetch);
      }
      loading := false;
    }
  }

  /** An invalid form sends no request and changes nothing. */
  lemma InvalidFormSendsNothing(v: View, outcome: FetchOutcome)
    requires WellFormed(v) && !FormValid(v.attendance)
    ensures Submit(v, outcome) == v
  {
  }

  /**
   * A valid form sends exactly one report request for the form's range; the response replaces
   * the report only when it carries both lists, and otherwise, or on failure, the previous
   * report stays.
   */
  lemma SubmitStoresOnlyCompleteResponses(v: View, outcome: FetchOutcome)
    requires WellFormed(v) && FormValid(v.attendance)
    ensures var r := Submit(v, outcome);
      && r.sent == v.sent + [FetchReport(v.attendance[FromDateField], v.attendance[ToDateField])]
      && r.attendance == v.attendance && r.loading == v.loading
      && (outcome.Fetched? && outcome.response.weekdays.Some? && outcome.response.teachers.Some? ==>
            r.attendanceData == Some(Report(outcome.response.weekdays.value, outcome.response.teachers.value)))
      && (outcome.FetchFailed? || outcome.response.weekdays.None? || outcome.response.teachers.None? ==>
            r.attendanceData == v.attendanceData)
  {
  }

  /** Clicking a holiday sends nothing and leaves the report and `loading` as they were. */
  lemma HolidayToggleChangesNothing(v: View, teacher: Teacher, day: Day, mutation: MutationOutcome, refetch: FetchOutcome)
    requires WellFormed(v) && v.attendanceData.Some?
    requires HolidayInReport(v.attendanceData.value.weekdays, day.date)
    ensures Toggle(v, teacher, day, mutation, refetch) == v
  {
  }

  /**
   * On a working day the mutation is sent first; a report fetch follows only when the mutation
   * succeeded (and the form is still valid); a rejected mutation keeps the report; `loading`
   * ends false; the form is untouched.
   */
  lemma ToggleRefetchesOnlyAfterSuccess(v: View, teacher: Teacher, day: Day, mutation: MutationOutcome, refetch: FetchOutcome)
    requires WellFormed(v) && v.attendanceData.Some?
    requires !HolidayInReport(v.attendanceData.value.weekdays, day.date)
    ensures var a := ToggleAction(v.attendanceData.value.weekdays, teacher, day);
      var r := Toggle(v, teacher, day, mutation, refetch);
      && !r.loading
      && r.attendance == v.attendance
      && r.sent == v.sent + [MutationRequest(a)] +
                   (if mutation.Acknowledged? && FormValid(v.attendance) then [ReportRequest(v)] else [])
      && (mutation.Rejected? ==> r.attendanceData == v.attendanceData)
      && (mutation.Acknowledged? ==> r.attendanceData == Submit(v, refetch).attendanceData)
  {
  }

  /** Between handler runs `loading` is false: no step leaves it raised. */
  lemma LoadingLoweredAtRest(v: View, teacher: Teacher, day: Day, mutation: MutationOutcome, refetch: FetchOutcome, outcome: FetchOutcome)
    requires WellFormed(v) && !v.loading
    ensures !Submit(v, outcome).loading
    ensures v.attendanceData.Some? ==> !Toggle(v, teacher, day, mutation, refetch).loading
  {
  }

  /** Once a report is shown it stays shown: no step clears it. */
  lemma ReportNeverCleared(v: View, teacher: Teacher, day: Day, mutation: MutationOutcome, refetch: FetchOutcome, outcome: FetchOutcome)
    requires WellFormed(v) && v.attendanceData.Some?
    ensures Submit(v, outcome).attendanceData.Some?
    ensures Toggle(v, teacher, day, mutation, refetch).attendanceData.Some?
  {
  }

  /**
   * Clicking the cell of a working day acts on what the cell shows, when each date appears once
   * in `weekdays`: an "A" cell deletes that teacher's absence record, a "P" cell creates one
   * for that date and teacher.
   */
  lemma ClickFollowsDisplayedMark(report: Report, row: nat, k: nat, loading: bool)
    requires row < |report.teachers| && k < |report.weekdays|
    requires forall i, j :: 0 <= i < j < |report.weekdays| ==> report.weekdays[i].date != report.weekdays[j].date
    requires !IsHoliday(report.weekdays[k])
    ensures var day, teacher := report.weekdays[k], report.teachers[row];
      var c := CellLayout.RenderCell(report.teachers, row, day, loading);
      var a := ToggleAction(report.weekdays, teacher, day);
      && c.Some? && c.value.MarkCell?
      && (c.value.mark == CellLayout.Absent ==> a.Delete?)
      && (c.value.mark == CellLayout.Present ==> a == Create(day.date, teacher.teacherRef))
  {
    SkipExactlyOnHolidayColumns(report.weekdays, report.teachers[row], k);
  }
}
