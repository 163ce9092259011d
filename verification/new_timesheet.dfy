/**
 * The new-timesheet action (app/routes/timesheets.new/route.tsx): the posted
 * interval is validated, and only a valid one is inserted before the redirect
 * to the list. Start and end enter as the millisecond time values that
 * `new Date` gives the posted strings, None where it gives an invalid date
 * (NaN), against which every comparison is false.
 */
module NewTimesheet {
  import opened Wrappers

  const HourMs: int := 60 * 60 * 1000
  const MaxHours: int := 24

  const EndBeforeStartMessage := "End time must be after start time"
  const TooLongMessage := "Timesheet duration cannot exceed 24 hours"

  /** What the validator accepts: the end strictly after the start and at most 24 hours later. */
  predicate ValidInterval(startMs: int, endMs: int) {
    startMs < endMs && endMs - startMs <= MaxHours * HourMs
  }

  /** What the validator lets through: an unparsable time on either side, or a valid interval. */
  predicate Accepted(start: Option<int>, end: Option<int>) {
    start.None? || end.None? || ValidInterval(start.value, end.value)
  }

  /**
   * `validateTimesheet`: null iff the times are accepted; otherwise exactly one
   * error, always under `end_time`, its message naming the rule broken. The
   * two rules cannot both fire, and a duration of exactly 24 hours passes.
   */
  method ValidateTimesheet(start: Option<int>, end: Option<int>) returns (errors: Option<map<string, string>>)
    ensures errors.None? <==> Accepted(start, end)
    ensures errors.Some? ==> errors.value.Keys == {"end_time"}
    ensures errors.Some? && end.value <= start.value ==> errors.value["end_time"] == EndBeforeStartMessage
    ensures errors.Some? && start.value < end.value ==> errors.value["end_time"] == TooLongMessage
  {
    var e: map<string, string> := map[];
    if start.Some? && end.Some? {
      if end.value <= start.value {
        e := e["end_time" := EndBeforeStartMessage];
      }
      var duration: real := (end.value - start.value) as real / HourMs as real;
      if duration > MaxHours as real {
        e := e["end_time" := TooLongMessage];
      }
    }
    errors := if |e| > 0 then Some(e) else None;
  }

  datatype TimesheetActionResult = Invalid(errors: map<string, string>) | Redirect(location: string)

  /**
   * `action`: rejected times return the errors, with the message of the rule
   * broken, and insert nothing; accepted
   * ones insert exactly the posted `employee_id`, `start_time`, `end_time` and
   * `summary` (absent fields as null) and redirect to the list.
   */
  method CreateTimesheet(form: map<string, string>, start: Option<int>, end: Option<int>)
    returns (result: TimesheetActionResult, inserted: Option<seq<Option<string>>>)
    ensures result.Redirect? <==> Accepted(start, end)
    ensures result.Invalid? ==> inserted.None? && result.errors.Keys == {"end_time"}
    ensures result.Invalid? && end.value <= start.value ==> result.errors["end_time"] == EndBeforeStartMessage
    ensures result.Invalid? && start.value < end.value ==> result.errors["end_time"] == TooLongMessage
    ensures result.Redirect? ==> result.location == "/timesheets"
    ensures result.Redirect? ==> inserted == Some([Get(form, "employee_id"), Get(form, "start_time"),
                                                   Get(form, "end_time"), Get(form, "summary")])
  {
    var errors := ValidateTimesheet(start, end);
    if errors.Some? {
      return Invalid(errors.value), None;
    }
    var employeeId := Get(form, "employee_id");
    var startTime := Get(form, "start_time");
    var endTime := Get(form, "end_time");
    var summary := Get(form, "summary");
    inserted := Some([employeeId, startTime, endTime, summary]);
    result := Redirect("/timesheets");
  }
}
