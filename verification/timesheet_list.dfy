/**
 * The timesheet list page (app/routes/timesheets._index/route.tsx): the joined
 * timesheet rows are filtered by department, employee and search term, cut
 * into pages of ten for the table, and turned into calendar events with a
 * colour per department and `YYYY-MM-DD HH:mm` start and end strings.
 */
module TimesheetList {
  import opened Wrappers
  import opened Text
  import opened Seqs
  import opened Paging
  import opened Records
  import NewEmployee

  /** One row of the loader's join of `timesheets` with the owning employee. */
  datatype Timesheet = Timesheet(
    id: int,
    employeeId: int,
    startTime: Value,
    endTime: Value,
    summary: Value,
    fullName: string,
    department: string)
  {
    /** `Object.values(timesheet)`. */
    function Values(): seq<Value> {
      [Int(id), Int(employeeId), startTime, endTime, summary, Str(fullName), Str(department)]
    }
  }

  /** The value of both select boxes that disables their filter. */
  const All := "all"

  /** The three tests of `filteredTimesheets`; an empty term disables the search. */
  predicate Matches(t: Timesheet, department: string, employee: string, term: string) {
    && (department == All || t.department == department)
    && (employee == All || IntToString(t.employeeId) == employee)
    && (term == "" || AnyFieldMatches(t.Values(), term))
  }

  /**
   * `filteredTimesheets`: a row is kept iff it passes all three tests; kept
   * rows keep their order and multiplicity.
   */
  function FilterTimesheets(timesheets: seq<Timesheet>, department: string, employee: string, term: string)
    : (r: seq<Timesheet>)
    ensures forall t :: t in r <==> t in timesheets && Matches(t, department, employee, term)
    ensures forall t ::
              multiset(r)[t] == if Matches(t, department, employee, term) then multiset(timesheets)[t] else 0
    ensures IsSubsequence(r, timesheets)
  {
    Filter(timesheets, t => Matches(t, department, employee, term))
  }

  /**
   * With both selects on "all" and an empty search every row is listed, even
   * one whose columns are all falsy (the employee page's search would drop it).
   */
  lemma NoFilterKeepsAll(timesheets: seq<Timesheet>)
    ensures FilterTimesheets(timesheets, All, All, "") == timesheets
  {
    FilterAll(timesheets, t => Matches(t, All, All, ""));
  }

  /** Choosing an employee by id keeps exactly that employee's rows. */
  lemma EmployeeFilterSelectsById(timesheets: seq<Timesheet>, id: int)
    ensures forall t :: t in FilterTimesheets(timesheets, All, IntToString(id), "") <==>
      t in timesheets && t.employeeId == id
  {
    forall t | t in timesheets && IntToString(t.employeeId) == IntToString(id) ensures t.employeeId == id {
      IntToStringInjective(t.employeeId, id);
    }
  }

  function DepartmentColumn(timesheets: seq<Timesheet>): (r: seq<string>)
    ensures |r| == |timesheets|
    ensures forall i | 0 <= i < |r| :: r[i] == timesheets[i].department
  {
    seq(|timesheets|, i requires 0 <= i < |timesheets| => timesheets[i].department)
  }

  /**
   * `departments`: the distinct departments of the rows, each once, in order
   * of first occurrence.
   */
  function DepartmentOptions(timesheets: seq<Timesheet>): (r: seq<string>)
    ensures forall d :: d in r <==> d in DepartmentColumn(timesheets)
    ensures NoDuplicates(r)
    ensures forall i, j | 0 <= i < j < |r| ::
      FirstIndex(DepartmentColumn(timesheets), r[i]) < FirstIndex(DepartmentColumn(timesheets), r[j])
  {
    DistinctFirstOccurrenceOrder(DepartmentColumn(timesheets));
    Distinct(DepartmentColumn(timesheets))
  }

  /** Every offered department keeps at least one row when chosen. */
  lemma DepartmentOptionsSelectRows(timesheets: seq<Timesheet>, d: string)
    requires d in DepartmentOptions(timesheets)
    ensures FilterTimesheets(timesheets, d, All, "") != []
  {
    var col := DepartmentColumn(timesheets);
    var i :| 0 <= i < |col| && col[i] == d;
    assert Matches(timesheets[i], d, All, "");
    assert timesheets[i] in FilterTimesheets(timesheets, d, All, "");
  }

  datatype EmployeeOption = EmployeeOption(id: int, name: string)

  /**
   * `employees`: one option per row. The `Set` is built from freshly made
   * objects, which are never equal, so nothing is merged.
   */
  function EmployeeOptions(timesheets: seq<Timesheet>): (r: seq<EmployeeOption>)
    ensures |r| == |timesheets|
    ensures forall i | 0 <= i < |r| :: r[i] == EmployeeOption(timesheets[i].employeeId, timesheets[i].fullName)
  {
    seq(|timesheets|, i requires 0 <= i < |timesheets| =>
      EmployeeOption(timesheets[i].employeeId, timesheets[i].fullName))
  }

  /** Every offered employee keeps at least one row when chosen, by the option's value `String(id)`. */
  lemma EmployeeOptionsSelectRows(timesheets: seq<Timesheet>, o: EmployeeOption)
    requires o in EmployeeOptions(timesheets)
    ensures FilterTimesheets(timesheets, All, IntToString(o.id), "") != []
  {
    var options := EmployeeOptions(timesheets);
    var i :| 0 <= i < |options| && options[i] == o;
    assert Matches(timesheets[i], All, IntToString(o.id), "");
    assert timesheets[i] in FilterTimesheets(timesheets, All, IntToString(o.id), "");
  }

  /** How many rows belong to the employee and name of `o`. */
  function RowsOf(timesheets: seq<Timesheet>, o: EmployeeOption): nat {
    if timesheets == [] then 0
    else (if timesheets[0].employeeId == o.id && timesheets[0].fullName == o.name then 1 else 0)
         + RowsOf(timesheets[1..], o)
  }

  /** Each option is offered once per row of its employee: the `Set` merges nothing. */
  lemma {:induction false} EmployeeOptionsCount(timesheets: seq<Timesheet>, o: EmployeeOption)
    ensures multiset(EmployeeOptions(timesheets))[o] == RowsOf(timesheets, o)
  {
    if timesheets != [] {
      var t := timesheets[0];
      EmployeeOptionsCount(timesheets[1..], o);
      assert EmployeeOptions(timesheets) ==
        [EmployeeOption(t.employeeId, t.fullName)] + EmployeeOptions(timesheets[1..]);
    }
  }

  /** `getColorForDepartment`'s fallback. */
  const DefaultColor := "#6b7280"

  /**
   * `getColorForDepartment`: the listed colour of a known department, grey
   * otherwise. The seven departments have seven different colours.
   */
  function ColorForDepartment(department: string): (c: string)
    ensures c == DefaultColor <==> department !in NewEmployee.Departments
  {
    if department == "Engineering" then "#4f46e5"
    else if department == "Product" then "#0891b2"
    else if department == "Design" then "#7c3aed"
    else if department == "Marketing" then "#059669"
    else if department == "Sales" then "#dc2626"
    else if department == "HR" then "#ea580c"
    else if department == "Finance" then "#0284c7"
    else DefaultColor
  }

  /** What a `Date` reports in local time: `getMonth()` counts from 0. */
  datatype LocalDateTime = LocalDateTime(year: int, month: int, day: int, hours: int, minutes: int)

  /** The ranges a `Date`'s local components stay in. */
  predicate ValidLocal(d: LocalDateTime) {
    0 <= d.month < 12 && 1 <= d.day <= 31 && 0 <= d.hours < 24 && 0 <= d.minutes < 60
  }

  /** `String(n).padStart(2, '0')`. */
  function Pad2(n: nat): (s: string)
    ensures AllDigits(s)
    ensures n < 100 ==> |s| == 2 && ParseNat(s) == n
  {
    ParseNatToString(n);
    var digits := NatToString(n);
    if |digits| < 2 then
      assert ParseNat("0") == 0;
      assert ("0" + digits)[..1] == "0";
      "0" + digits
    else
      digits
  }

  /** `formatDate`: `YYYY-MM-DD HH:mm`, the month counted from 1, the last four fields two digits each. */
  function FormatDate(d: LocalDateTime): (s: string)
    requires ValidLocal(d)
    ensures |s| == |IntToString(d.year)| + 12
    ensures s[..|s| - 12] == IntToString(d.year)
    ensures s[|s| - 12] == '-' && s[|s| - 9] == '-' && s[|s| - 6] == ' ' && s[|s| - 3] == ':'
  {
    IntToString(d.year) + "-" + Pad2(d.month + 1) + "-" + Pad2(d.day) + " " + Pad2(d.hours) + ":" + Pad2(d.minutes)
  }

  /** Reads a `YYYY-MM-DD HH:mm` string back into local components. */
  function ParseDate(s: string): Option<LocalDateTime> {
    if |s| < 13 then None
    else
      var n := |s|;
      var rest := s[n - 12..];
      if rest[0] == '-' && rest[3] == '-' && rest[6] == ' ' && rest[9] == ':'
        && AllDigits(rest[1..3]) && AllDigits(rest[4..6]) && AllDigits(rest[7..9]) && AllDigits(rest[10..12])
      then
        match ParseInt(s[..n - 12])
        case None => None
        case Some(year) =>
          Some(LocalDateTime(year, ParseNat(rest[1..3]) - 1, ParseNat(rest[4..6]),
                             ParseNat(rest[7..9]), ParseNat(rest[10..12])))
      else None
  }

  /** Where the separators and the two-character fields sit in a `formatDate` string. */
  lemma DateLayout(y: string, mo: string, da: string, h: string, mi: string)
    requires |mo| == 2 && |da| == 2 && |h| == 2 && |mi| == 2
    ensures var s := y + "-" + mo + "-" + da + " " + h + ":" + mi;
      var rest := s[|s| - 12..];
      |s| == |y| + 12 && s[..|s| - 12] == y &&
      rest[0] == '-' && rest[3] == '-' && rest[6] == ' ' && rest[9] == ':' &&
      rest[1..3] == mo && rest[4..6] == da && rest[7..9] == h && rest[10..12] == mi
  {
    var tail := "-" + mo + "-" + da + " " + h + ":" + mi;
    var s := y + "-" + mo + "-" + da + " " + h + ":" + mi;
    assert s == y + tail;
    assert s[|s| - 12..] == tail;
    assert s[..|s| - 12] == y;
  }

  /** The formatted string determines the date and time it was made from. */
  lemma FormatDateRoundTrip(d: LocalDateTime)
    requires ValidLocal(d)
    ensures ParseDate(FormatDate(d)) == Some(d)
  {
    DateLayout(IntToString(d.year), Pad2(d.month + 1), Pad2(d.day), Pad2(d.hours), Pad2(d.minutes));
    ParseIntToString(d.year);
  }

  const NoSummary := "No summary provided"

  /** The calendar's view of one timesheet. */
  datatype CalendarEvent = CalendarEvent(
    id: string, title: string, start: string, end: string, color: string, description: string)

  /**
   * One element of `calendarEvents`, given the local components of the row's
   * start and end times: the id reads back as the row's id, start and end read
   * back as the given times, and the description falls back when the summary
   * is falsy.
   */
  function ToCalendarEvent(t: Timesheet, start: LocalDateTime, end: LocalDateTime): (e: CalendarEvent)
    requires ValidLocal(start) && ValidLocal(end)
    ensures ParseInt(e.id) == Some(t.id)
    ensures ParseDate(e.start) == Some(start) && ParseDate(e.end) == Some(end)
    ensures e.color == ColorForDepartment(t.department)
    ensures e.title == t.fullName + " - " + t.department
    ensures Truthy(t.summary) ==> e.description == ToText(t.summary)
    ensures !Truthy(t.summary) ==> e.description == NoSummary
  {
    ParseIntToString(t.id);
    FormatDateRoundTrip(start);
    FormatDateRoundTrip(end);
    CalendarEvent(
      IntToString(t.id),
      t.fullName + " - " + t.department,
      FormatDate(start),
      FormatDate(end),
      ColorForDepartment(t.department),
      if Truthy(t.summary) then ToText(t.summary) else NoSummary)
  }

  /**
   * "Showing `min((p - 1) * 10 + 1, n)` to `min(p * 10, n)` of `n`": on a page
   * with rows it counts exactly those rows; past the last page it reads
   * "n to n" over an empty table.
   */
  function ShowingRange(n: nat, page: int): (r: (int, int))
    ensures 1 <= page <= PageCount(n) ==>
      1 <= r.0 <= r.1 <= n && r.1 - r.0 + 1 == Min(PageSize, n - (page - 1) * PageSize)
    ensures page > PageCount(n) ==> r == (n, n)
  {
    (Min((page - 1) * PageSize + 1, n), Min(page * PageSize, n))
  }

  /**
   * On a page with rows the caption starts at row `(page - 1) * 10 + 1` and
   * its range, counted from 1, is exactly the slice the table shows; past the
   * last page the table is empty.
   */
  lemma CaptionNamesShownRows<T>(items: seq<T>, page: int)
    requires page >= 1
    ensures page <= PageCount(|items|) ==> ShowingRange(|items|, page).0 == (page - 1) * PageSize + 1
    ensures page <= PageCount(|items|) ==>
      PageOf(items, page) == items[ShowingRange(|items|, page).0 - 1 .. ShowingRange(|items|, page).1]
    ensures page > PageCount(|items|) ==> PageOf(items, page) == []
  {
    var r := ShowingRange(|items|, page);
    if page <= PageCount(|items|) {
      var shown := items[r.0 - 1 .. r.1];
      assert |PageOf(items, page)| == |shown|;
      forall k | 0 <= k < |shown| ensures PageOf(items, page)[k] == shown[k] {
      }
    } else {
      PageEmptyIffPastCount(items, page);
    }
  }

  /**
   * Page 0, where "Next" leads from an empty result, shows no rows whatever
   * the filters later select, under the caption "Showing -9 to 0".
   */
  lemma PageZeroShowsNothing<T>(items: seq<T>)
    ensures PageOf(items, 0) == []
    ensures ShowingRange(|items|, 0) == (-9, 0)
  {
  }

  /** The table state: filters, search and current page over the loaded rows. */
  class TimesheetListView {
    const timesheets: seq<Timesheet>
    var department: string
    var employee: string
    var searchTerm: string
    var currentPage: int

    function Filtered(): seq<Timesheet>
      reads this
    {
      FilterTimesheets(timesheets, department, employee, searchTerm)
    }

    /** `Math.ceil(filteredTimesheets.length / itemsPerPage)`, 0 for an empty result. */
    function TotalPages(): nat
      reads this
    {
      PageCount(|Filtered()|)
    }

    function Paginated(): seq<Timesheet>
      reads this
    {
      PageOf(Filtered(), currentPage)
    }

    /** Page 0 is reachable (see Next); no page below it is. */
    ghost predicate Valid()
      reads this
    {
      currentPage >= 0
    }

    constructor(timesheets: seq<Timesheet>)
      ensures Valid()
      ensures this.timesheets == timesheets
      ensures department == All && employee == All && searchTerm == "" && currentPage == 1
    {
      this.timesheets := timesheets;
      department := All;
      employee := All;
      searchTerm := "";
      currentPage := 1;
    }

    /** "Previous": `Math.max(1, p - 1)`. */
    method Previous()
      requires Valid()
      modifies this
      ensures Valid()
      ensures currentPage == Max(1, old(currentPage) - 1) && currentPage >= 1
      ensures department == old(department) && employee == old(employee) && searchTerm == old(searchTerm)
    {
      currentPage := Max(1, currentPage - 1);
    }

    /**
     * "Next": `Math.min(totalPages, p + 1)`. With no matching rows the button
     * stays enabled on page 1 and this moves to page 0.
     */
    method Next()
      requires Valid()
      modifies this
      ensures Valid()
      ensures currentPage == Min(old(TotalPages()), old(currentPage) + 1)
      ensures currentPage <= TotalPages()
      ensures old(Filtered()) == [] ==> currentPage == 0
      ensures department == old(department) && employee == old(employee) && searchTerm == old(searchTerm)
    {
      currentPage := Min(TotalPages(), currentPage + 1);
    }

    /** A numbered page button; buttons exist for pages 1 .. totalPages. */
    method ChoosePage(page: int)
      requires Valid() && 1 <= page <= TotalPages()
      modifies this
      ensures Valid() && currentPage == page
      ensures department == old(department) && employee == old(employee) && searchTerm == old(searchTerm)
    {
      currentPage := page;
    }

    /** Changing a filter leaves the page number as it was. */
    method SelectDepartment(d: string)
      requires Valid()
      modifies this
      ensures Valid() && department == d
      ensures currentPage == old(currentPage) && employee == old(employee) && searchTerm == old(searchTerm)
    {
      department := d;
    }

    method SelectEmployee(e: string)
      requires Valid()
      modifies this
      ensures Valid() && employee == e
      ensures currentPage == old(currentPage) && department == old(department) && searchTerm == old(searchTerm)
    {
      employee := e;
    }

    method SetSearchTerm(term: string)
      requires Valid()
      modifies this
      ensures Valid() && searchTerm == term
      ensures currentPage == old(currentPage) && department == old(department) && employee == old(employee)
    {
      searchTerm := term;
    }

    /** The table shows exactly the filtered rows at indices `[(p - 1) * 10, p * 10)`. */
    lemma PaginatedIsBlock()
      requires currentPage >= 1
      ensures |Paginated()| == Max(0, Min(PageSize, |Filtered()| - (currentPage - 1) * PageSize))
      ensures forall k | 0 <= k < |Paginated()| :: Paginated()[k] == Filtered()[(currentPage - 1) * PageSize + k]
    {
    }
  }
}
