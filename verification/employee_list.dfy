/**
 * The employee list page (app/routes/employees._index/route.tsx): the loaded
 * rows are filtered by the search box, sorted on a copy by the chosen column
 * and direction, and cut into pages of ten; header clicks and page buttons
 * change the page state.
 */
module EmployeeList {
  import opened Text
  import opened Seqs
  import opened Paging
  import opened Records

  /** One row of `SELECT * FROM employees`. */
  datatype Employee = Employee(
    id: int,
    fullName: Value,
    email: Value,
    phone: Value,
    dateOfBirth: Value,
    jobTitle: Value,
    department: Value,
    salary: Value,
    startDate: Value,
    endDate: Value,
    photoPath: Value,
    cvPath: Value,
    idDocumentPath: Value)
  {
    /** `Object.values(employee)`. */
    function Values(): seq<Value> {
      [Int(id), fullName, email, phone, dateOfBirth, jobTitle, department, salary,
       startDate, endDate, photoPath, cvPath, idDocumentPath]
    }
  }

  /** The columns whose headers sort the table. */
  datatype Column = Id | FullName | Email | JobTitle | Department | StartDate

  datatype Direction = Asc | Desc

  /** `employee[sortField]`. */
  function Field(e: Employee, column: Column): Value {
    match column
    case Id => Int(e.id)
    case FullName => e.fullName
    case Email => e.email
    case JobTitle => e.jobTitle
    case Department => e.department
    case StartDate => e.startDate
  }

  predicate MatchesSearch(e: Employee, term: string) {
    AnyFieldMatches(e.Values(), term)
  }

  /**
   * `filteredEmployees`: an employee is kept iff one of its truthy columns
   * contains the term, case-insensitively; the kept rows keep their order and
   * their multiplicity.
   */
  function FilterEmployees(employees: seq<Employee>, term: string): (r: seq<Employee>)
    ensures forall e :: e in r <==> e in employees && MatchesSearch(e, term)
    ensures forall e :: multiset(r)[e] == if MatchesSearch(e, term) then multiset(employees)[e] else 0
    ensures IsSubsequence(r, employees)
  {
    Filter(employees, e => MatchesSearch(e, term))
  }

  /**
   * With an empty search box every employee whose id is not 0 is listed: the
   * id column is truthy and contains the empty string.
   */
  lemma EmptySearchKeepsNonZeroIds(employees: seq<Employee>)
    requires forall e | e in employees :: e.id != 0
    ensures FilterEmployees(employees, "") == employees
  {
    forall e | e in employees ensures MatchesSearch(e, "") {
      ContainsEmpty(Lower(ToText(Int(e.id))));
      assert FieldMatches(e.Values()[0], "");
    }
    FilterAll(employees, e => MatchesSearch(e, ""));
  }

  /**
   * The sort callback as written: a null column sorts after every row, a null
   * one included; ids compare as numbers, other columns as strings; `desc`
   * negates the non-null comparisons.
   */
  function CompareAsWritten(a: Employee, b: Employee, column: Column, direction: Direction): int {
    if Field(a, column).Null? then 1
    else if Field(b, column).Null? then -1
    else if column == Id then
      (if direction == Asc then a.id - b.id else b.id - a.id)
    else
      var c := LexCompare(ToText(Field(a, column)), ToText(Field(b, column)));
      if direction == Asc then c else -c
  }

  /**
   * Two rows whose sort column is null each compare as greater than the
   * other, so the callback is not a consistent comparator and the order
   * `sort` produces is left to the engine.
   */
  lemma AsWrittenComparatorInconsistent(a: Employee, b: Employee, column: Column, direction: Direction)
    requires Field(a, column).Null? && Field(b, column).Null?
    ensures CompareAsWritten(a, b, column, direction) > 0
    ensures CompareAsWritten(b, a, column, direction) > 0
    ensures CompareAsWritten(b, a, column, direction) != -CompareAsWritten(a, b, column, direction)
  {
  }

  /** The comparator with two null columns comparing equal; otherwise the callback as written. */
  function Compare(a: Employee, b: Employee, column: Column, direction: Direction): (r: int)
    ensures Field(a, column).Null? && !Field(b, column).Null? ==> r > 0
    ensures !Field(a, column).Null? && Field(b, column).Null? ==> r < 0
    ensures Field(a, column).Null? && Field(b, column).Null? ==> r == 0
  {
    if Field(a, column).Null? && Field(b, column).Null? then 0
    else CompareAsWritten(a, b, column, direction)
  }

  lemma CompareAntisymmetric(a: Employee, b: Employee, column: Column, direction: Direction)
    ensures Compare(b, a, column, direction) == -Compare(a, b, column, direction)
  {
    if !Field(a, column).Null? && !Field(b, column).Null? && column != Id {
      LexCompareAntisymmetric(ToText(Field(a, column)), ToText(Field(b, column)));
    }
  }

  lemma CompareTransitive(a: Employee, b: Employee, c: Employee, column: Column, direction: Direction)
    requires Compare(a, b, column, direction) <= 0 && Compare(b, c, column, direction) <= 0
    ensures Compare(a, c, column, direction) <= 0
  {
    if !Field(a, column).Null? && !Field(b, column).Null? && !Field(c, column).Null? && column != Id {
      var x, y, z := ToText(Field(a, column)), ToText(Field(b, column)), ToText(Field(c, column));
      if direction == Asc {
        LexCompareTransitive(x, y, z);
      } else {
        LexCompareAntisymmetric(x, y);
        LexCompareAntisymmetric(y, z);
        LexCompareAntisymmetric(x, z);
        LexCompareTransitive(z, y, x);
      }
    }
  }

  /**
   * Sorting by id compares the numeric ids, and `desc` is the `asc` comparison
   * with its arguments swapped whenever neither column is null; a null column
   * sorts last in both directions.
   */
  lemma DirectionReversesComparison(a: Employee, b: Employee, column: Column)
    ensures column == Id ==> Compare(a, b, Id, Asc) == a.id - b.id
    ensures !Field(a, column).Null? && !Field(b, column).Null? ==>
      Compare(a, b, column, Desc) == Compare(b, a, column, Asc)
    ensures Field(a, column).Null? != Field(b, column).Null? ==>
      Compare(a, b, column, Desc) == Compare(a, b, column, Asc)
  {
    if !Field(a, column).Null? && !Field(b, column).Null? && column != Id {
      LexCompareAntisymmetric(ToText(Field(a, column)), ToText(Field(b, column)));
    }
  }

  predicate SortedBy(s: seq<Employee>, column: Column, direction: Direction) {
    forall i, j | 0 <= i < j < |s| :: Compare(s[i], s[j], column, direction) <= 0
  }

  /** Places `x` before the first element it does not sort after. */
  function Insert(x: Employee, sorted: seq<Employee>, column: Column, direction: Direction): (r: seq<Employee>)
    ensures multiset(r) == multiset(sorted) + multiset{x}
    decreases |sorted|
  {
    if sorted == [] then [x]
    else if Compare(x, sorted[0], column, direction) <= 0 then [x] + sorted
    else
      assert sorted == [sorted[0]] + sorted[1..];
      [sorted[0]] + Insert(x, sorted[1..], column, direction)
  }

  /** `[...filteredEmployees].sort(...)`: a sorted copy holding the same rows. */
  function SortEmployees(employees: seq<Employee>, column: Column, direction: Direction): (r: seq<Employee>)
    ensures multiset(r) == multiset(employees)
    decreases |employees|
  {
    if employees == [] then []
    else
      assert employees == [employees[0]] + employees[1..];
      Insert(employees[0], SortEmployees(employees[1..], column, direction), column, direction)
  }

  /** A row that sorts before every row of a sorted list can be put in front of it. */
  lemma SortedCons(y: Employee, t: seq<Employee>, column: Column, direction: Direction)
    requires SortedBy(t, column, direction)
    requires forall k | 0 <= k < |t| :: Compare(y, t[k], column, direction) <= 0
    ensures SortedBy([y] + t, column, direction)
  {
    var r := [y] + t;
    forall i, j | 0 <= i < j < |r| ensures Compare(r[i], r[j], column, direction) <= 0 {
      if i > 0 {
        assert r[i] == t[i - 1] && r[j] == t[j - 1];
      } else {
        assert r[j] == t[j - 1];
      }
    }
  }

  lemma InsertElements(x: Employee, s: seq<Employee>, column: Column, direction: Direction, k: nat)
    requires k < |Insert(x, s, column, direction)|
    ensures Insert(x, s, column, direction)[k] == x || Insert(x, s, column, direction)[k] in s
  {
    var t := Insert(x, s, column, direction);
    assert t[k] in multiset(t);
  }

  lemma {:induction false} InsertKeepsSorted(x: Employee, s: seq<Employee>, column: Column, direction: Direction)
    requires SortedBy(s, column, direction)
    ensures SortedBy(Insert(x, s, column, direction), column, direction)
    decreases |s|
  {
    if s == [] {
    } else if Compare(x, s[0], column, direction) <= 0 {
      forall k | 0 <= k < |s| ensures Compare(x, s[k], column, direction) <= 0 {
        if k > 0 {
          CompareTransitive(x, s[0], s[k], column, direction);
        }
      }
      SortedCons(x, s, column, direction);
    } else {
      var t := Insert(x, s[1..], column, direction);
      InsertKeepsSorted(x, s[1..], column, direction);
      CompareAntisymmetric(x, s[0], column, direction);
      forall k | 0 <= k < |t| ensures Compare(s[0], t[k], column, direction) <= 0 {
        InsertElements(x, s[1..], column, direction, k);
        if t[k] != x {
          var m :| 0 <= m < |s[1..]| && s[1..][m] == t[k];
          assert s[m + 1] == t[k];
        }
      }
      SortedCons(s[0], t, column, direction);
    }
  }

  /** The sorted copy is in comparator order. */
  lemma {:induction false} SortEmployeesSorted(employees: seq<Employee>, column: Column, direction: Direction)
    ensures SortedBy(SortEmployees(employees, column, direction), column, direction)
    decreases |employees|
  {
    if employees != [] {
      SortEmployeesSorted(employees[1..], column, direction);
      InsertKeepsSorted(employees[0], SortEmployees(employees[1..], column, direction), column, direction);
    }
  }

  /** In the sorted copy no row with a null sort column precedes one with a value, in either direction. */
  lemma SortedNullsLast(employees: seq<Employee>, column: Column, direction: Direction)
    ensures forall i, j | 0 <= i < j < |SortEmployees(employees, column, direction)| ::
      Field(SortEmployees(employees, column, direction)[i], column).Null? ==>
      Field(SortEmployees(employees, column, direction)[j], column).Null?
  {
    SortEmployeesSorted(employees, column, direction);
  }

  /** Sorting by id orders the ids upwards for `asc` and downwards for `desc`. */
  lemma SortedByIdOrdersIds(employees: seq<Employee>, direction: Direction)
    ensures forall i, j | 0 <= i < j < |SortEmployees(employees, Id, direction)| ::
      var r := SortEmployees(employees, Id, direction);
      if direction == Asc then r[i].id <= r[j].id else r[i].id >= r[j].id
  {
    SortEmployeesSorted(employees, Id, direction);
  }

  /** The rows of `s` that compare equal to `k`, in their order in `s`. */
  function Ties(s: seq<Employee>, k: Employee, column: Column, direction: Direction): seq<Employee> {
    if s == [] then []
    else (if Compare(s[0], k, column, direction) == 0 then [s[0]] else []) + Ties(s[1..], k, column, direction)
  }

  /** Two rows that tie with a third tie with each other. */
  lemma TiesAgree(x: Employee, y: Employee, k: Employee, column: Column, direction: Direction)
    requires Compare(x, k, column, direction) == 0 && Compare(y, k, column, direction) == 0
    ensures Compare(x, y, column, direction) == 0
  {
    CompareAntisymmetric(y, k, column, direction);
    CompareAntisymmetric(x, k, column, direction);
    CompareTransitive(x, k, y, column, direction);
    CompareTransitive(y, k, x, column, direction);
    CompareAntisymmetric(x, y, column, direction);
  }

  /** `Insert` passes over only rows `x` sorts after, so no row that ties with `x`. */
  lemma {:induction false} InsertTies(x: Employee, s: seq<Employee>, k: Employee, column: Column, direction: Direction)
    ensures Ties(Insert(x, s, column, direction), k, column, direction) ==
      (if Compare(x, k, column, direction) == 0 then [x] else []) + Ties(s, k, column, direction)
    decreases |s|
  {
    if s == [] {
      assert [x][1..] == [];
    } else if Compare(x, s[0], column, direction) <= 0 {
      assert ([x] + s)[1..] == s;
    } else {
      var r := Insert(x, s, column, direction);
      assert r[1..] == Insert(x, s[1..], column, direction);
      InsertTies(x, s[1..], k, column, direction);
      if Compare(x, k, column, direction) == 0 && Compare(s[0], k, column, direction) == 0 {
        TiesAgree(x, s[0], k, column, direction);
      }
    }
  }

  /**
   * The sort is stable: the rows that compare equal to any given row appear
   * in the sorted copy in the order the query returned them.
   */
  lemma {:induction false} SortEmployeesStable(employees: seq<Employee>, k: Employee, column: Column, direction: Direction)
    ensures Ties(SortEmployees(employees, column, direction), k, column, direction) == Ties(employees, k, column, direction)
    decreases |employees|
  {
    if employees != [] {
      SortEmployeesStable(employees[1..], k, column, direction);
      InsertTies(employees[0], SortEmployees(employees[1..], column, direction), k, column, direction);
    }
  }

  /** `totalPages`: `Math.max(1, Math.ceil(n / itemsPerPage))`, never 0. */
  function TotalPagesFor(n: nat): (t: int)
    ensures t >= 1
    ensures t * PageSize >= n && (t - 1) * PageSize < Max(n, 1)
  {
    Max(1, PageCount(n))
  }

  /** "Showing `startIndex + 1` to `min(startIndex + itemsPerPage, n)` of `n`". */
  function ShowingRange(n: nat, page: int): (r: (int, int))
    ensures 1 <= page <= TotalPagesFor(n) && n > 0 ==>
      1 <= r.0 <= r.1 <= n && r.1 - r.0 + 1 == Min(PageSize, n - (page - 1) * PageSize)
    ensures n == 0 && page == 1 ==> r == (1, 0)
  {
    var startIndex := (page - 1) * PageSize;
    (startIndex + 1, Min(startIndex + PageSize, n))
  }

  /**
   * On an existing page of a non-empty list the caption starts at row
   * `(page - 1) * 10 + 1` and its range, counted from 1, is exactly the
   * slice the table shows.
   */
  lemma CaptionNamesShownRows<T>(items: seq<T>, page: int)
    requires |items| > 0 && 1 <= page <= TotalPagesFor(|items|)
    ensures ShowingRange(|items|, page).0 == (page - 1) * PageSize + 1
    ensures PageOf(items, page) == items[ShowingRange(|items|, page).0 - 1 .. ShowingRange(|items|, page).1]
  {
    var r := ShowingRange(|items|, page);
    var shown := items[r.0 - 1 .. r.1];
    assert |PageOf(items, page)| == |shown|;
    forall k | 0 <= k < |shown| ensures PageOf(items, page)[k] == shown[k] {
    }
  }

  /** The state of the page and the lists derived from it on each render. */
  class EmployeeListView {
    const employees: seq<Employee>
    var searchTerm: string
    var sortColumn: Column
    var sortDirection: Direction
    var currentPage: int

    function Filtered(): seq<Employee>
      reads this
    {
      FilterEmployees(employees, searchTerm)
    }

    function Sorted(): seq<Employee>
      reads this
    {
      SortEmployees(Filtered(), sortColumn, sortDirection)
    }

    function TotalPages(): int
      reads this
    {
      TotalPagesFor(|Sorted()|)
    }

    /** `sortedEmployees.slice(startIndex, startIndex + itemsPerPage)`. */
    function Paginated(): seq<Employee>
      reads this
    {
      PageOf(Sorted(), currentPage)
    }

    /** The current page always exists. */
    ghost predicate Valid()
      reads this
    {
      1 <= currentPage <= TotalPages()
    }

    /** The initial state: empty search, id descending, page 1. */
    constructor(employees: seq<Employee>)
      ensures Valid()
      ensures this.employees == employees && searchTerm == ""
      ensures sortColumn == Id && sortDirection == Desc && currentPage == 1
    {
      this.employees := employees;
      searchTerm := "";
      sortColumn := Id;
      sortDirection := Desc;
      currentPage := 1;
    }

    /** `handlePageChange`: only a page between 1 and `totalPages` is taken. */
    method HandlePageChange(page: int)
      requires Valid()
      modifies this
      ensures Valid()
      ensures currentPage == if 1 <= page <= old(TotalPages()) then page else old(currentPage)
      ensures searchTerm == old(searchTerm)
      ensures sortColumn == old(sortColumn) && sortDirection == old(sortDirection)
    {
      if 1 <= page <= TotalPages() {
        currentPage := page;
      }
    }

    /**
     * `handleSort`: the current column flips its direction, another column is
     * taken ascending; either way the table goes back to page 1.
     */
    method HandleSort(column: Column)
      modifies this
      ensures Valid()
      ensures sortColumn == column
      ensures sortDirection == if column == old(sortColumn)
                               then (if old(sortDirection) == Asc then Desc else Asc)
                               else Asc
      ensures currentPage == 1 && searchTerm == old(searchTerm)
    {
      if column == sortColumn {
        sortDirection := if sortDirection == Asc then Desc else Asc;
      } else {
        sortColumn := column;
        sortDirection := Asc;
      }
      currentPage := 1;
    }

    /** Typing in the search box, followed by the effect that returns to page 1. */
    method SetSearchTerm(term: string)
      modifies this
      ensures Valid()
      ensures searchTerm == term && currentPage == 1
      ensures sortColumn == old(sortColumn) && sortDirection == old(sortDirection)
    {
      searchTerm := term;
      currentPage := 1;
    }

    /**
     * The visible rows are the sorted rows from index `(currentPage - 1) * 10`,
     * at most ten of them, and some row is visible exactly when there are rows
     * and the current page exists.
     */
    lemma PaginatedIsBlock()
      requires 1 <= currentPage
      ensures |Paginated()| <= PageSize
      ensures forall k | 0 <= k < |Paginated()| :: Paginated()[k] == Sorted()[(currentPage - 1) * PageSize + k]
      ensures |Paginated()| > 0 <==> |Sorted()| > 0 && currentPage <= TotalPages()
    {
      PageEmptyIffPastCount(Sorted(), currentPage);
    }
  }
}
