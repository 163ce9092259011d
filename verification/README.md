# Employee and timesheet routes, modelled in Dafny

This project models the four routes at the centre of a small employee
management application:

- the employee list (`app/routes/employees._index/route.tsx`): free-text
  search, a sortable column with a null-aware comparator, ten-row pages and
  the page/sort state of the table;
- the timesheet list (`app/routes/timesheets._index/route.tsx`): department,
  employee and free-text filters, the filter option lists, pagination with
  Previous/Next, department colours and the calendar events with their
  `YYYY-MM-DD HH:mm` dates;
- the new-timesheet action (`app/routes/timesheets.new/route.tsx`): interval
  validation, then the insert and the redirect;
- the new-employee action (`app/routes/employees.new/route.tsx`): the email,
  phone, salary and age rules, the upload naming, the calendar age check and
  the insert of eleven columns.

The pure computations (filters, comparators, pagination, formatting, path
naming) are functions with lemmas. The page state of each list is a class
whose methods change its fields. The validators and actions are methods that
assemble their results step by step, as the route code does.

Modules, one per file:

| file | module | content |
|---|---|---|
| `wrappers.dfy` | `Wrappers` | `Option`, map lookup |
| `text.dfy` | `Text` | decimal rendering and parsing, ASCII lower case, substring search, string order |
| `seqs.dfy` | `Seqs` | order-keeping filter, first-occurrence distinct, JavaScript `slice` |
| `paging.dfy` | `Paging` | ten-item pages |
| `records.dfy` | `Records` | row values (`null`, integer, string) and the free-text search test |
| `employee_list.dfy` | `EmployeeList` | the employee table |
| `timesheet_list.dfy` | `TimesheetList` | the timesheet table and calendar events |
| `new_timesheet.dfy` | `NewTimesheet` | the new-timesheet action |
| `new_employee.dfy` | `NewEmployee` | the new-employee action |

Modelling conventions:

- A database row is a datatype whose columns are `Value`s: `Null`, `Int` or
  `Str`. The search sees the row's values in column order.
- JavaScript truthiness is `Records.Truthy`: `null`, `0` and `""` are falsy.
- `toLowerCase` is ASCII lower-casing.
- `localeCompare` is code-point lexicographic order (`Text.LexCompare`).
- Whatever the runtime supplies is an explicit parameter:
  - `Date.now()`;
  - the local fields of `new Date(...)`, with `None` where JavaScript gets NaN;
  - `parseFloat`;
  - the upload time stamps.
- A form post is a map from field name to text; uploaded files are
  `NewEmployee.UploadedFile` values.
- The values bound to an `INSERT` are the method's `inserted` output, with
  null as `None`.
- The files an action writes are its `written` output.

The new-employee action (`app/routes/employees.new/route.tsx:72-81`) stores
each upload under `/uploads/{prefix}-{Date.now()}-{file name}`, with the prefix
`photo`, `cv` or `id`. The per-employee routes store their uploads elsewhere;
they are not part of this model (see "Left out").

## Model

| member | source | states |
|---|---|---|
| `Records.SearchIgnoresTermCase` | app/routes/employees._index/route.tsx:19-25 | the row search gives the same answer for a term and for its lower-cased form |
| `Records.VerbatimOccurrenceMatches` | app/routes/employees._index/route.tsx:20-24 | a truthy column that contains the term verbatim makes the row match, whatever the case of either |
| `EmployeeList.FilterEmployees` | app/routes/employees._index/route.tsx:19-25 | an employee is kept iff some truthy column's lower-cased text contains the lower-cased term; each kept employee keeps its multiplicity; the result is a subsequence of the input, so order is preserved |
| `EmployeeList.EmptySearchKeepsNonZeroIds` | app/routes/employees._index/route.tsx:19-25 | with the initial empty term, every employee with a non-zero id is kept and the list is unchanged |
| `EmployeeList.AsWrittenComparatorInconsistent` | app/routes/employees._index/route.tsx:28-29 | when both records hold null in the sort column, the comparator as written answers "greater" in both argument orders, so it is not antisymmetric |
| `EmployeeList.Compare` | app/routes/employees._index/route.tsx:27-39 | a null field sorts after a non-null one in both directions, and two nulls compare equal |
| `EmployeeList.CompareAntisymmetric` | app/routes/employees._index/route.tsx:27-39 | swapping the arguments negates the comparison |
| `EmployeeList.CompareTransitive` | app/routes/employees._index/route.tsx:27-39 | "not after" is transitive, so the comparator is a total preorder |
| `EmployeeList.DirectionReversesComparison` | app/routes/employees._index/route.tsx:31-38 | ascending by id is the numeric difference; between non-null fields, descending is exactly the negated ascending comparison; a null against a non-null keeps its sign in both directions |
| `EmployeeList.SortEmployees` | app/routes/employees._index/route.tsx:27 | sorting a copy yields a permutation of the filtered list (same multiset) |
| `EmployeeList.SortEmployeesSorted` | app/routes/employees._index/route.tsx:27-39 | the sorted copy is ordered by the comparator |
| `EmployeeList.InsertKeepsSorted` | app/routes/employees._index/route.tsx:27-39 | inserting one record into an ordered list keeps it ordered |
| `EmployeeList.SortedNullsLast` | app/routes/employees._index/route.tsx:28-29 | in the sorted list no null field precedes a non-null one, whatever the direction |
| `EmployeeList.SortedByIdOrdersIds` | app/routes/employees._index/route.tsx:31-35 | sorted by id, ids ascend for ascending and descend for descending |
| `EmployeeList.SortEmployeesStable` | app/routes/employees._index/route.tsx:27-39 | the sort is stable: the records that compare equal to any given record keep the order the query returned them in |
| `EmployeeList.InsertTies` | app/routes/employees._index/route.tsx:27-39 | inserting a record never moves it past a record it ties with |
| `EmployeeList.TotalPagesFor` | app/routes/employees._index/route.tsx:42 | `totalPages` is at least 1 and is the fewest ten-row pages that hold the rows |
| `EmployeeList.ShowingRange` | app/routes/employees._index/route.tsx:204-209 | on a valid page of a non-empty list the caption runs from the first to the last row shown; an empty list on page 1 reads "1 to 0" |
| `EmployeeList.CaptionNamesShownRows` | app/routes/employees._index/route.tsx:204-209 | on a valid page of a non-empty list the caption starts at row (page-1)·10+1, and its range, counted from 1, is exactly the slice the table shows |
| `EmployeeList.EmployeeListView.constructor` | app/routes/employees._index/route.tsx:12-17 | empty search, sorted by id descending, page 1 |
| `EmployeeList.EmployeeListView.HandlePageChange` | app/routes/employees._index/route.tsx:46-50 | the page becomes `page` when 1 ≤ page ≤ totalPages, and otherwise stays; nothing else changes |
| `EmployeeList.EmployeeListView.HandleSort` | app/routes/employees._index/route.tsx:52-61 | the current column flips its direction; a new column starts ascending; the page returns to 1 and the search is kept |
| `EmployeeList.EmployeeListView.SetSearchTerm` | app/routes/employees._index/route.tsx:63-66 | a new search term takes the page back to 1 from any state, keeping the sort, so the state is valid afterwards |
| `EmployeeList.EmployeeListView.PaginatedIsBlock` | app/routes/employees._index/route.tsx:43-44 | the visible rows are the contiguous block of at most ten from index (page-1)·10 of the sorted list; some row is visible exactly when the list is non-empty and the page is at most totalPages |
| `Paging.PageCount` | app/routes/timesheets._index/route.tsx:50 | `Math.ceil(n / 10)`: the fewest pages holding n items, 0 exactly for no items |
| `Paging.PageOf` | app/routes/timesheets._index/route.tsx:51-54 | a page holds at most ten items, exactly those at indices [(p-1)·10, p·10) that exist |
| `Paging.PagesCoverItems` | app/routes/timesheets._index/route.tsx:50-54 | every item appears on page ⌊i/10⌋+1, a page within the page count, at position i mod 10 |
| `Paging.PageEmptyIffPastCount` | app/routes/timesheets._index/route.tsx:50-54 | pages 1 to the page count are non-empty and all later pages are empty |
| `Seqs.Slice` | app/routes/employees._index/route.tsx:44 | JavaScript `slice`: negative bounds count from the end, both are clamped, and the result is the elements between them |
| `TimesheetList.FilterTimesheets` | app/routes/timesheets._index/route.tsx:39-47 | a timesheet is kept iff its department matches (or "all"), its employee id's text matches (or "all"), and the term is empty or found in a truthy column ignoring case; multiplicities and order are kept |
| `TimesheetList.NoFilterKeepsAll` | app/routes/timesheets._index/route.tsx:39-47 | the initial filters ("all", "all", empty term) keep every timesheet in place |
| `TimesheetList.EmployeeFilterSelectsById` | app/routes/timesheets._index/route.tsx:41 | choosing an employee by the text of its id keeps exactly that employee's timesheets |
| `TimesheetList.DepartmentOptions` | app/routes/timesheets._index/route.tsx:33 | the department options are the departments of the rows, each once, in order of first occurrence |
| `TimesheetList.DepartmentOptionsSelectRows` | app/routes/timesheets._index/route.tsx:33-40 | every department offered selects at least one timesheet |
| `TimesheetList.EmployeeOptions` | app/routes/timesheets._index/route.tsx:34-37 | one employee option per timesheet, carrying its employee id and name |
| `TimesheetList.EmployeeOptionsCount` | app/routes/timesheets._index/route.tsx:34-37 | each option occurs once per timesheet of that employee id and name: the set of fresh objects merges nothing |
| `TimesheetList.EmployeeOptionsSelectRows` | app/routes/timesheets._index/route.tsx:34-41 | every employee offered selects at least one timesheet |
| `TimesheetList.ColorForDepartment` | app/routes/timesheets._index/route.tsx:56-67 | a department gets the grey default exactly when it is not one of the seven form departments |
| `TimesheetList.Pad2` | app/routes/timesheets._index/route.tsx:77-80 | `padStart(2, '0')` of a number below 100 is two digits that read back as the number |
| `TimesheetList.FormatDate` | app/routes/timesheets._index/route.tsx:75-82 | the text is the year followed by twelve characters with `-`, `-`, space and `:` in their places |
| `TimesheetList.FormatDateRoundTrip` | app/routes/timesheets._index/route.tsx:75-82 | the formatted date reads back as the same year, 1-based month, day, hour and minute |
| `TimesheetList.ToCalendarEvent` | app/routes/timesheets._index/route.tsx:84-94 | the event id reads back as the timesheet id; start and end read back as the given dates; the colour is the department's; the title is "name - department"; the description is the summary, or "No summary provided" when it is falsy |
| `TimesheetList.ShowingRange` | app/routes/timesheets._index/route.tsx:343-345 | on a page within the count the caption runs from the first to the last entry shown; past the last page both ends read n |
| `TimesheetList.CaptionNamesShownRows` | app/routes/timesheets._index/route.tsx:343-345 | on a page within the count the caption starts at entry (p-1)·10+1, and its range, counted from 1, is exactly the slice the table shows; past the last page the table is empty |
| `TimesheetList.TimesheetListView.constructor` | app/routes/timesheets._index/route.tsx:27-30 | all departments, all employees, empty search, page 1 |
| `TimesheetList.TimesheetListView.Previous` | app/routes/timesheets._index/route.tsx:350 | the page becomes max(1, p-1), the filters stay |
| `TimesheetList.TimesheetListView.Next` | app/routes/timesheets._index/route.tsx:370 | the page becomes min(totalPages, p+1), and is 0 when nothing passes the filters |
| `TimesheetList.TimesheetListView.ChoosePage` | app/routes/timesheets._index/route.tsx:357-360 | a page button sets its page, which lies between 1 and totalPages |
| `TimesheetList.TimesheetListView.SelectDepartment` | app/routes/timesheets._index/route.tsx:27 | the department filter changes and the page is kept |
| `TimesheetList.TimesheetListView.SelectEmployee` | app/routes/timesheets._index/route.tsx:29 | the employee filter changes and the page is kept |
| `TimesheetList.TimesheetListView.SetSearchTerm` | app/routes/timesheets._index/route.tsx:28 | the search term changes and the page is kept |
| `TimesheetList.TimesheetListView.PaginatedIsBlock` | app/routes/timesheets._index/route.tsx:51-54 | the visible entries are exactly the filtered entries at indices [(p-1)·10, p·10) |
| `TimesheetList.PageZeroShowsNothing` | app/routes/timesheets._index/route.tsx:343-370 | on page 0, where Next leads from an empty result, the table is empty whatever the filters later select, and the caption reads "-9 to 0" |
| `NewTimesheet.ValidateTimesheet` | app/routes/timesheets.new/route.tsx:21-36 | the result is null iff a time is unparsable or the end is after the start by at most 24 hours (exactly 24 passes); otherwise one error, always under `end_time`, whose message names the broken rule |
| `NewTimesheet.CreateTimesheet` | app/routes/timesheets.new/route.tsx:38-58 | rejected times return one error under `end_time`, with the end-before-start or the over-24-hours message as the times say, and insert nothing; accepted times insert exactly (employee_id, start_time, end_time, summary) as posted and redirect to `/timesheets` |
| `NewEmployee.EmailPatternShape` | app/routes/employees.new/route.tsx:26-28 | the email pattern accepts exactly: no whitespace, one `@` with something before it, and after it a `.` that is neither first nor last |
| `NewEmployee.PhonePatternShape` | app/routes/employees.new/route.tsx:42-44 | the phone pattern accepts exactly the non-empty strings of digits, whitespace, `-`, `(` and `)`, optionally after one leading `+` |
| `NewEmployee.EstimatedAgeRule` | app/routes/employees.new/route.tsx:30-36 | the age estimate rejects a posted birth less than 18 years of 365.25 days before now |
| `NewEmployee.ValidateEmployee` | app/routes/employees.new/route.tsx:19-47 | each of the email, date-of-birth, salary and phone rules is applied only to a posted non-empty field; a failing rule sets its own message under its field; the result is null iff no rule fails |
| `NewEmployee.CalculateAge` | app/routes/employees.new/route.tsx:134-142 | the age is the number of birthdays reached: the age-th anniversary is on or before today and the next one is after it |
| `NewEmployee.CompletedYears` | app/routes/employees.new/route.tsx:134-142 | such an age is at least n exactly when the n-th anniversary has come |
| `NewEmployee.HandleFileUpload` | app/routes/employees.new/route.tsx:72-81 | an empty file gives null; any other file gives `/uploads/{prefix}-{time}-{name}` |
| `NewEmployee.UploadPathRoundTrip` | app/routes/employees.new/route.tsx:72-81 | an upload path reads back as its dash-free prefix, its time stamp and the file name |
| `NewEmployee.UploadPathsDistinct` | app/routes/employees.new/route.tsx:72-81 | uploads with different prefixes never share a path, whatever their times and names |
| `NewEmployee.UploadsDistinct` | app/routes/employees.new/route.tsx:83-93 | the public paths returned for one request's files are pairwise different |
| `NewEmployee.MergedRow` | app/routes/employees.new/route.tsx:95-130 | spreading the upload paths over the posted fields binds exactly the eleven intended column values |
| `NewEmployee.CreateEmployee` | app/routes/employees.new/route.tsx:49-131 | a rejected form returns, under each field whose rule fails and no other, that rule's message, and writes and inserts nothing; otherwise the non-empty files are written first; an under-age calendar age then returns the age error without inserting (the files stay written); any other form inserts the eleven columns and redirects to `/employees` |
| `NewEmployee.UploadedColumns` | app/routes/employees.new/route.tsx:83-126 | photo, cv and id_doc fill `photo_path`, `cv_path` and `id_document_path` with the prefixes `photo`, `cv` and `id` whenever the file is non-empty |
| `NewEmployee.PostedPathKept` | app/routes/employees.new/route.tsx:96-126 | without a photo upload, a non-empty posted `photo_path` text field is stored as given |
| `Text.ParseIntToString` | app/routes/timesheets._index/route.tsx:85 | the decimal text of an integer reads back as that integer |
| `Text.IntToStringInjective` | app/routes/timesheets._index/route.tsx:41 | different integers have different decimal texts |
| `Text.LexCompareTransitive` | app/routes/employees._index/route.tsx:37 | the string order standing in for `localeCompare` is transitive |
| `Text.LexCompareAntisymmetric` | app/routes/employees._index/route.tsx:37 | swapping the strings negates the comparison |
| `Text.LexCompareZero` | app/routes/employees._index/route.tsx:37 | the string order standing in for `localeCompare` gives 0 exactly for equal strings |
| `Text.Lower` | app/routes/employees._index/route.tsx:23 | `toLowerCase` keeps the length and lower-cases each ASCII letter in place |
| `Text.LowerIdempotent` | app/routes/employees._index/route.tsx:23 | lower-casing an already lower-cased text changes nothing |
| `Text.ContainsEmpty` | app/routes/employees._index/route.tsx:23 | `includes("")` holds for every text |
| `Text.ContainsLower` | app/routes/employees._index/route.tsx:23 | a text that includes a term still includes it after both are lower-cased |
| `Text.IntToString` | app/routes/timesheets._index/route.tsx:41 | the decimal text of an integer is non-empty, starts with `-` exactly for negatives, and is all digits otherwise |
| `Seqs.Filter` | app/routes/employees._index/route.tsx:19-25 | `filter` keeps exactly the elements the callback accepts, each with its multiplicity, in their original order |
| `Seqs.Distinct` | app/routes/timesheets._index/route.tsx:33 | `Array.from(new Set(xs))` holds exactly the elements of xs, each once, in an order that is a subsequence of xs |
| `Seqs.DistinctFirstOccurrenceOrder` | app/routes/timesheets._index/route.tsx:33 | the distinct elements are listed in the order of their first occurrences |

## Left out

- Database access (`getDB`, `db.all`, `db.run`, the SQL text) is not modelled. The loaders' rows are inputs, and an insert is the tuple of bound values the action returns.
- The file system is not modelled: `fs.mkdir`, `fs.writeFile` and the buffer copy. A write is the path appended to `written`.
- `app/utils/writeAsyncIterableToFile.ts` is not part of this model; it is stream I/O.
- Clock and date parsing are parameters:
  - `Date.now()` and `new Date()`;
  - the local year, month, day, hour and minute of a parsed date;
  - whether a posted date parses at all.
- Floating point is left out:
  - `parseFloat` of the salary is a parameter of type `real`, with None for NaN;
  - the 365.25-day year is the exact integer 31557600000 ms;
  - the hours column and its `toFixed` display are not modelled.
- `localeCompare` is modelled as code-point order, and `toLowerCase` as ASCII lower-casing. Locale collation and Unicode case mapping are left out.
- Date and time text (`toLocaleDateString`, `toLocaleTimeString`) is not modelled.
- JSX rendering is not modelled, and neither are the Schedule-X calendar configuration, the table/calendar view switch or the `window.location` click handlers.
- `app/root.tsx`, `app/hooks/useMousePosition.ts`, `tailwind.config.js` and `scripts/` are not part of this model.
- The employee detail and timesheet detail routes are not part of this model.
- The per-employee upload routes (`app/routes/employees.$employeeId.upload/route.tsx`, and the upload intent at `app/routes/employees.$employeeId._index/route.tsx:82-95`) are not part of this model. They store files under `/uploads/{employeeId}/{type}-{Date.now()}.{extension}`.
- `NewEmployee.UploadsDistinct` states that the public paths are distinct, not the disk paths: `path.join` would normalise a client file name containing `..` or `/`, and that normalisation is not modelled.
- The loaders' `SELECT` ordering is not modelled. The list views take the rows in whatever order they arrive.
- `EmployeeList.SortEmployees` is a stable insertion sort under the corrected comparator, as JavaScript's `sort` is stable; the engine's own algorithm is not modelled.
- `EmployeeList.EmployeeListView.SetSearchTerm`: the search field sets the term, and the effect then resets the page. The model joins the two steps, so the render in between is left out.
- `TimesheetList.ColorForDepartment`: `colors[department]` would also find inherited object properties such as `constructor`. The model treats every name outside the seven as unknown.
- `TimesheetList.FormatDate`: the year is assumed to be an integer. The invalid-date text `NaN-NaN-NaN NaN:NaN` is not modelled.
- `NewTimesheet.ValidateTimesheet`: an absent field becomes `new Date(null)`, which is time 0. That is not derived from the form; the caller supplies the parsed times.
- A form field posted twice keeps its last value in `Object.fromEntries` but its first value in `formData.get`. The model uses one value per field.
- A missing file input would make `.size` throw. The model assumes the three file inputs are always posted, as the form does; an empty input posts a file of size 0.

## Findings

| source | as written | input that shows it | evidently intended | confidence | as-written member | corrected member |
|---|---|---|---|---|---|---|
| app/routes/employees._index/route.tsx:28-29 | the comparator returns 1 whenever the left record's sort field is null, even when the right one's is null too | two employees whose `start_date` is null, sorted by start date: compare(a, b) = compare(b, a) = 1 | two nulls compare equal (0), so the comparator is consistent and the sorted order is defined; with the code as written, the order among null-field rows depends on the engine's sort algorithm | low to medium, not executed | `EmployeeList.AsWrittenComparatorInconsistent` | `EmployeeList.SortEmployeesSorted` |
