/**
 * The new-employee action (app/routes/employees.new/route.tsx): the posted
 * fields are validated, the uploaded documents are stored under
 * `/uploads/{prefix}-{time}-{name}`, the date of birth is checked again in
 * calendar terms, and the row is inserted before the redirect to the list.
 *
 * What the JavaScript runtime supplies (the clock, `new Date(...)` applied to
 * the posted date of birth, `parseFloat` of the salary) enters as a `Runtime`
 * value; the file system is represented by the sequence of paths written.
 */
module NewEmployee {
  import opened Wrappers
  import opened Text

  /** The department choices of the form. */
  const Departments: seq<string> := ["Engineering", "Product", "Design", "Marketing", "Sales", "HR", "Finance"]

  // ---------------------------------------------------------------------
  // The two regular expressions of the validator
  // ---------------------------------------------------------------------

  /** The characters `\s` matches in a JavaScript regular expression. */
  predicate IsJsSpace(c: char) {
    var k := c as int;
    (9 <= k <= 13) || k == 32 || k == 0xA0 || k == 0x1680 || (0x2000 <= k <= 0x200A)
    || k == 0x2028 || k == 0x2029 || k == 0x202F || k == 0x205F || k == 0x3000 || k == 0xFEFF
  }

  /** `[^\s@]`. */
  predicate EmailChar(c: char) {
    !IsJsSpace(c) && c != '@'
  }

  predicate EmailChars(s: string) {
    forall i | 0 <= i < |s| :: EmailChar(s[i])
  }

  /** `s` reads as `local@domain.tld` with the `@` at `at` and the `.` at `dot`, each part one or more `[^\s@]`. */
  predicate EmailSplit(s: string, at: int, dot: int) {
    0 < at && at + 1 < dot && dot + 1 < |s| && s[at] == '@' && s[dot] == '.'
    && EmailChars(s[..at]) && EmailChars(s[at + 1..dot]) && EmailChars(s[dot + 1..])
  }

  /** The language of `/^[^\s@]+@[^\s@]+\.[^\s@]+$/`: some split of `s` fits the pattern. */
  predicate EmailPattern(s: string) {
    exists at, dot | 0 <= at < |s| && 0 <= dot < |s| :: EmailSplit(s, at, dot)
  }

  /** How often `c` occurs in `s`. */
  function Count(s: string, c: char): nat {
    if s == [] then 0 else (if s[0] == c then 1 else 0) + Count(s[1..], c)
  }

  lemma {:induction false} CountConcat(a: string, b: string, c: char)
    ensures Count(a + b, c) == Count(a, c) + Count(b, c)
  {
    if a == [] {
      assert a + b == b;
    } else {
      assert (a + b)[1..] == a[1..] + b;
      CountConcat(a[1..], b, c);
    }
  }

  lemma {:induction false} CountZero(s: string, c: char)
    ensures Count(s, c) == 0 <==> forall i | 0 <= i < |s| :: s[i] != c
  {
    if s != [] {
      CountZero(s[1..], c);
      assert forall i | 1 <= i < |s| :: s[i] == s[1..][i - 1];
    }
  }

  /** The email rule in words: no whitespace, exactly one `@` with something before it, and after it a `.` that is neither first nor last. */
  predicate EmailShape(s: string) {
    (forall i | 0 <= i < |s| :: !IsJsSpace(s[i]))
    && Count(s, '@') == 1
    && exists at, dot | 0 <= at < |s| && 0 <= dot < |s| :: 0 < at && at + 1 < dot && dot + 1 < |s| && s[at] == '@' && s[dot] == '.'
  }

  /** A split that fits the pattern leaves exactly one `@`, at the split. */
  lemma SplitCount(s: string, at: int, dot: int)
    requires EmailSplit(s, at, dot)
    ensures Count(s, '@') == 1
  {
    var local, domain := s[..at], s[at + 1..];
    assert s == local + [s[at]] + domain;
    CountConcat(local + [s[at]], domain, '@');
    CountConcat(local, [s[at]], '@');
    CountZero(local, '@');
    assert domain == s[at + 1..dot] + [s[dot]] + s[dot + 1..];
    CountConcat(s[at + 1..dot] + [s[dot]], s[dot + 1..], '@');
    CountConcat(s[at + 1..dot], [s[dot]], '@');
    CountZero(s[at + 1..dot], '@');
    CountZero(s[dot + 1..], '@');
  }

  /** A split that fits the pattern leaves no whitespace anywhere. */
  lemma SplitNoSpace(s: string, at: int, dot: int)
    requires EmailSplit(s, at, dot)
    ensures forall i | 0 <= i < |s| :: !IsJsSpace(s[i])
  {
    forall i | 0 <= i < |s|
      ensures !IsJsSpace(s[i])
    {
      if i < at {
        assert s[i] == s[..at][i];
      } else if at < i < dot {
        assert s[i] == s[at + 1..dot][i - at - 1];
      } else if dot < i {
        assert s[i] == s[dot + 1..][i - dot - 1];
      }
    }
  }

  /** When `@` occurs once, every other position holds something else. */
  lemma OnlyOccurrence(s: string, at: int, c: char)
    requires 0 <= at < |s| && s[at] == c && Count(s, c) == 1
    ensures forall i | 0 <= i < |s| && i != at :: s[i] != c
  {
    assert s == s[..at] + [s[at]] + s[at + 1..];
    CountConcat(s[..at] + [s[at]], s[at + 1..], c);
    CountConcat(s[..at], [s[at]], c);
    CountZero(s[..at], c);
    CountZero(s[at + 1..], c);
    forall i | 0 <= i < |s| && i != at
      ensures s[i] != c
    {
      if i < at {
        assert s[i] == s[..at][i];
      } else {
        assert s[i] == s[at + 1..][i - at - 1];
      }
    }
  }

  /** The email pattern accepts exactly the strings of that shape. */
  lemma EmailPatternShape(s: string)
    ensures EmailPattern(s) <==> EmailShape(s)
  {
    if EmailPattern(s) {
      var at, dot :| 0 <= at < |s| && 0 <= dot < |s| && EmailSplit(s, at, dot);
      SplitCount(s, at, dot);
      SplitNoSpace(s, at, dot);
    }
    if EmailShape(s) {
      var at, dot :| 0 <= at < |s| && 0 <= dot < |s| && 0 < at && at + 1 < dot && dot + 1 < |s| && s[at] == '@' && s[dot] == '.';
      OnlyOccurrence(s, at, '@');
      assert EmailChars(s[..at]);
      assert EmailChars(s[at + 1..dot]);
      assert EmailChars(s[dot + 1..]);
      assert EmailSplit(s, at, dot);
    }
  }

  /** `[\d\s-()]`: a digit, whitespace, `-`, `(` or `)`. */
  predicate PhoneChar(c: char) {
    IsDigit(c) || IsJsSpace(c) || c == '-' || c == '(' || c == ')'
  }

  predicate PhoneChars(s: string) {
    forall i | 0 <= i < |s| :: PhoneChar(s[i])
  }

  /** The language of `/^\+?[\d\s-()]+$/`. */
  predicate PhonePattern(s: string) {
    (0 < |s| && PhoneChars(s)) || (1 < |s| && s[0] == '+' && PhoneChars(s[1..]))
  }

  /** The phone pattern in words: every character is a phone character, except that the first may be `+`, and the last is not. */
  lemma PhonePatternShape(s: string)
    ensures PhonePattern(s) <==>
      0 < |s| && PhoneChar(s[|s| - 1]) && forall i | 0 <= i < |s| :: PhoneChar(s[i]) || (i == 0 && s[i] == '+')
  {
    if 1 < |s| && s[0] == '+' {
      assert forall i | 1 <= i < |s| :: s[i] == s[1..][i - 1];
    }
  }

  // ---------------------------------------------------------------------
  // validateEmployee
  // ---------------------------------------------------------------------

  const EmailMessage := "Invalid email address"
  const AgeMessage := "Employee must be at least 18 years old"
  const SalaryMessage := "Salary must be at least $30,000"
  const PhoneMessage := "Invalid phone number format"

  const MinAge: int := 18
  const MinSalary: real := 30000.0
  /** `365.25 * 24 * 60 * 60 * 1000`, the average year of the age estimate, in milliseconds. */
  const YearMs: int := 31557600000

  /** A local calendar date; months are numbered from 0 as `getMonth()` numbers them. */
  datatype CalendarDate = CalendarDate(year: int, month: int, day: int)

  /**
   * What the runtime contributes to one request: `Date.now()` in the
   * validator, the local date of `new Date()` in `calculateAge`, the posted
   * date of birth parsed as a time value and as a local date (None when it
   * does not parse, where JavaScript computes with NaN), `parseFloat` of the
   * posted salary (None for NaN), and `Date.now()` at each of the three uploads.
   */
  datatype Runtime = Runtime(
    nowMs: int,
    today: CalendarDate,
    birthMs: Option<int>,
    birthDate: Option<CalendarDate>,
    salary: Option<real>,
    photoMs: nat,
    cvMs: nat,
    idMs: nat)

  /** `formData.get(key)?.toString()` is truthy: the field was posted and is not empty. */
  predicate Posted(fields: map<string, string>, key: string) {
    key in fields && fields[key] != ""
  }

  predicate EmailRejected(fields: map<string, string>) {
    Posted(fields, "email") && !EmailPattern(fields["email"])
  }

  /** `Math.floor((Date.now() - birth) / year) < 18`; with NaN the comparison is false. */
  predicate BirthRejected(fields: map<string, string>, rt: Runtime) {
    Posted(fields, "date_of_birth") && rt.birthMs.Some? && (rt.nowMs - rt.birthMs.value) / YearMs < MinAge
  }

  /** `parseFloat(salary) < 30000`; with NaN the comparison is false. */
  predicate SalaryRejected(fields: map<string, string>, rt: Runtime) {
    Posted(fields, "salary") && rt.salary.Some? && rt.salary.value < MinSalary
  }

  predicate PhoneRejected(fields: map<string, string>) {
    Posted(fields, "phone") && !PhonePattern(fields["phone"])
  }

  predicate Rejected(fields: map<string, string>, rt: Runtime) {
    EmailRejected(fields) || BirthRejected(fields, rt) || SalaryRejected(fields, rt) || PhoneRejected(fields)
  }

  /** The age estimate rejects a birth less than eighteen average years (of 365.25 days) before now. */
  lemma EstimatedAgeRule(fields: map<string, string>, rt: Runtime)
    ensures BirthRejected(fields, rt) <==>
      Posted(fields, "date_of_birth") && rt.birthMs.Some? && rt.nowMs - rt.birthMs.value < MinAge * YearMs
  {
    if rt.birthMs.Some? {
      var d := rt.nowMs - rt.birthMs.value;
      assert d == YearMs * (d / YearMs) + d % YearMs;
    }
  }

  /**
   * `validateEmployee`: each rule is checked only for a posted, non-empty
   * field, and each failing rule leaves its message under the field's name;
   * the result is null exactly when no rule fails.
   */
  method ValidateEmployee(fields: map<string, string>, rt: Runtime) returns (errors: Option<map<string, string>>)
    ensures errors.None? <==> !Rejected(fields, rt)
    ensures errors.Some? ==> errors.value.Keys <= {"email", "date_of_birth", "salary", "phone"}
    ensures errors.Some? ==> ("email" in errors.value <==> EmailRejected(fields))
    ensures errors.Some? ==> ("date_of_birth" in errors.value <==> BirthRejected(fields, rt))
    ensures errors.Some? ==> ("salary" in errors.value <==> SalaryRejected(fields, rt))
    ensures errors.Some? ==> ("phone" in errors.value <==> PhoneRejected(fields))
    ensures errors.Some? && "email" in errors.value ==> errors.value["email"] == EmailMessage
    ensures errors.Some? && "date_of_birth" in errors.value ==> errors.value["date_of_birth"] == AgeMessage
    ensures errors.Some? && "salary" in errors.value ==> errors.value["salary"] == SalaryMessage
    ensures errors.Some? && "phone" in errors.value ==> errors.value["phone"] == PhoneMessage
  {
    var e: map<string, string> := map[];
    var email := Get(fields, "email");
    var dateOfBirth := Get(fields, "date_of_birth");
    var salary := Get(fields, "salary");
    var phone := Get(fields, "phone");

    if email.Some? && email.value != "" && !EmailPattern(email.value) {
      e := e["email" := EmailMessage];
    }
    if dateOfBirth.Some? && dateOfBirth.value != "" && rt.birthMs.Some? {
      var age := (rt.nowMs - rt.birthMs.value) / YearMs;
      if age < MinAge {
        e := e["date_of_birth" := AgeMessage];
      }
    }
    if salary.Some? && salary.value != "" && rt.salary.Some? && rt.salary.value < MinSalary {
      e := e["salary" := SalaryMessage];
    }
    if phone.Some? && phone.value != "" && !PhonePattern(phone.value) {
      e := e["phone" := PhoneMessage];
    }
    errors := if |e| > 0 then Some(e) else None;
  }

  // ---------------------------------------------------------------------
  // calculateAge
  // ---------------------------------------------------------------------

  /** `a` falls on or before `b` in the calendar. */
  predicate OnOrBefore(a: CalendarDate, b: CalendarDate) {
    a.year < b.year || (a.year == b.year && (a.month < b.month || (a.month == b.month && a.day <= b.day)))
  }

  /** The `years`-th birthday: the same month and day, `years` later. */
  function Anniversary(birth: CalendarDate, years: int): CalendarDate {
    CalendarDate(birth.year + years, birth.month, birth.day)
  }

  /** `calculateAge`: the number of birthdays that have come by `today`. */
  method CalculateAge(birth: CalendarDate, today: CalendarDate) returns (age: int)
    ensures OnOrBefore(Anniversary(birth, age), today)
    ensures !OnOrBefore(Anniversary(birth, age + 1), today)
  {
    age := today.year - birth.year;
    var m := today.month - birth.month;
    if m < 0 || (m == 0 && today.day < birth.day) {
      age := age - 1;
    }
  }

  /** An age with that property is reached by exactly the birthdays up to it, so it is unique. */
  lemma CompletedYears(birth: CalendarDate, today: CalendarDate, age: int, n: int)
    requires OnOrBefore(Anniversary(birth, age), today)
    requires !OnOrBefore(Anniversary(birth, age + 1), today)
    ensures n <= age <==> OnOrBefore(Anniversary(birth, n), today)
  {
  }

  // ---------------------------------------------------------------------
  // Uploads
  // ---------------------------------------------------------------------

  /** A posted file: an empty file input posts a file of size 0. */
  datatype UploadedFile = UploadedFile(name: string, size: nat)

  const UploadsDir := "/uploads/"

  /** The public path of an upload stored under `{prefix}-{stamp}-{name}`. */
  function UploadPath(prefix: string, stamp: nat, name: string): string {
    UploadsDir + prefix + "-" + NatToString(stamp) + "-" + name
  }

  /** `handleFileUpload`: an empty file stores nothing; any other is stored and its public path returned. */
  function HandleFileUpload(file: UploadedFile, prefix: string, stamp: nat): (r: Option<string>)
    ensures r.None? <==> file.size == 0
    ensures r.Some? ==> r.value == UploadPath(prefix, stamp, file.name)
  {
    if file.size > 0 then Some(UploadPath(prefix, stamp, file.name)) else None
  }

  /** The first index of `c` in `s`, or `|s|` when there is none. */
  function IndexOf(s: string, c: char): (k: nat)
    ensures k <= |s|
    ensures k < |s| ==> s[k] == c
    ensures forall i | 0 <= i < k :: s[i] != c
  {
    if s == [] then 0 else if s[0] == c then 0 else 1 + IndexOf(s[1..], c)
  }

  /** Splits `s` at its first `-`, or fails when there is none. */
  function SplitAtDash(s: string): (r: Option<(string, string)>)
    ensures r.Some? ==> '-' !in r.value.0 && s == r.value.0 + "-" + r.value.1
  {
    var i := IndexOf(s, '-');
    if i == |s| then None
    else
      assert s == s[..i] + "-" + s[i + 1..];
      Some((s[..i], s[i + 1..]))
  }

  /** Reads an upload path back as its prefix, time stamp and file name. */
  function ParseUploadPath(p: string): Option<(string, nat, string)> {
    if |p| < |UploadsDir| || p[..|UploadsDir|] != UploadsDir then None
    else match SplitAtDash(p[|UploadsDir|..])
      case None => None
      case Some((prefix, after)) =>
        match SplitAtDash(after)
        case None => None
        case Some((digits, name)) =>
          if AllDigits(digits) then Some((prefix, ParseNat(digits), name)) else None
  }

  /** A dash-free head followed by `-` is split off intact. */
  lemma SplitAtDashAfter(a: string, b: string)
    requires '-' !in a
    ensures SplitAtDash(a + "-" + b) == Some((a, b))
  {
    var s := a + "-" + b;
    assert s[|a|] == '-';
    assert forall i | 0 <= i < |a| :: s[i] == a[i];
    assert IndexOf(s, '-') == |a|;
    assert s[..|a|] == a && s[|a| + 1..] == b;
  }

  /** A prefix without `-` is recovered from the path, together with the time stamp and the file name. */
  lemma UploadPathRoundTrip(prefix: string, stamp: nat, name: string)
    requires '-' !in prefix
    ensures ParseUploadPath(UploadPath(prefix, stamp, name)) == Some((prefix, stamp, name))
  {
    var digits := NatToString(stamp);
    var after := digits + "-" + name;
    var p := UploadPath(prefix, stamp, name);
    assert p == UploadsDir + (prefix + "-" + after);
    assert p[..|UploadsDir|] == UploadsDir && p[|UploadsDir|..] == prefix + "-" + after;
    SplitAtDashAfter(prefix, after);
    assert '-' !in digits by {
      assert forall i | 0 <= i < |digits| :: IsDigit(digits[i]);
    }
    SplitAtDashAfter(digits, name);
    ParseNatToString(stamp);
  }

  /** Uploads with different dash-free prefixes never share a path, whatever their times and names. */
  lemma UploadPathsDistinct(p1: string, s1: nat, n1: string, p2: string, s2: nat, n2: string)
    requires '-' !in p1 && '-' !in p2 && p1 != p2
    ensures UploadPath(p1, s1, n1) != UploadPath(p2, s2, n2)
  {
    UploadPathRoundTrip(p1, s1, n1);
    UploadPathRoundTrip(p2, s2, n2);
  }

  // ---------------------------------------------------------------------
  // action
  // ---------------------------------------------------------------------

  /** The posted form: its text fields and the three file inputs. */
  datatype EmployeeForm = EmployeeForm(fields: map<string, string>, photo: UploadedFile, cv: UploadedFile, idDoc: UploadedFile)

  datatype EmployeeActionResult =
    | FieldErrors(errors: map<string, string>)
    | AgeError(message: string)
    | Redirect(location: string)

  /** The calendar check of the action; an unparsable date of birth yields NaN and passes. */
  predicate Underage(rt: Runtime) {
    rt.birthDate.Some? && !OnOrBefore(Anniversary(rt.birthDate.value, MinAge), rt.today)
  }

  /** The paths the action writes, in the order it writes them: photo, CV, identity document. */
  function Uploads(form: EmployeeForm, rt: Runtime): seq<string> {
    (if form.photo.size > 0 then [UploadPath("photo", rt.photoMs, form.photo.name)] else [])
    + (if form.cv.size > 0 then [UploadPath("cv", rt.cvMs, form.cv.name)] else [])
    + (if form.idDoc.size > 0 then [UploadPath("id", rt.idMs, form.idDoc.name)] else [])
  }

  /** `value || null` for a possibly absent string. */
  function OrNull(v: Option<string>): (r: Option<string>)
    ensures r.Some? <==> v.Some? && v.value != ""
    ensures r.Some? ==> r == v
  {
    if v.Some? && v.value != "" then v else None
  }

  /** A document column: the new upload's path, else a non-empty posted value of the same name, else null. */
  function StoredPath(upload: Option<string>, posted: Option<string>): Option<string> {
    if upload.Some? then upload else OrNull(posted)
  }

  /**
   * The values bound to `full_name, email, phone, date_of_birth, department,
   * job_title, salary, start_date, photo_path, cv_path, id_document_path`.
   */
  function InsertedRow(form: EmployeeForm, rt: Runtime): seq<Option<string>> {
    var f := form.fields;
    [Get(f, "full_name"), Get(f, "email"), Get(f, "phone"), Get(f, "date_of_birth"),
     Get(f, "department"), Get(f, "job_title"), Get(f, "salary"), Get(f, "start_date"),
     StoredPath(HandleFileUpload(form.photo, "photo", rt.photoMs), Get(f, "photo_path")),
     StoredPath(HandleFileUpload(form.cv, "cv", rt.cvMs), Get(f, "cv_path")),
     StoredPath(HandleFileUpload(form.idDoc, "id", rt.idMs), Get(f, "id_document_path"))]
  }

  /** The values the insert binds, read from the merged employee object. */
  function BoundValues(employee: map<string, string>): seq<Option<string>> {
    [Get(employee, "full_name"), Get(employee, "email"), Get(employee, "phone"), Get(employee, "date_of_birth"),
     Get(employee, "department"), Get(employee, "job_title"), Get(employee, "salary"), Get(employee, "start_date"),
     OrNull(Get(employee, "photo_path")), OrNull(Get(employee, "cv_path")), OrNull(Get(employee, "id_document_path"))]
  }

  /** The upload paths of one request, keyed by the column each one fills. */
  predicate DescribesUploads(fileUploads: map<string, string>, form: EmployeeForm, rt: Runtime) {
    fileUploads.Keys <= {"photo_path", "cv_path", "id_document_path"}
    && ("photo_path" in fileUploads <==> form.photo.size > 0)
    && ("cv_path" in fileUploads <==> form.cv.size > 0)
    && ("id_document_path" in fileUploads <==> form.idDoc.size > 0)
    && ("photo_path" in fileUploads ==> fileUploads["photo_path"] == UploadPath("photo", rt.photoMs, form.photo.name))
    && ("cv_path" in fileUploads ==> fileUploads["cv_path"] == UploadPath("cv", rt.cvMs, form.cv.name))
    && ("id_document_path" in fileUploads ==> fileUploads["id_document_path"] == UploadPath("id", rt.idMs, form.idDoc.name))
  }

  /** Object spread: a key of the later object wins. */
  lemma GetMerged(f: map<string, string>, u: map<string, string>, k: string)
    ensures Get(f + u, k) == if k in u then Some(u[k]) else Get(f, k)
  {
  }

  /** Spreading the uploads over the posted fields binds exactly `InsertedRow`. */
  lemma MergedRow(form: EmployeeForm, rt: Runtime, fileUploads: map<string, string>)
    requires DescribesUploads(fileUploads, form, rt)
    ensures BoundValues(form.fields + fileUploads) == InsertedRow(form, rt)
  {
    var f, u := form.fields, fileUploads;
    var bound, row := BoundValues(f + u), InsertedRow(form, rt);
    var text := ["full_name", "email", "phone", "date_of_birth", "department", "job_title", "salary", "start_date"];
    forall k | 0 <= k < 8
      ensures bound[k] == row[k]
    {
      assert text[k] !in u;
      GetMerged(f, u, text[k]);
    }
    GetMerged(f, u, "photo_path");
    GetMerged(f, u, "cv_path");
    GetMerged(f, u, "id_document_path");
    assert bound[8] == row[8];
    assert bound[9] == row[9];
    assert bound[10] == row[10];
  }

  /**
   * `action`: a form the validator rejects gets back one message per broken
   * rule, under the field's name, and nothing is written. Otherwise every non-empty file is stored first; an under-age
   * date of birth is then refused (the stored files stay), and any other form
   * is inserted as `InsertedRow` and redirected to the list.
   */
  method CreateEmployee(form: EmployeeForm, rt: Runtime)
    returns (result: EmployeeActionResult, written: seq<string>, inserted: Option<seq<Option<string>>>)
    ensures result.FieldErrors? <==> Rejected(form.fields, rt)
    ensures result.FieldErrors? ==> result.errors != map[] && written == [] && inserted.None?
    ensures result.FieldErrors? ==> result.errors.Keys <= {"email", "date_of_birth", "salary", "phone"}
    ensures result.FieldErrors? ==> ("email" in result.errors <==> EmailRejected(form.fields))
    ensures result.FieldErrors? ==> ("date_of_birth" in result.errors <==> BirthRejected(form.fields, rt))
    ensures result.FieldErrors? ==> ("salary" in result.errors <==> SalaryRejected(form.fields, rt))
    ensures result.FieldErrors? ==> ("phone" in result.errors <==> PhoneRejected(form.fields))
    ensures result.FieldErrors? && "email" in result.errors ==> result.errors["email"] == EmailMessage
    ensures result.FieldErrors? && "date_of_birth" in result.errors ==> result.errors["date_of_birth"] == AgeMessage
    ensures result.FieldErrors? && "salary" in result.errors ==> result.errors["salary"] == SalaryMessage
    ensures result.FieldErrors? && "phone" in result.errors ==> result.errors["phone"] == PhoneMessage
    ensures !result.FieldErrors? ==> written == Uploads(form, rt)
    ensures result.AgeError? <==> !Rejected(form.fields, rt) && Underage(rt)
    ensures result.AgeError? ==> result.message == AgeMessage && inserted.None?
    ensures result.Redirect? ==> result.location == "/employees" && inserted == Some(InsertedRow(form, rt))
  {
    var errors := ValidateEmployee(form.fields, rt);
    if errors.Some? {
      return FieldErrors(errors.value), [], None;
    }

    written := [];
    var fileUploads: map<string, string> := map[];
    if form.photo.size > 0 {
      var path := HandleFileUpload(form.photo, "photo", rt.photoMs);
      fileUploads := fileUploads["photo_path" := path.value];
      written := written + [path.value];
    }
    if form.cv.size > 0 {
      var path := HandleFileUpload(form.cv, "cv", rt.cvMs);
      fileUploads := fileUploads["cv_path" := path.value];
      written := written + [path.value];
    }
    if form.idDoc.size > 0 {
      var path := HandleFileUpload(form.idDoc, "id", rt.idMs);
      fileUploads := fileUploads["id_document_path" := path.value];
      written := written + [path.value];
    }
    assert DescribesUploads(fileUploads, form, rt);
    var employee := form.fields + fileUploads;

    if rt.birthDate.Some? {
      var age := CalculateAge(rt.birthDate.value, rt.today);
      CompletedYears(rt.birthDate.value, rt.today, age, MinAge);
      if age < MinAge {
        return AgeError(AgeMessage), written, None;
      }
    }

    MergedRow(form, rt, fileUploads);
    inserted := Some(BoundValues(employee));
    result := Redirect("/employees");
  }

  /** Each document column holds the new upload's path exactly when that file was non-empty. */
  lemma UploadedColumns(form: EmployeeForm, rt: Runtime)
    ensures form.photo.size > 0 ==> InsertedRow(form, rt)[8] == Some(UploadPath("photo", rt.photoMs, form.photo.name))
    ensures form.cv.size > 0 ==> InsertedRow(form, rt)[9] == Some(UploadPath("cv", rt.cvMs, form.cv.name))
    ensures form.idDoc.size > 0 ==> InsertedRow(form, rt)[10] == Some(UploadPath("id", rt.idMs, form.idDoc.name))
  {
  }

  /** Without an upload, a path posted as a text field of the same name is stored as given. */
  lemma PostedPathKept(form: EmployeeForm, rt: Runtime)
    requires form.photo.size == 0 && Posted(form.fields, "photo_path")
    ensures InsertedRow(form, rt)[8] == Some(form.fields["photo_path"])
  {
  }

  /**
   * The public paths `handleFileUpload` returns for one request are pairwise
   * distinct, even within one millisecond, because each starts with its own
   * prefix. Where `path.join` would normalise a client file name containing
   * `..`, two files could still land on one disk path; that is not modelled.
   */
  lemma UploadsDistinct(form: EmployeeForm, rt: Runtime)
    ensures forall i, j | 0 <= i < j < |Uploads(form, rt)| :: Uploads(form, rt)[i] != Uploads(form, rt)[j]
  {
    var photo := UploadPath("photo", rt.photoMs, form.photo.name);
    var cv := UploadPath("cv", rt.cvMs, form.cv.name);
    var id := UploadPath("id", rt.idMs, form.idDoc.name);
    UploadPathsDistinct("photo", rt.photoMs, form.photo.name, "cv", rt.cvMs, form.cv.name);
    UploadPathsDistinct("photo", rt.photoMs, form.photo.name, "id", rt.idMs, form.idDoc.name);
    UploadPathsDistinct("cv", rt.cvMs, form.cv.name, "id", rt.idMs, form.idDoc.name);
    var u := Uploads(form, rt);
    assert forall k | 0 <= k < |u| :: u[k] in {photo, cv, id};
    assert forall k | 0 <= k < |u| && u[k] == photo :: k == 0;
    assert forall k | 0 <= k < |u| && u[k] == id :: k == |u| - 1;
  }
}
