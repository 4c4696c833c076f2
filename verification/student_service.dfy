/** `StudentService`: the student listing, the create, update (including the
    primary-key rename) and delete operations, and the programs of a college. */
module StudentService {
  import opened Common
  import opened Text
  import opened Values
  import opened Views
  import opened Store
  import ProgramService

  // ---------------------------------------------------------------- listing

  /** A student loaded with its `program` relationship. */
  datatype StudentRow = StudentRow(id: string, student: Student, program: Option<Program>)

  /** The row the outer join yields for a stored student. */
  function Join(db: Db, id: string): (r: StudentRow)
    requires id in db.students
    ensures r.id == id && r.student == db.students[id]
    ensures r.program.Some? <==> r.student.programId.Some? && r.student.programId.value in db.programs
    ensures r.program.Some? ==> r.program.value == db.programs[r.student.programId.value]
  {
    var s := db.students[id];
    if s.programId.Some? && s.programId.value in db.programs then StudentRow(id, s, Some(db.programs[s.programId.value]))
    else StudentRow(id, s, None)
  }

  const NotApplicable := "Not Applicable"

  /** `Student.to_dict`: the program's name and code, or "Not Applicable" for both. */
  function ToDict(row: StudentRow): (v: StudentView)
    ensures v.id == row.id && v.firstName == row.student.firstName && v.lastName == row.student.lastName
    ensures v.programId == row.student.programId && v.yearLevel == row.student.yearLevel
    ensures v.gender == row.student.gender && v.photo == row.student.photo
    ensures row.program.None? ==> v.programName == NotApplicable && v.programCode == NotApplicable
    ensures row.program.Some? ==> v.programName == row.program.value.name && v.programCode == row.program.value.code
  {
    var s := row.student;
    var name := if row.program.Some? then row.program.value.name else NotApplicable;
    var code := if row.program.Some? then row.program.value.code else NotApplicable;
    StudentView(row.id, s.firstName, s.lastName, s.programId, name, code, s.yearLevel, s.gender, s.photo)
  }

  datatype Column = IdColumn | FirstNameColumn | LastNameColumn | ProgramColumn | YearColumn | GenderColumn

  /** `ORDER BY` for the six sortable columns; an empty or unknown `sort_by` leaves the rows unordered. */
  function ListOrder(sortBy: string, order: string): (r: Order<Column>)
    ensures r.Unordered? <==> sortBy !in {"id", "first_name", "last_name", "program", "year_level", "gender"}
    ensures r.OrderBy? ==> ((r.descending <==> order == "desc")
                         && (r.column == ProgramColumn <==> sortBy == "program")
                         && (r.column == YearColumn <==> sortBy == "year_level"))
  {
    var desc := order == "desc";
    if sortBy == "id" then OrderBy(IdColumn, desc)
    else if sortBy == "first_name" then OrderBy(FirstNameColumn, desc)
    else if sortBy == "last_name" then OrderBy(LastNameColumn, desc)
    else if sortBy == "program" then OrderBy(ProgramColumn, desc)
    else if sortBy == "year_level" then OrderBy(YearColumn, desc)
    else if sortBy == "gender" then OrderBy(GenderColumn, desc)
    else Unordered
  }

  /** The program sort key `COALESCE(program.name, '')`. */
  function ProgramSortKey(row: StudentRow): string {
    if row.program.Some? then row.program.value.name else ""
  }

  /** Row `a` may come before `b` in ascending order of `col`: text columns
      compare as text, the year level as a number. */
  predicate Ascending(col: Column, a: StudentRow, b: StudentRow) {
    match col
    case IdColumn => TextLe(a.id, b.id)
    case FirstNameColumn => TextLe(a.student.firstName, b.student.firstName)
    case LastNameColumn => TextLe(a.student.lastName, b.student.lastName)
    case ProgramColumn => TextLe(ProgramSortKey(a), ProgramSortKey(b))
    case YearColumn => a.student.yearLevel <= b.student.yearLevel
    case GenderColumn => TextLe(a.student.gender, b.student.gender)
  }

  /** Whether row `a` may be listed before `b` under `o`. */
  predicate Before(o: Order<Column>, a: StudentRow, b: StudentRow) {
    match o
    case Unordered => true
    case OrderBy(col, desc) => if desc then Ascending(col, b, a) else Ascending(col, a, b)
  }

  function BeforeIn(o: Order<Column>): (StudentRow, StudentRow) -> bool {
    (a, b) => Before(o, a, b)
  }

  predicate InOrder(rows: seq<StudentRow>, o: Order<Column>) {
    OrderedBy(rows, BeforeIn(o))
  }

  datatype SearchColumn = IdText | FirstNameText | LastNameText | ProgramNameText | GenderText

  /** The columns the filter searches; `None` is no filter. The route also
      lets `first_name`, `last_name` and `year_level` through, and for those
      no filter applies. */
  function SearchColumns(search: string, searchBy: string): (r: Option<set<SearchColumn>>)
    ensures r.None? <==> search == [] || searchBy !in {"all", "id", "name", "program", "gender"}
    ensures r.Some? && searchBy == "all" ==> r.value == {IdText, FirstNameText, LastNameText, ProgramNameText, GenderText}
    ensures r.Some? && searchBy == "name" ==> r.value == {FirstNameText, LastNameText}
    ensures r.Some? ==> r.value != {}
  {
    if search == [] then None
    else if searchBy == "all" then Some({IdText, FirstNameText, LastNameText, ProgramNameText, GenderText})
    else if searchBy == "id" then Some({IdText})
    else if searchBy == "name" then Some({FirstNameText, LastNameText})
    else if searchBy == "program" then Some({ProgramNameText})
    else if searchBy == "gender" then Some({GenderText})
    else None
  }

  /** `column.ilike('%' + search.lower() + '%')`; a student without a program
      has a `NULL` program name, which matches nothing. */
  predicate ColumnMatches(row: StudentRow, col: SearchColumn, search: string) {
    var pattern := Lower(search);
    match col
    case IdText => ILike(row.id, pattern)
    case FirstNameText => ILike(row.student.firstName, pattern)
    case LastNameText => ILike(row.student.lastName, pattern)
    case ProgramNameText => row.program.Some? && ILike(row.program.value.name, pattern)
    case GenderText => ILike(row.student.gender, pattern)
  }

  predicate Matches(row: StudentRow, search: string, searchBy: string) {
    match SearchColumns(search, searchBy)
    case None => true
    case Some(cols) => exists col :: col in cols && ColumnMatches(row, col, search)
  }

  function Where(search: string, searchBy: string): StudentRow -> bool {
    row => Matches(row, search, searchBy)
  }

  /** `list_all`: every matching row, unpaginated; `rows` is the joined table
      in the order `ListOrder` asks for. */
  function ListAll(rows: seq<StudentRow>, sortBy: string, order: string, search: string, searchBy: string)
    : (r: Outcome<seq<StudentView>>)
    ensures r.Done? && r.status == Ok
    ensures |r.value| == |Filter(rows, Where(search, searchBy))| <= |rows|
    ensures forall i :: 0 <= i < |r.value| ==>
      exists row :: row in rows && Matches(row, search, searchBy) && r.value[i] == ToDict(row)
    ensures forall row :: row in rows && Matches(row, search, searchBy) ==> ToDict(row) in r.value
  {
    var keep := Where(search, searchBy);
    MapOfFilter(rows, keep, ToDict);
    assert forall x :: keep(x) == Matches(x, search, searchBy);
    Done(Ok, Map(Filter(rows, keep), ToDict))
  }

  /** Rows in the order `order_by` gives them are listed in that order: the
      listing is the dictionaries of the matching rows, which keep it. */
  lemma ListKeepsOrder(rows: seq<StudentRow>, sortBy: string, order: string, search: string, searchBy: string)
    requires InOrder(rows, ListOrder(sortBy, order))
    ensures var listed := Filter(rows, Where(search, searchBy));
      && InOrder(listed, ListOrder(sortBy, order))
      && ListAll(rows, sortBy, order, search, searchBy).value == Map(listed, ToDict)
  {
    var o := ListOrder(sortBy, order);
    FilterKeepsOrder(rows, Where(search, searchBy), BeforeIn(o));
  }

  /** A `search_by` the route accepts but the listing does not know lists
      every student, whatever the search text. */
  lemma UnfilteredSearchBy(rows: seq<StudentRow>, sortBy: string, order: string, search: string, searchBy: string)
    requires searchBy in {"first_name", "last_name", "year_level"}
    ensures ListAll(rows, sortBy, order, search, searchBy).value == Map(rows, ToDict)
  {
    FilterAll(rows, Where(search, searchBy));
  }

  /** The search the listing page offers: `first_name` and `last_name`
      search their own column. `year_level` keeps the unfiltered listing. */
  function IntendedColumns(search: string, searchBy: string): (r: Option<set<SearchColumn>>)
    ensures searchBy == "first_name" && search != [] ==> r == Some({FirstNameText})
    ensures searchBy == "last_name" && search != [] ==> r == Some({LastNameText})
    ensures searchBy !in {"first_name", "last_name"} ==> r == SearchColumns(search, searchBy)
  {
    if search == [] then None
    else if searchBy == "first_name" then Some({FirstNameText})
    else if searchBy == "last_name" then Some({LastNameText})
    else SearchColumns(search, searchBy)
  }

  predicate IntendedMatches(row: StudentRow, search: string, searchBy: string) {
    match IntendedColumns(search, searchBy)
    case None => true
    case Some(cols) => exists col :: col in cols && ColumnMatches(row, col, search)
  }

  function IntendedWhere(search: string, searchBy: string): StudentRow -> bool {
    row => IntendedMatches(row, search, searchBy)
  }

  /** The listing with the corrected search. */
  function ListAllIntended(rows: seq<StudentRow>, sortBy: string, order: string, search: string, searchBy: string)
    : (r: Outcome<seq<StudentView>>)
    ensures r.Done? && r.status == Ok
    ensures |r.value| == |Filter(rows, IntendedWhere(search, searchBy))| <= |rows|
    ensures forall i :: 0 <= i < |r.value| ==>
      exists row :: row in rows && IntendedMatches(row, search, searchBy) && r.value[i] == ToDict(row)
    ensures forall row :: row in rows && IntendedMatches(row, search, searchBy) ==> ToDict(row) in r.value
  {
    var keep := IntendedWhere(search, searchBy);
    MapOfFilter(rows, keep, ToDict);
    assert forall x :: keep(x) == IntendedMatches(x, search, searchBy);
    Done(Ok, Map(Filter(rows, keep), ToDict))
  }

  /** With the corrected search, a first-name search lists exactly the
      students whose first name contains the text. */
  lemma IntendedFirstNameSearch(rows: seq<StudentRow>, sortBy: string, order: string, search: string)
    requires search != []
    ensures forall row :: row in rows ==>
      (ToDict(row) in ListAllIntended(rows, sortBy, order, search, "first_name").value
         <== ILike(row.student.firstName, Lower(search)))
    ensures forall i :: 0 <= i < |ListAllIntended(rows, sortBy, order, search, "first_name").value| ==>
      exists row :: row in rows && ILike(row.student.firstName, Lower(search))
        && ListAllIntended(rows, sortBy, order, search, "first_name").value[i] == ToDict(row)
  {
    FirstNameSearchFinds(rows, sortBy, order, search);
    FirstNameSearchKeeps(rows, sortBy, order, search);
  }

  lemma FirstNameSearchFinds(rows: seq<StudentRow>, sortBy: string, order: string, search: string)
    requires search != []
    ensures forall row :: row in rows && ILike(row.student.firstName, Lower(search)) ==>
      ToDict(row) in ListAllIntended(rows, sortBy, order, search, "first_name").value
  {
    forall row | row in rows && ILike(row.student.firstName, Lower(search))
      ensures ToDict(row) in ListAllIntended(rows, sortBy, order, search, "first_name").value
    {
      FirstNameMatch(row, search);
    }
  }

  lemma FirstNameSearchKeeps(rows: seq<StudentRow>, sortBy: string, order: string, search: string)
    requires search != []
    ensures var r := ListAllIntended(rows, sortBy, order, search, "first_name").value;
      forall i :: 0 <= i < |r| ==>
        exists row :: row in rows && ILike(row.student.firstName, Lower(search)) && r[i] == ToDict(row)
  {
    var r := ListAllIntended(rows, sortBy, order, search, "first_name").value;
    forall i | 0 <= i < |r|
      ensures exists row :: row in rows && ILike(row.student.firstName, Lower(search)) && r[i] == ToDict(row)
    {
      var row :| row in rows && IntendedMatches(row, search, "first_name") && r[i] == ToDict(row);
      FirstNameMatch(row, search);
      assert row in rows && ILike(row.student.firstName, Lower(search)) && r[i] == ToDict(row);
    }
  }

  /** The corrected `first_name` search looks at the first name only. */
  lemma FirstNameMatch(row: StudentRow, search: string)
    requires search != []
    ensures IntendedMatches(row, search, "first_name") <==> ILike(row.student.firstName, Lower(search))
  {
    if ILike(row.student.firstName, Lower(search)) {
      assert FirstNameText in {FirstNameText} && ColumnMatches(row, FirstNameText, search);
    }
  }

  /** Elsewhere the corrected search is the one the listing implements. */
  lemma IntendedAgreesElsewhere(rows: seq<StudentRow>, sortBy: string, order: string, search: string, searchBy: string)
    requires searchBy !in {"first_name", "last_name"}
    ensures ListAllIntended(rows, sortBy, order, search, searchBy) == ListAll(rows, sortBy, order, search, searchBy)
  {
    FilterAgrees(rows, IntendedWhere(search, searchBy), Where(search, searchBy));
  }

  // ---------------------------------------------------------------- checks

  const IdFormat := "Student ID must be in format NNNN-NNNN."
  const ProgramRequired := "Program must be selected."
  const InvalidProgram := "Invalid program ID."
  const ProgramNotFound := "Program not found."
  const YearNotInteger := "Year level must be a valid integer."
  const YearOutOfRange := "Year level must be between 1 and 5."
  const GenderNotAllowed := "Gender must be Male, Female, or Other."
  const NotFoundMessage := "Student not found."
  const FirstNameEmpty := "First name cannot be empty."
  const LastNameEmpty := "Last name cannot be empty."

  function IdExists(id: string): string {
    "Student ID '" + id + "' already exists."
  }

  /** The result of one service check: the value to store, or the refusal. */
  datatype Check<+T> = Valid(value: T) | Invalid(status: int, message: string)

  /** `program_id` on create: required, an integer, and a stored program. */
  function CreateProgram(db: Db, v: Value): (r: Check<int>)
    ensures IsNone(v) || v == Str("") ==> r == Invalid(BadRequest, ProgramRequired)
    ensures !IsNone(v) && v != Str("") && PyInt(v).None? ==> r == Invalid(BadRequest, InvalidProgram)
    ensures !IsNone(v) && v != Str("") && PyInt(v).Some? && PyInt(v).value !in db.programs
            ==> r == Invalid(NotFound, ProgramNotFound)
    ensures r.Valid? <==> !IsNone(v) && v != Str("") && PyInt(v).Some? && PyInt(v).value in db.programs
    ensures r.Valid? ==> Some(r.value) == PyInt(v)
  {
    if IsNone(v) || v == Str("") then Invalid(BadRequest, ProgramRequired)
    else match PyInt(v)
      case None => Invalid(BadRequest, InvalidProgram)
      case Some(p) => if p in db.programs then Valid(p) else Invalid(NotFound, ProgramNotFound)
  }

  /** `int(year_level)` and the range check 1..5. */
  function CheckYear(v: Value): (r: Check<int>)
    ensures PyInt(v).None? ==> r == Invalid(BadRequest, YearNotInteger)
    ensures PyInt(v).Some? && !(1 <= PyInt(v).value <= 5) ==> r == Invalid(BadRequest, YearOutOfRange)
    ensures r.Valid? <==> PyInt(v).Some? && 1 <= PyInt(v).value <= 5
    ensures r.Valid? ==> Some(r.value) == PyInt(v)
  {
    match PyInt(v)
    case None => Invalid(BadRequest, YearNotInteger)
    case Some(y) => if 1 <= y <= 5 then Valid(y) else Invalid(BadRequest, YearOutOfRange)
  }

  // ---------------------------------------------------------------- create

  /** `re.match` on a normalised id agrees with the anchored NNNN-NNNN pattern. */
  lemma MatchOnNormalised(v: Value)
    requires StripOrEmpty(v).Some?
    ensures PyMatchesStudentId(StripOrEmpty(v).value) <==> IsStudentIdFormat(StripOrEmpty(v).value)
  {
    if v.Str? { PyMatchOnStripped(v.s); }
  }

  /** A create body whose id passes both id checks: well-formed and free. */
  predicate NewIdAccepted(db: Db, body: Body) {
    && StripOrEmpty(Get(body, "id")).Some?
    && IsStudentIdFormat(StripOrEmpty(Get(body, "id")).value)
    && StripOrEmpty(Get(body, "id")).value !in db.students
  }

  /** `create_from_request`. The checks run in the order id format, id
      taken, program, year level, gender; the names are stored as sent,
      stripped, even when empty. */
  function Create(db: Db, body: Body): (r: Applied<StudentView, Db>)
    ensures !r.reply.Done? ==> r.after == db
    ensures r.reply.Crashed? <==> (StripOrEmpty(Get(body, "id")).None? || StripOrEmpty(Get(body, "first_name")).None?
                                 || StripOrEmpty(Get(body, "last_name")).None? || StripOrEmpty(Get(body, "gender")).None?)
    ensures !r.reply.Crashed? && !IsStudentIdFormat(StripOrEmpty(Get(body, "id")).value)
            ==> r.reply == Failed(BadRequest, IdFormat)
    ensures !r.reply.Crashed? && IsStudentIdFormat(StripOrEmpty(Get(body, "id")).value)
            && StripOrEmpty(Get(body, "id")).value in db.students
            ==> r.reply == Failed(Conflict, IdExists(StripOrEmpty(Get(body, "id")).value))
    ensures !r.reply.Crashed? && NewIdAccepted(db, body) && CreateProgram(db, Get(body, "program_id")).Invalid?
            ==> r.reply == Failed(CreateProgram(db, Get(body, "program_id")).status, CreateProgram(db, Get(body, "program_id")).message)
    ensures !r.reply.Crashed? && NewIdAccepted(db, body) && CreateProgram(db, Get(body, "program_id")).Valid?
            && CheckYear(Get(body, "year_level")).Invalid?
            ==> r.reply == Failed(CheckYear(Get(body, "year_level")).status, CheckYear(Get(body, "year_level")).message)
    ensures !r.reply.Crashed? && NewIdAccepted(db, body) && CreateProgram(db, Get(body, "program_id")).Valid?
            && CheckYear(Get(body, "year_level")).Valid? && !IsGender(StripOrEmpty(Get(body, "gender")).value)
            ==> r.reply == Failed(BadRequest, GenderNotAllowed)
    ensures r.reply.Failed? ==> r.reply.status in {BadRequest, NotFound, Conflict}
    ensures r.reply.Done? <==>
      && !r.reply.Crashed?
      && IsStudentIdFormat(StripOrEmpty(Get(body, "id")).value)
      && StripOrEmpty(Get(body, "id")).value !in db.students
      && CreateProgram(db, Get(body, "program_id")).Valid?
      && CheckYear(Get(body, "year_level")).Valid?
      && IsGender(StripOrEmpty(Get(body, "gender")).value)
    ensures r.reply.Done? ==>
      var id := StripOrEmpty(Get(body, "id")).value;
      var s := Student(StripOrEmpty(Get(body, "first_name")).value, StripOrEmpty(Get(body, "last_name")).value,
                       PyInt(Get(body, "program_id")), PyInt(Get(body, "year_level")).value,
                       StripOrEmpty(Get(body, "gender")).value, None);
      && r.after == db.(students := db.students[id := s])
      && r.reply == Done(Created, ToDict(Join(r.after, id)))
  {
    var id := StripOrEmpty(Get(body, "id"));
    var first := StripOrEmpty(Get(body, "first_name"));
    var last := StripOrEmpty(Get(body, "last_name"));
    var gender := StripOrEmpty(Get(body, "gender"));
    if id.None? || first.None? || last.None? || gender.None? then Applied(Crashed, db)
    else
      MatchOnNormalised(Get(body, "id"));
      if !PyMatchesStudentId(id.value) then Applied(Failed(BadRequest, IdFormat), db)
      else if id.value in db.students then Applied(Failed(Conflict, IdExists(id.value)), db)
      else match CreateProgram(db, Get(body, "program_id"))
        case Invalid(status, message) => Applied(Failed(status, message), db)
        case Valid(p) =>
          match CheckYear(Get(body, "year_level"))
          case Invalid(status, message) => Applied(Failed(status, message), db)
          case Valid(y) =>
            if !IsGender(gender.value) then Applied(Failed(BadRequest, GenderNotAllowed), db)
            else
              var after := db.(students := db.students[id.value := Student(first.value, last.value, Some(p), y, gender.value, None)]);
              Applied(Done(Created, ToDict(Join(after, id.value))), after)
  }

  // ---------------------------------------------------------------- update

  /** What a partial update asks of one column. */
  datatype Change<+T> = Keep | SetTo(value: T)

  /** `program_id` on update: absent or `null` keeps it, `""` clears it,
      anything else must name a stored program, as on create. */
  function UpdateProgram(db: Db, v: Value): (r: Check<Change<Option<int>>>)
    ensures IsNone(v) ==> r == Valid(Keep)
    ensures v == Str("") ==> r == Valid(SetTo(None))
    ensures !IsNone(v) && v != Str("") ==>
      && (r.Valid? <==> CreateProgram(db, v).Valid?)
      && (r.Valid? ==> r.value == SetTo(Some(CreateProgram(db, v).value)))
      && (r.Invalid? ==> r.status == CreateProgram(db, v).status && r.message == CreateProgram(db, v).message)
    ensures r.Invalid? ==> r.message in {InvalidProgram, ProgramNotFound}
  {
    if IsNone(v) then Valid(Keep)
    else if v == Str("") then Valid(SetTo(None))
    else match CreateProgram(db, v)
      case Valid(p) => Valid(SetTo(Some(p)))
      case Invalid(status, message) => Invalid(status, message)
  }

  /** `year_level` on update: absent or `null` keeps it; anything else is
      checked as on create. */
  function UpdateYear(v: Value): (r: Check<Change<int>>)
    ensures IsNone(v) ==> r == Valid(Keep)
    ensures !IsNone(v) ==>
      && (r.Valid? <==> CheckYear(v).Valid?)
      && (r.Valid? ==> r.value == SetTo(CheckYear(v).value))
      && (r.Invalid? ==> r == Invalid(CheckYear(v).status, CheckYear(v).message))
  {
    if IsNone(v) then Valid(Keep)
    else match CheckYear(v)
      case Valid(y) => Valid(SetTo(y))
      case Invalid(status, message) => Invalid(status, message)
  }

  function Apply<T>(c: Change<T>, current: T): T {
    match c
    case Keep => current
    case SetTo(v) => v
  }

  function Pick(g: Given, current: string): string {
    if g.Given? then g.text else current
  }

  /** `new_student_id and new_student_id != student_id`. */
  predicate Renames(current: string, newId: Given) {
    newId.Given? && newId.text != [] && newId.text != current
  }

  /** The stored record with every provided column overwritten. */
  function Patched(s: Student, first: Given, last: Given, program: Change<Option<int>>, year: Change<int>, gender: Given): Student {
    Student(Pick(first, s.firstName), Pick(last, s.lastName), Apply(program, s.programId),
            Apply(year, s.yearLevel), Pick(gender, s.gender), s.photo)
  }

  /** The six values `update_from_request` reads from the body before any
      check: the four text fields are stripped when truthy, and a falsy
      value (absent, `null`, `""`) is "not provided". */
  datatype UpdateFields = UpdateFields(
    newId: Given,
    first: Given,
    last: Given,
    programId: Value,
    yearLevel: Value,
    gender: Given)

  function ReadUpdate(body: Body): (f: UpdateFields)
    ensures f.newId.Given? ==> Unpadded(f.newId.text)
    ensures f.first.NotGiven? <==> !Truthy(Get(body, "first_name"))
    ensures f.programId == Get(body, "program_id") && f.yearLevel == Get(body, "year_level")
  {
    UpdateFields(StripIfTruthy(Get(body, "id")), StripIfTruthy(Get(body, "first_name")),
                 StripIfTruthy(Get(body, "last_name")), Get(body, "program_id"),
                 Get(body, "year_level"), StripIfTruthy(Get(body, "gender")))
  }

  /** A truthy text field that is not a string has no `strip`. */
  predicate Raises(f: UpdateFields) {
    f.newId.Raises? || f.first.Raises? || f.last.Raises? || f.gender.Raises?
  }

  /** A new id is either no change of id, or a well-formed id nobody holds. */
  predicate IdChangePasses(db: Db, sid: string, f: UpdateFields) {
    Renames(sid, f.newId) ==> PyMatchesStudentId(f.newId.text) && f.newId.text !in db.students
  }

  /** Program, year level and gender all pass their checks. */
  predicate ColumnsPass(db: Db, f: UpdateFields) {
    && UpdateProgram(db, f.programId).Valid?
    && UpdateYear(f.yearLevel).Valid?
    && (f.gender.Given? ==> IsGender(f.gender.text))
  }

  /** `update_from_request` on the fields read from the body: only the
      provided columns change; a new id that differs from the current one
      moves the record and drops its photo. */
  function Update(db: Db, sid: string, f: UpdateFields): (r: Applied<StudentView, Db>)
    ensures sid !in db.students ==> r == Applied(Failed(NotFound, NotFoundMessage), db)
    ensures !r.reply.Done? ==> r.after == db
    ensures r.reply.Crashed? <==> sid in db.students && Raises(f)
    ensures r.reply.Failed? ==> r.reply.status in {BadRequest, NotFound, Conflict}
    ensures sid in db.students && !Raises(f) && Renames(sid, f.newId) && !PyMatchesStudentId(f.newId.text)
            ==> r.reply == Failed(BadRequest, IdFormat)
    ensures sid in db.students && !Raises(f) && Renames(sid, f.newId) && PyMatchesStudentId(f.newId.text)
            && f.newId.text in db.students
            ==> r.reply == Failed(Conflict, IdExists(f.newId.text))
    ensures sid in db.students && !Raises(f) && IdChangePasses(db, sid, f) && f.first == Given("")
            ==> r.reply == Failed(BadRequest, FirstNameEmpty)
    ensures sid in db.students && !Raises(f) && IdChangePasses(db, sid, f) && f.first != Given("") && f.last == Given("")
            ==> r.reply == Failed(BadRequest, LastNameEmpty)
    ensures r.reply.Done? <==>
      && sid in db.students && !Raises(f) && IdChangePasses(db, sid, f)
      && f.first != Given("") && f.last != Given("") && ColumnsPass(db, f)
    ensures r.reply.Done? ==>
      var key := if Renames(sid, f.newId) then f.newId.text else sid;
      && sid in db.students
      && r.reply.status == Ok
      && key in r.after.students
      && (Renames(sid, f.newId) ==> PyMatchesStudentId(key) && key !in db.students)
      && r.reply.value == ToDict(Join(r.after, key))
      && r.after.colleges == db.colleges && r.after.programs == db.programs
      && r.after.students.Keys == db.students.Keys - {sid} + {key}
      && (forall k :: k in db.students && k != sid ==> r.after.students[k] == db.students[k])
    ensures r.reply.Done? ==>
      var key := if Renames(sid, f.newId) then f.newId.text else sid;
      var old_ := db.students[sid];
      var new_ := r.after.students[key];
      && new_.firstName == Pick(f.first, old_.firstName)
      && new_.lastName == Pick(f.last, old_.lastName)
      && new_.gender == Pick(f.gender, old_.gender)
      && (f.gender.Given? ==> IsGender(new_.gender))
      && (IsNone(f.programId) ==> new_.programId == old_.programId)
      && (f.programId == Str("") ==> new_.programId == None)
      && (new_.programId != old_.programId ==> new_.programId == None || new_.programId.value in db.programs)
      && (IsNone(f.yearLevel) ==> new_.yearLevel == old_.yearLevel)
      && (!IsNone(f.yearLevel) ==> 1 <= new_.yearLevel <= 5)
      && (new_.photo == if Renames(sid, f.newId) then None else old_.photo)
  {
    if sid !in db.students then Applied(Failed(NotFound, NotFoundMessage), db)
    else if Raises(f) then Applied(Crashed, db)
    else
      var rename := Renames(sid, f.newId);
      if rename && !PyMatchesStudentId(f.newId.text) then Applied(Failed(BadRequest, IdFormat), db)
      else if rename && f.newId.text in db.students then Applied(Failed(Conflict, IdExists(f.newId.text)), db)
      else if f.first.Given? && f.first.text == [] then Applied(Failed(BadRequest, FirstNameEmpty), db)
      else if f.last.Given? && f.last.text == [] then Applied(Failed(BadRequest, LastNameEmpty), db)
      else UpdateColumns(db, sid, f)
  }

  /** The rest of `update`, once the id and the names have passed: program,
      year level and gender, then the write. */
  function UpdateColumns(db: Db, sid: string, f: UpdateFields): (r: Applied<StudentView, Db>)
    requires sid in db.students && !Raises(f)
    requires IdChangePasses(db, sid, f)
    ensures !r.reply.Done? ==> r.after == db
    ensures !r.reply.Crashed?
    ensures r.reply.Failed? ==> r.reply.status in {BadRequest, NotFound}
    ensures UpdateProgram(db, f.programId).Invalid?
            ==> r.reply == Failed(UpdateProgram(db, f.programId).status, UpdateProgram(db, f.programId).message)
    ensures UpdateProgram(db, f.programId).Valid? && UpdateYear(f.yearLevel).Invalid?
            ==> r.reply == Failed(UpdateYear(f.yearLevel).status, UpdateYear(f.yearLevel).message)
    ensures UpdateProgram(db, f.programId).Valid? && UpdateYear(f.yearLevel).Valid?
            && f.gender.Given? && !IsGender(f.gender.text)
            ==> r.reply == Failed(BadRequest, GenderNotAllowed)
    ensures r.reply.Done? <==> ColumnsPass(db, f)
    ensures r.reply.Done? ==>
      var key := if Renames(sid, f.newId) then f.newId.text else sid;
      && r.reply.status == Ok
      && key in r.after.students
      && r.reply.value == ToDict(Join(r.after, key))
      && r.after.colleges == db.colleges && r.after.programs == db.programs
      && r.after.students.Keys == db.students.Keys - {sid} + {key}
      && (forall k :: k in db.students && k != sid ==> r.after.students[k] == db.students[k])
    ensures r.reply.Done? ==>
      var key := if Renames(sid, f.newId) then f.newId.text else sid;
      var old_ := db.students[sid];
      var new_ := r.after.students[key];
      && new_.firstName == Pick(f.first, old_.firstName)
      && new_.lastName == Pick(f.last, old_.lastName)
      && new_.gender == Pick(f.gender, old_.gender)
      && (f.gender.Given? ==> IsGender(new_.gender))
      && (IsNone(f.programId) ==> new_.programId == old_.programId)
      && (f.programId == Str("") ==> new_.programId == None)
      && (new_.programId != old_.programId ==> new_.programId == None || new_.programId.value in db.programs)
      && (IsNone(f.yearLevel) ==> new_.yearLevel == old_.yearLevel)
      && (!IsNone(f.yearLevel) ==> 1 <= new_.yearLevel <= 5)
      && (new_.photo == if Renames(sid, f.newId) then None else old_.photo)
  {
    match UpdateProgram(db, f.programId)
    case Invalid(status, message) => Applied(Failed(status, message), db)
    case Valid(program) =>
      match UpdateYear(f.yearLevel)
      case Invalid(status, message) => Applied(Failed(status, message), db)
      case Valid(year) =>
        if f.gender.Given? && !IsGender(f.gender.text) then Applied(Failed(BadRequest, GenderNotAllowed), db)
        else WriteBack(db, sid, f.newId, Patched(db.students[sid], f.first, f.last, program, year, f.gender))
  }

  /** The commit: the patched record stored under its key, moved and without
      its photo when the id changes, and the other students untouched. */
  function WriteBack(db: Db, sid: string, newId: Given, s: Student): (r: Applied<StudentView, Db>)
    requires Renames(sid, newId) ==> newId.text !in db.students
    ensures var key := if Renames(sid, newId) then newId.text else sid;
      && key in r.after.students
      && r.reply == Done(Ok, ToDict(Join(r.after, key)))
      && r.after.colleges == db.colleges && r.after.programs == db.programs
      && r.after.students.Keys == db.students.Keys - {sid} + {key}
      && r.after.students[key] == (if Renames(sid, newId) then s.(photo := None) else s)
      && (forall k :: k in db.students && k != sid ==> r.after.students[k] == db.students[k])
  {
    if Renames(sid, newId) then
      var after := db.(students := (db.students - {sid})[newId.text := s.(photo := None)]);
      Applied(Done(Ok, ToDict(Join(after, newId.text))), after)
    else
      var after := db.(students := db.students[sid := s]);
      Applied(Done(Ok, ToDict(Join(after, sid))), after)
  }


  /** `delete_by_id`. */
  function Delete(db: Db, sid: string): (r: Applied<(), Db>)
    ensures sid in db.students <==> r.reply == Done(NoContent, ())
    ensures sid !in db.students ==> r == Applied(Failed(NotFound, NotFoundMessage), db)
    ensures r.after.students == db.students - {sid}
    ensures r.after.colleges == db.colleges && r.after.programs == db.programs
  {
    if sid !in db.students then Applied(Failed(NotFound, NotFoundMessage), db)
    else Applied(Done(NoContent, ()), db.(students := db.students - {sid}))
  }

  // ---------------------------------------------------------------- programs of a college

  function OfCollege(collegeId: int): ProgramService.JoinedRow -> bool {
    (row: ProgramService.JoinedRow) => row.collegeId == Some(collegeId)
  }

  /** `get_programs_by_college`: `rows` is the programs table joined with
      the colleges, in scan order. */
  function ProgramsByCollege(rows: seq<ProgramService.JoinedRow>, collegeId: int)
    : (r: Outcome<seq<ProgramService.ProgramItem>>)
    ensures r.Done? && r.status == Ok && |r.value| <= |rows|
    ensures forall i :: 0 <= i < |r.value| ==> r.value[i].collegeId == Some(collegeId)
    ensures forall row :: row in rows && row.collegeId == Some(collegeId) ==> ProgramService.Item(row) in r.value
    ensures forall i :: 0 <= i < |r.value| ==> exists row :: row in rows && r.value[i] == ProgramService.Item(row)
  {
    ProgramsOfCollegeSound(rows, collegeId);
    ProgramsOfCollegeComplete(rows, collegeId);
    Done(Ok, Map(Filter(rows, OfCollege(collegeId)), ProgramService.Item))
  }

  /** Every program kept is a joined row of that college. */
  lemma ProgramsOfCollegeSound(rows: seq<ProgramService.JoinedRow>, collegeId: int)
    ensures var r := Map(Filter(rows, OfCollege(collegeId)), ProgramService.Item);
      && |r| <= |rows|
      && (forall i :: 0 <= i < |r| ==> r[i].collegeId == Some(collegeId))
      && (forall i :: 0 <= i < |r| ==> exists row :: row in rows && r[i] == ProgramService.Item(row))
  {
    var keep := OfCollege(collegeId);
    MapOfFilterSound(rows, keep, ProgramService.Item);
    assert forall x :: keep(x) == (x.collegeId == Some(collegeId));
  }

  /** Every joined row of that college is kept. */
  lemma ProgramsOfCollegeComplete(rows: seq<ProgramService.JoinedRow>, collegeId: int)
    ensures var r := Map(Filter(rows, OfCollege(collegeId)), ProgramService.Item);
      forall row :: row in rows && row.collegeId == Some(collegeId) ==> ProgramService.Item(row) in r
  {
    var keep := OfCollege(collegeId);
    MapOfFilterComplete(rows, keep, ProgramService.Item);
    assert forall x :: keep(x) == (x.collegeId == Some(collegeId));
  }

  // ---------------------------------------------------------------- properties

  /** Every stored student has a well-formed id, a year level in 1..5, an
      accepted gender, and either no program or a stored one. */
  predicate WellFormed(db: Db) {
    forall id :: id in db.students ==>
      && IsStudentIdFormat(id)
      && 1 <= db.students[id].yearLevel <= 5
      && IsGender(db.students[id].gender)
      && (db.students[id].programId.Some? ==> db.students[id].programId.value in db.programs)
  }

  lemma CreatePreservesWellFormed(db: Db, body: Body)
    requires WellFormed(db)
    ensures WellFormed(Create(db, body).after)
  {
  }

  lemma UpdatePreservesWellFormed(db: Db, sid: string, body: Body)
    requires WellFormed(db)
    ensures WellFormed(Update(db, sid, ReadUpdate(body)).after)
  {
    var f := ReadUpdate(body);
    var r := Update(db, sid, f);
    if r.reply.Done? {
      var key := if Renames(sid, f.newId) then f.newId.text else sid;
      assert IsStudentIdFormat(key) by {
        if Renames(sid, f.newId) {
          StripUnpadded(f.newId.text);
          PyMatchOnStripped(f.newId.text);
        }
      }
      forall id | id in r.after.students
        ensures IsStudentIdFormat(id) && 1 <= r.after.students[id].yearLevel <= 5
        ensures IsGender(r.after.students[id].gender)
        ensures r.after.students[id].programId.Some? ==> r.after.students[id].programId.value in r.after.programs
      {
        if id != key {
          assert id in db.students && r.after.students[id] == db.students[id];
        }
      }
    }
  }

  /** Renaming a student stores exactly what the same update without the new
      id would store, moved to the new key and without the photo. */
  lemma RenameIsMove(db: Db, sid: string, f: UpdateFields)
    requires Renames(sid, f.newId) && Update(db, sid, f).reply.Done?
    ensures var plain := Update(db, sid, f.(newId := NotGiven));
      && plain.reply.Done?
      && Update(db, sid, f).after.students
         == (plain.after.students - {sid})[f.newId.text := plain.after.students[sid].(photo := None)]
  {
    var g := f.(newId := NotGiven);
    var program := UpdateProgram(db, f.programId).value;
    var year := UpdateYear(f.yearLevel).value;
    var s := Patched(db.students[sid], f.first, f.last, program, year, f.gender);
    assert Update(db, sid, f) == WriteBack(db, sid, f.newId, s);
    assert Update(db, sid, g) == WriteBack(db, sid, NotGiven, s);
    assert db.students[sid := s] - {sid} == db.students - {sid};
  }

  /** An empty string for `id`, `first_name`, `last_name` or `gender` reads
      the same as leaving the key out. */
  lemma EmptyStringIsNotProvided(body: Body, key: string)
    requires key in {"id", "first_name", "last_name", "gender"}
    ensures ReadUpdate(body[key := Str("")]) == ReadUpdate(body - {key})
  {
    var a := body[key := Str("")];
    var b := body - {key};
    assert forall k :: k != key ==> Get(a, k) == Get(b, k);
    assert StripIfTruthy(Get(a, key)) == StripIfTruthy(Get(b, key));
  }

  /** Without a truthy new id, whitespace-only first name is refused, while
      the same key sent as `""` is not provided and changes nothing. */
  lemma BlankFirstName(db: Db, sid: string)
    requires sid in db.students
    ensures Update(db, sid, ReadUpdate(map["first_name" := Str(" ")])).reply == Failed(BadRequest, FirstNameEmpty)
    ensures Update(db, sid, ReadUpdate(map["first_name" := Str("")])) == Update(db, sid, ReadUpdate(map[]))
  {
    assert Strip(" ") == [];
    var empty: Body := map[];
    EmptyStringIsNotProvided(empty, "first_name");
    assert empty["first_name" := Str("")] == map["first_name" := Str("")];
    assert empty - {"first_name"} == empty;
  }

  /** Create stores names that strip to nothing: only the id, program, year
      and gender are checked. */
  lemma BlankNamesAccepted(db: Db, id: string, p: int)
    requires IsStudentIdFormat(id) && id !in db.students && p in db.programs
    ensures var r := Create(db, map["id" := Str(id), "first_name" := Str(" "), "program_id" := Int(p),
                                    "year_level" := Int(1), "gender" := Str("Male")]);
      && r.reply.Done?
      && r.after.students[id].firstName == [] && r.after.students[id].lastName == []
  {
    var body := map["id" := Str(id), "first_name" := Str(" "), "program_id" := Int(p),
                    "year_level" := Int(1), "gender" := Str("Male")];
    StudentIdUnpadded(id);
    assert Strip(" ") == [];
    assert Get(body, "last_name") == Absent;
    assert StripOrEmpty(Get(body, "gender")) == Some("Male") by {
      StripUnpadded("Male");
    }
  }

  /** A taken id is reported before a missing program, and a missing program
      before a bad year level. */
  lemma CreateCheckOrder(db: Db, id: string)
    requires IsStudentIdFormat(id)
    ensures id in db.students ==> Create(db, map["id" := Str(id)]).reply == Failed(Conflict, IdExists(id))
    ensures id !in db.students ==> Create(db, map["id" := Str(id)]).reply == Failed(BadRequest, ProgramRequired)
  {
    StudentIdUnpadded(id);
    assert Get(map["id" := Str(id)], "program_id") == Absent;
  }
}
