/** `ProgramService`: the paginated listing of programs joined with their
    college, and the create, update and delete operations, which also check
    the college a program refers to. */
module ProgramService {
  import opened Common
  import opened Text
  import opened Values
  import opened Store
  import opened Pagination
  import CodeUnique

  // ---------------------------------------------------------------- listing

  /** A row of `programs p LEFT JOIN colleges c ON p.college_id = c.id`. */
  datatype JoinedRow = JoinedRow(
    id: int,
    collegeId: Option<int>,
    code: string,
    name: string,
    collegeName: Option<string>,
    collegeCode: Option<string>)

  /** The row the join yields for a stored program: the college columns are
      `NULL` when the program has no college or refers to a missing one. */
  function Join(db: Db, id: int): (r: JoinedRow)
    requires id in db.programs
    ensures r.id == id && r.collegeId == db.programs[id].collegeId
    ensures r.code == db.programs[id].code && r.name == db.programs[id].name
    ensures r.collegeName.Some? <==> r.collegeId.Some? && r.collegeId.value in db.colleges
    ensures r.collegeName.Some? ==> (r.collegeName.value == db.colleges[r.collegeId.value].name
                                 && r.collegeCode == Some(db.colleges[r.collegeId.value].code))
    ensures r.collegeName.None? <==> r.collegeCode.None?
  {
    var p := db.programs[id];
    if p.collegeId.Some? && p.collegeId.value in db.colleges then
      var c := db.colleges[p.collegeId.value];
      JoinedRow(id, p.collegeId, p.code, p.name, Some(c.name), Some(c.code))
    else JoinedRow(id, p.collegeId, p.code, p.name, None, None)
  }

  /** One entry of the listing's `data` array. */
  datatype ProgramItem = ProgramItem(id: int, collegeId: Option<int>, collegeName: string, code: string, name: string)

  const NotApplicable := "Not Applicable"

  /** The dictionary built for each row: a missing college reads "Not Applicable". */
  function Item(row: JoinedRow): (r: ProgramItem)
    ensures r.id == row.id && r.collegeId == row.collegeId && r.code == row.code && r.name == row.name
    ensures row.collegeName.None? ==> r.collegeName == NotApplicable
    ensures row.collegeName.Some? ==> r.collegeName == row.collegeName.value
  {
    ProgramItem(row.id, row.collegeId, row.collegeName.GetOr(NotApplicable), row.code, row.name)
  }

  /** The college column of a listed program names its college exactly when
      the program refers to a stored college. */
  lemma ListedCollegeName(db: Db, id: int)
    requires id in db.programs
    ensures var p := db.programs[id];
      Item(Join(db, id)).collegeName
        == (if p.collegeId.Some? && p.collegeId.value in db.colleges then db.colleges[p.collegeId.value].name else NotApplicable)
  {
  }

  datatype Column = CodeColumn | NameColumn | CollegeColumn

  /** `ORDER BY` is added only for `code`, `name` or `college`; descending iff `order == "desc"`. */
  function ListOrder(sortBy: string, order: string): (r: Order<Column>)
    ensures r.Unordered? <==> sortBy != "code" && sortBy != "name" && sortBy != "college"
    ensures r.OrderBy? ==> ((r.column == CodeColumn <==> sortBy == "code")
                        && (r.column == CollegeColumn <==> sortBy == "college")
                        && (r.descending <==> order == "desc"))
  {
    if sortBy == "code" then OrderBy(CodeColumn, order == "desc")
    else if sortBy == "name" then OrderBy(NameColumn, order == "desc")
    else if sortBy == "college" then OrderBy(CollegeColumn, order == "desc")
    else Unordered
  }

  /** The value a row is ordered by; `COALESCE(c.code, '')` for the college. */
  function SortKey(row: JoinedRow, col: Column): string {
    match col
    case CodeColumn => row.code
    case NameColumn => row.name
    case CollegeColumn => row.collegeCode.GetOr("")
  }

  /** The columns a search may hit. */
  datatype SearchColumn = ProgramCode | ProgramName | CollegeCode

  /** The columns the `WHERE` clause searches; `None` is no `WHERE` at all,
      which is also what an unrecognised `search_by` yields. */
  function SearchColumns(search: string, searchBy: string): (r: Option<set<SearchColumn>>)
    ensures r.None? <==> search == [] || (searchBy != "all" && searchBy != "code" && searchBy != "name" && searchBy != "college")
    ensures r.Some? && searchBy == "all" ==> r.value == {ProgramCode, ProgramName, CollegeCode}
    ensures r.Some? && searchBy == "college" ==> r.value == {CollegeCode}
    ensures r.Some? ==> r.value != {}
  {
    if search == [] then None
    else if searchBy == "all" then Some({ProgramCode, ProgramName, CollegeCode})
    else if searchBy == "code" then Some({ProgramCode})
    else if searchBy == "name" then Some({ProgramName})
    else if searchBy == "college" then Some({CollegeCode})
    else None
  }

  /** `column ILIKE :search`; a `NULL` college code matches nothing. */
  predicate ColumnMatches(row: JoinedRow, col: SearchColumn, search: string) {
    match col
    case ProgramCode => ILike(row.code, search)
    case ProgramName => ILike(row.name, search)
    case CollegeCode => row.collegeCode.Some? && ILike(row.collegeCode.value, search)
  }

  predicate Matches(row: JoinedRow, search: string, searchBy: string) {
    match SearchColumns(search, searchBy)
    case None => true
    case Some(cols) => exists col :: col in cols && ColumnMatches(row, col, search)
  }

  /** The `WHERE` clause as a row predicate. */
  function Where(search: string, searchBy: string): JoinedRow -> bool {
    row => Matches(row, search, searchBy)
  }

  /** A program without a college is never found by a college search. */
  lemma CollegeSearchSkipsUnassigned(row: JoinedRow, search: string)
    requires search != [] && row.collegeCode.None?
    ensures !Matches(row, search, "college")
  {
  }

  function Items(rows: seq<JoinedRow>): (r: seq<ProgramItem>)
    ensures |r| == |rows|
    ensures forall i :: 0 <= i < |rows| ==> r[i] == Item(rows[i])
  {
    if rows == [] then [] else [Item(rows[0])] + Items(rows[1..])
  }

  const ListFailed := "Failed to retrieve programs."

  /** `list_all`: `rows` is the joined table in the order `ListOrder` asks for. */
  function ListAll(rows: seq<JoinedRow>, page: int, perPage: int, sortBy: string, order: string,
                   search: string, searchBy: string): (r: Outcome<(seq<ProgramItem>, PageMeta)>)
    ensures r.Failed? <==> perPage < 0 || Offset(page, perPage) < 0
    ensures r.Failed? ==> r == Failed(InternalServerError, ListFailed)
    ensures !r.Crashed?
    ensures r.Done? ==> r.status == Ok && |r.value.0| <= perPage
    ensures r.Done? ==> r.value.1 == Meta(page, perPage, |Filter(rows, Where(search, searchBy))|)
    ensures r.Done? ==> var matching := Filter(rows, Where(search, searchBy));
      var offset := Offset(page, perPage);
      && |r.value.0| == (if offset >= |matching| then 0 else if offset + perPage <= |matching| then perPage else |matching| - offset)
      && forall i :: 0 <= i < |r.value.0| ==> r.value.0[i] == Item(matching[offset + i])
  {
    var matching := Filter(rows, Where(search, searchBy));
    match PageSlice(matching, perPage, Offset(page, perPage))
    case None => Failed(InternalServerError, ListFailed)
    case Some(slice) => Done(Ok, (Items(slice), Meta(page, perPage, |matching|)))
  }

  /** Whether row `a` may be listed before `b` under `o`. */
  predicate Before(o: Order<Column>, a: JoinedRow, b: JoinedRow) {
    match o
    case Unordered => true
    case OrderBy(col, desc) =>
      if desc then TextLe(SortKey(b, col), SortKey(a, col)) else TextLe(SortKey(a, col), SortKey(b, col))
  }

  function BeforeIn(o: Order<Column>): (JoinedRow, JoinedRow) -> bool {
    (a, b) => Before(o, a, b)
  }

  predicate InOrder(rows: seq<JoinedRow>, o: Order<Column>) {
    OrderedBy(rows, BeforeIn(o))
  }

  /** Rows in the order `ORDER BY` gives them are listed in that order: a
      non-empty page is the items of consecutive matching rows, and those
      rows keep the order. */
  lemma ListKeepsOrder(rows: seq<JoinedRow>, page: int, perPage: int, sortBy: string, order: string,
                       search: string, searchBy: string)
    requires InOrder(rows, ListOrder(sortBy, order))
    ensures var r := ListAll(rows, page, perPage, sortBy, order, search, searchBy);
      var matching := Filter(rows, Where(search, searchBy));
      var offset := Offset(page, perPage);
      r.Done? && r.value.0 != [] ==>
        && 0 <= offset && offset + |r.value.0| <= |matching|
        && r.value.0 == Items(matching[offset..offset + |r.value.0|])
        && InOrder(matching[offset..offset + |r.value.0|], ListOrder(sortBy, order))
  {
    var before := BeforeIn(ListOrder(sortBy, order));
    var matching := Filter(rows, Where(search, searchBy));
    FilterKeepsOrder(rows, Where(search, searchBy), before);
    var r := ListAll(rows, page, perPage, sortBy, order, search, searchBy);
    var offset := Offset(page, perPage);
    if r.Done? && r.value.0 != [] {
      var n := |r.value.0|;
      assert 0 <= offset < |matching| && offset + n <= |matching|;
      var shown := matching[offset..offset + n];
      SliceKeepsOrder(matching, offset, offset + n, before);
      assert forall i :: 0 <= i < n ==> r.value.0[i] == Item(shown[i]);
      assert r.value.0 == Items(shown);
    }
  }

  /** Every listed program is a stored row that satisfies the search. */
  lemma ListedRowsMatch(rows: seq<JoinedRow>, page: int, perPage: int, sortBy: string, order: string,
                        search: string, searchBy: string)
    ensures var r := ListAll(rows, page, perPage, sortBy, order, search, searchBy);
      r.Done? ==> forall i :: 0 <= i < |r.value.0| ==>
        exists row :: row in rows && Matches(row, search, searchBy) && r.value.0[i] == Item(row)
  {
    var r := ListAll(rows, page, perPage, sortBy, order, search, searchBy);
    var keep := Where(search, searchBy);
    var matching := Filter(rows, keep);
    if r.Done? {
      forall i | 0 <= i < |r.value.0|
        ensures exists row :: row in rows && Matches(row, search, searchBy) && r.value.0[i] == Item(row)
      {
        var row := matching[Offset(page, perPage) + i];
        assert keep(row);
        assert row in multiset(matching);
        assert row in rows && r.value.0[i] == Item(row);
      }
    }
  }

  /** An empty search lists every row, and the page count covers them all. */
  lemma ListWithoutSearch(rows: seq<JoinedRow>, page: int, perPage: int, sortBy: string, order: string, searchBy: string)
    requires page >= 1 && perPage >= 1
    ensures var r := ListAll(rows, page, perPage, sortBy, order, "", searchBy);
      r.Done? && r.value.1.total == |rows| && |rows| <= r.value.1.totalPages * perPage
  {
    assert Offset(page, perPage) >= 0 by {
      MulMonotone(0, page - 1, perPage);
    }
    ListSucceeds(rows, page, perPage, sortBy, order, "", searchBy);
    assert |Filter(rows, Where("", searchBy))| == |rows| by {
      FilterAll(rows, Where("", searchBy));
    }
  }

  /** A listing with a usable page window succeeds and reports the number
      of matching rows. */
  lemma ListSucceeds(rows: seq<JoinedRow>, page: int, perPage: int, sortBy: string, order: string,
                     search: string, searchBy: string)
    requires perPage >= 0 && Offset(page, perPage) >= 0
    ensures var r := ListAll(rows, page, perPage, sortBy, order, search, searchBy);
      r.Done? && r.value.1 == Meta(page, perPage, |Filter(rows, Where(search, searchBy))|)
  {
  }

  // ---------------------------------------------------------------- writes

  /** The `{id, college_id, code, name}` dictionary create and update return. */
  datatype ProgramRecord = ProgramRecord(id: int, collegeId: Option<int>, code: string, name: string)

  function Record(id: int, p: Program): ProgramRecord {
    ProgramRecord(id, p.collegeId, p.code, p.name)
  }

  const CollegeRequired := "College selection is required."
  const BothRequired := "Both 'code' and 'name' are required."
  const CollegeNotFound := "College not found."
  const NotFoundMessage := "Program not found."
  const CodeEmpty := "Program code cannot be empty."
  const NameEmpty := "Program name cannot be empty."

  /** `college_id` on create: `None` or `""` is missing, and so is anything
      `int()` rejects; both read "College selection is required.". */
  function CreateCollegeId(v: Value): (r: Option<int>)
    ensures IsNone(v) || v == Str("") ==> r.None?
    ensures v.Int? ==> r == Some(v.i)
    ensures !IsNone(v) && v != Str("") ==> r == PyInt(v)
  {
    if IsNone(v) || v == Str("") then None else PyInt(v)
  }

  /** `create_from_request`; `newId` is the id the table's sequence hands out.
      The checks run in the order college selection, both fields, college
      existence, code uniqueness. */
  function Create(db: Db, body: Body, newId: int): (r: Applied<ProgramRecord, Db>)
    requires newId !in db.programs
    ensures !r.reply.Done? ==> r.after == db
    ensures r.reply.Crashed? <==> StripOrEmpty(Get(body, "code")).None? || StripOrEmpty(Get(body, "name")).None?
    ensures !r.reply.Crashed? && CreateCollegeId(Get(body, "college_id")).None?
            ==> r.reply == Failed(BadRequest, CollegeRequired)
    ensures !r.reply.Crashed? && CreateCollegeId(Get(body, "college_id")).Some?
            && (StripOrEmpty(Get(body, "code")).value == [] || StripOrEmpty(Get(body, "name")).value == [])
            ==> r.reply == Failed(BadRequest, BothRequired)
    ensures r.reply.Failed? && r.reply.status == NotFound
            <==> r.reply == Failed(NotFound, CollegeNotFound)
    ensures r.reply == Failed(NotFound, CollegeNotFound)
            ==> (CreateCollegeId(Get(body, "college_id")).Some?
             && !CollegeFound(db, CreateCollegeId(Get(body, "college_id")).value))
    ensures r.reply.Done? <==>
      && !r.reply.Crashed?
      && CreateCollegeId(Get(body, "college_id")).Some?
      && StripOrEmpty(Get(body, "code")).value != [] && StripOrEmpty(Get(body, "name")).value != []
      && CollegeFound(db, CreateCollegeId(Get(body, "college_id")).value)
      && CodeUnique.ValidateCodeUnique(CodeUnique.ProgramEntity, StripOrEmpty(Get(body, "code")).value, ProgramCodes(db), None).ok
    ensures r.reply.Done? ==>
      var p := Program(CreateCollegeId(Get(body, "college_id")), StripOrEmpty(Get(body, "code")).value, StripOrEmpty(Get(body, "name")).value);
      && r.reply == Done(Created, Record(newId, p))
      && r.after == db.(programs := db.programs[newId := p])
    ensures !r.reply.Crashed? && CreateCollegeId(Get(body, "college_id")).Some?
            && StripOrEmpty(Get(body, "code")).value != [] && StripOrEmpty(Get(body, "name")).value != []
            && !CollegeFound(db, CreateCollegeId(Get(body, "college_id")).value)
            ==> r.reply == Failed(NotFound, CollegeNotFound)
    ensures !r.reply.Crashed? && CreateCollegeId(Get(body, "college_id")).Some?
            && StripOrEmpty(Get(body, "code")).value != [] && StripOrEmpty(Get(body, "name")).value != []
            && CollegeFound(db, CreateCollegeId(Get(body, "college_id")).value)
            && !CodeUnique.ValidateCodeUnique(CodeUnique.ProgramEntity, StripOrEmpty(Get(body, "code")).value, ProgramCodes(db), None).ok
            ==> r.reply == Failed(Conflict, CodeUnique.ExistsMessage(CodeUnique.ProgramEntity,
                                                                      CodeUnique.Normalise(StripOrEmpty(Get(body, "code")).value)))
    ensures r.reply.Failed? ==> r.reply.status in {BadRequest, NotFound, Conflict}
  {
    var code := StripOrEmpty(Get(body, "code"));
    var name := StripOrEmpty(Get(body, "name"));
    if code.None? || name.None? then Applied(Crashed, db)
    else
      match CreateCollegeId(Get(body, "college_id"))
      case None => Applied(Failed(BadRequest, CollegeRequired), db)
      case Some(collegeId) =>
        if code.value == [] || name.value == [] then Applied(Failed(BadRequest, BothRequired), db)
        else if !CollegeFound(db, collegeId) then Applied(Failed(NotFound, CollegeNotFound), db)
        else
          var v := CodeUnique.ValidateCodeUnique(CodeUnique.ProgramEntity, code.value, ProgramCodes(db), None);
          if !v.ok then
            StripIdempotent(Get(body, "code").s);
            CodeUnique.ExistsMessageMentionsConflict(CodeUnique.ProgramEntity, CodeUnique.Normalise(code.value));
            Applied(Failed(UniquenessStatus(v.message), v.message), db)
          else
            var p := Program(Some(collegeId), code.value, name.value);
            Applied(Done(Created, Record(newId, p)), db.(programs := db.programs[newId := p]))
  }

  /** The college a partial update asks for: `NotGiven` when `college_id` is
      absent or null, `Given(None)` for `""` (clear it), `Given(Some(id))`
      for a found college, and `Rejected` otherwise (404). */
  datatype CollegeChange = KeepCollege | SetCollege(collegeId: Option<int>) | Rejected

  function UpdateCollegeId(db: Db, v: Value): (r: CollegeChange)
    ensures r.KeepCollege? <==> IsNone(v)
    ensures v == Str("") ==> r == SetCollege(None)
    ensures r.SetCollege? && r.collegeId.Some? ==> CollegeFound(db, r.collegeId.value) && PyInt(v) == r.collegeId
    ensures r.Rejected? <==> !IsNone(v) && v != Str("") && (PyInt(v).None? || !CollegeFound(db, PyInt(v).value))
  {
    if IsNone(v) then KeepCollege
    else if v == Str("") then SetCollege(None)
    else match PyInt(v)
      case None => Rejected
      case Some(id) => if CollegeFound(db, id) then SetCollege(Some(id)) else Rejected
  }

  /** `update_from_request`: only the fields present in the body change. */
  function Update(db: Db, id: int, body: Body): (r: Applied<ProgramRecord, Db>)
    ensures id !in db.programs ==> r == Applied(Failed(NotFound, NotFoundMessage), db)
    ensures !r.reply.Done? ==> r.after == db
    ensures r.reply.Done? ==> (r.reply.status == Ok && id in db.programs && r.reply.value.id == id
      && r.after == db.(programs := db.programs[id := Program(r.reply.value.collegeId, r.reply.value.code, r.reply.value.name)]))
    ensures id in db.programs && UpdateCollegeId(db, Get(body, "college_id")).Rejected?
            ==> r == Applied(Failed(NotFound, CollegeNotFound), db)
    ensures r.reply.Done? ==>
      && (match UpdateCollegeId(db, Get(body, "college_id"))
          case KeepCollege => r.reply.value.collegeId == db.programs[id].collegeId
          case SetCollege(c) => r.reply.value.collegeId == c
          case Rejected => false)
      && (IsNone(Get(body, "code")) ==> r.reply.value.code == db.programs[id].code)
      && (IsNone(Get(body, "name")) ==> r.reply.value.name == db.programs[id].name)
      && (Get(body, "code").Str? ==> r.reply.value.code == Strip(Get(body, "code").s))
      && (Get(body, "name").Str? ==> r.reply.value.name == Strip(Get(body, "name").s))
    ensures id in db.programs && !UpdateCollegeId(db, Get(body, "college_id")).Rejected?
            && Get(body, "code").Str? && IsBlank(Get(body, "code").s)
            ==> r.reply == Failed(BadRequest, CodeEmpty)
    ensures id in db.programs && !UpdateCollegeId(db, Get(body, "college_id")).Rejected?
            && Get(body, "code").Str? && !IsBlank(Get(body, "code").s)
            && !CodeUnique.ValidateCodeUnique(CodeUnique.ProgramEntity, Get(body, "code").s, ProgramCodes(db), Some(id)).ok
            ==> r.reply == Failed(Conflict, CodeUnique.ExistsMessage(CodeUnique.ProgramEntity, CodeUnique.Normalise(Get(body, "code").s)))
    ensures id in db.programs && !UpdateCollegeId(db, Get(body, "college_id")).Rejected?
            && CodeUnique.UpdateCodePasses(CodeUnique.ProgramEntity, ProgramCodes(db), id, Get(body, "code"))
            && Get(body, "name").Str? && IsBlank(Get(body, "name").s)
            ==> r.reply == Failed(BadRequest, NameEmpty)
    ensures r.reply.Crashed? <==>
      && id in db.programs && !UpdateCollegeId(db, Get(body, "college_id")).Rejected?
      && ((!IsNone(Get(body, "code")) && !Get(body, "code").Str?)
          || (CodeUnique.UpdateCodePasses(CodeUnique.ProgramEntity, ProgramCodes(db), id, Get(body, "code"))
              && !IsNone(Get(body, "name")) && !Get(body, "name").Str?))
    ensures r.reply.Done? <==>
      && id in db.programs && !UpdateCollegeId(db, Get(body, "college_id")).Rejected?
      && CodeUnique.UpdateCodePasses(CodeUnique.ProgramEntity, ProgramCodes(db), id, Get(body, "code"))
      && ProvidedNonBlank(Get(body, "name"))
    ensures r.reply.Failed? ==> r.reply.status in {BadRequest, NotFound, Conflict}
  {
    if id !in db.programs then Applied(Failed(NotFound, NotFoundMessage), db)
    else
      var college := UpdateCollegeId(db, Get(body, "college_id"));
      if college.Rejected? then Applied(Failed(NotFound, CollegeNotFound), db)
      else UpdateFields(db, id, college, body)
  }

  /** The rest of `update_from_request` once the program and its college
      are settled: code, then uniqueness, then name. */
  function UpdateFields(db: Db, id: int, college: CollegeChange, body: Body): (r: Applied<ProgramRecord, Db>)
    requires id in db.programs && !college.Rejected?
    ensures !r.reply.Done? ==> r.after == db
    ensures r.reply.Done? ==> (r.reply.status == Ok && r.reply.value.id == id
      && r.after == db.(programs := db.programs[id := Program(r.reply.value.collegeId, r.reply.value.code, r.reply.value.name)]))
    ensures r.reply.Done? ==>
      && (college.KeepCollege? ==> r.reply.value.collegeId == db.programs[id].collegeId)
      && (college.SetCollege? ==> r.reply.value.collegeId == college.collegeId)
      && (IsNone(Get(body, "code")) ==> r.reply.value.code == db.programs[id].code)
      && (IsNone(Get(body, "name")) ==> r.reply.value.name == db.programs[id].name)
      && (Get(body, "code").Str? ==> r.reply.value.code == Strip(Get(body, "code").s))
      && (Get(body, "name").Str? ==> r.reply.value.name == Strip(Get(body, "name").s))
    ensures Get(body, "code").Str? && IsBlank(Get(body, "code").s) ==> r.reply == Failed(BadRequest, CodeEmpty)
    ensures Get(body, "code").Str? && !IsBlank(Get(body, "code").s)
            && !CodeUnique.ValidateCodeUnique(CodeUnique.ProgramEntity, Get(body, "code").s, ProgramCodes(db), Some(id)).ok
            ==> r.reply == Failed(Conflict, CodeUnique.ExistsMessage(CodeUnique.ProgramEntity, CodeUnique.Normalise(Get(body, "code").s)))
    ensures CodeUnique.UpdateCodePasses(CodeUnique.ProgramEntity, ProgramCodes(db), id, Get(body, "code"))
            && Get(body, "name").Str? && IsBlank(Get(body, "name").s)
            ==> r.reply == Failed(BadRequest, NameEmpty)
    ensures r.reply.Crashed? <==>
      || (!IsNone(Get(body, "code")) && !Get(body, "code").Str?)
      || (CodeUnique.UpdateCodePasses(CodeUnique.ProgramEntity, ProgramCodes(db), id, Get(body, "code"))
          && !IsNone(Get(body, "name")) && !Get(body, "name").Str?)
    ensures r.reply.Done? <==> CodeUnique.UpdateCodePasses(CodeUnique.ProgramEntity, ProgramCodes(db), id, Get(body, "code"))
                               && ProvidedNonBlank(Get(body, "name"))
    ensures r.reply.Failed? ==> r.reply.status in {BadRequest, Conflict}
  {
    var existing := db.programs[id];
    var code := StripIfPresent(Get(body, "code"));
    if code.Raises? then Applied(Crashed, db)
    else if code.Given? && code.text == [] then Applied(Failed(BadRequest, CodeEmpty), db)
    else
      var v := if code.Given? then CodeUnique.ValidateCodeUnique(CodeUnique.ProgramEntity, code.text, ProgramCodes(db), Some(id))
               else CodeUnique.Verdict(true, "");
      if !v.ok then
        StripIdempotent(Get(body, "code").s);
        CodeUnique.ExistsMessageMentionsConflict(CodeUnique.ProgramEntity, CodeUnique.Normalise(code.text));
        Applied(Failed(UniquenessStatus(v.message), v.message), db)
      else
        var name := StripIfPresent(Get(body, "name"));
        if name.Raises? then Applied(Crashed, db)
        else if name.Given? && name.text == [] then Applied(Failed(BadRequest, NameEmpty), db)
        else if college.KeepCollege? && code.NotGiven? && name.NotGiven? then
          assert db.(programs := db.programs[id := existing]) == db;
          Applied(Done(Ok, Record(id, existing)), db)
        else
          var p := Program(
            if college.SetCollege? then college.collegeId else existing.collegeId,
            if code.Given? then code.text else existing.code,
            if name.Given? then name.text else existing.name);
          Applied(Done(Ok, Record(id, p)), db.(programs := db.programs[id := p]))
  }

  /** `delete_by_id`. */
  function Delete(db: Db, id: int): (r: Applied<(), Db>)
    ensures id in db.programs <==> r.reply == Done(NoContent, ())
    ensures id !in db.programs ==> r == Applied(Failed(NotFound, NotFoundMessage), db)
    ensures r.after.programs == db.programs - {id}
    ensures r.after.colleges == db.colleges && r.after.students == db.students
  {
    if id !in db.programs then Applied(Failed(NotFound, NotFoundMessage), db)
    else Applied(Done(NoContent, ()), db.(programs := db.programs - {id}))
  }

  // ---------------------------------------------------------------- invariants

  /** Every stored program code is trimmed and non-empty. */
  predicate CodesTrimmed(db: Db) {
    forall id :: id in db.programs ==> db.programs[id].code != [] && Unpadded(db.programs[id].code)
  }

  /** Every program refers to no college or to a stored college with a truthy id. */
  predicate CollegesResolve(db: Db) {
    forall id :: id in db.programs && db.programs[id].collegeId.Some? ==> CollegeFound(db, db.programs[id].collegeId.value)
  }

  /** Creating a program keeps program codes unique up to case, trimmed, and
      every college reference resolvable. */
  lemma CreatePreservesInvariants(db: Db, body: Body, newId: int)
    requires newId !in db.programs
    requires ProgramCodesDistinct(db) && CodesTrimmed(db) && CollegesResolve(db)
    ensures var after := Create(db, body, newId).after;
      ProgramCodesDistinct(after) && CodesTrimmed(after) && CollegesResolve(after)
  {
    CreateKeepsCodesDistinct(db, body, newId);
    CreateKeepsCodesTrimmed(db, body, newId);
  }

  lemma CreateKeepsCodesDistinct(db: Db, body: Body, newId: int)
    requires newId !in db.programs && ProgramCodesDistinct(db)
    ensures ProgramCodesDistinct(Create(db, body, newId).after)
  {
    var r := Create(db, body, newId);
    if r.reply.Done? {
      var code := StripOrEmpty(Get(body, "code")).value;
      var codes := ProgramCodes(db);
      forall id | id in db.programs
        ensures Upper(db.programs[id].code) != Upper(code)
      {
        assert !CodeUnique.Conflicts(codes, id, CodeUnique.Normalise(code), None);
      }
    }
  }

  lemma CreateKeepsCodesTrimmed(db: Db, body: Body, newId: int)
    requires newId !in db.programs && CodesTrimmed(db)
    ensures CodesTrimmed(Create(db, body, newId).after)
  {
    var r := Create(db, body, newId);
    if r.reply.Done? {
      StripIdempotent(Get(body, "code").s);
    }
  }

  /** Updating a program keeps the same three invariants. */
  lemma UpdatePreservesInvariants(db: Db, id: int, body: Body)
    requires ProgramCodesDistinct(db) && CodesTrimmed(db) && CollegesResolve(db)
    ensures var after := Update(db, id, body).after;
      ProgramCodesDistinct(after) && CodesTrimmed(after) && CollegesResolve(after)
  {
    UpdateKeepsCodesDistinct(db, id, body);
    UpdateKeepsCodesTrimmed(db, id, body);
  }

  lemma UpdateKeepsCodesDistinct(db: Db, id: int, body: Body)
    requires ProgramCodesDistinct(db)
    ensures ProgramCodesDistinct(Update(db, id, body).after)
  {
    var r := Update(db, id, body);
    if r.reply.Done? && Get(body, "code").Str? {
      var code := Strip(Get(body, "code").s);
      var codes := ProgramCodes(db);
      forall other | other in db.programs && other != id
        ensures Upper(db.programs[other].code) != Upper(code)
      {
        assert !CodeUnique.Conflicts(codes, other, CodeUnique.Normalise(code), Some(id));
      }
    }
  }

  lemma UpdateKeepsCodesTrimmed(db: Db, id: int, body: Body)
    requires CodesTrimmed(db)
    ensures CodesTrimmed(Update(db, id, body).after)
  {
    var r := Update(db, id, body);
    if r.reply.Done? && Get(body, "code").Str? {
      StripIdempotent(Get(body, "code").s);
    }
  }

  /** An update with no fields returns the stored record and changes nothing. */
  lemma EmptyUpdateIsIdentity(db: Db, id: int)
    requires id in db.programs
    ensures Update(db, id, map[]) == Applied(Done(Ok, Record(id, db.programs[id])), db)
  {
  }

  /** `college_id: ""` detaches the program from its college and keeps its code and name. */
  lemma ClearingCollege(db: Db, id: int)
    requires id in db.programs
    ensures var p := db.programs[id];
      Update(db, id, map["college_id" := Str("")])
        == Applied(Done(Ok, ProgramRecord(id, None, p.code, p.name)), db.(programs := db.programs[id := p.(collegeId := None)]))
  {
  }

  /** A code that clashes with a stored program (up to case and padding) is
      refused with 409 and the upper-cased code in the message, once the
      college is found. */
  lemma CreateDuplicateConflicts(db: Db, body: Body, newId: int, other: int)
    requires newId !in db.programs
    requires Get(body, "code").Str? && Get(body, "name").Str? && !IsBlank(Get(body, "name").s)
    requires CreateCollegeId(Get(body, "college_id")).Some? && CollegeFound(db, CreateCollegeId(Get(body, "college_id")).value)
    requires other in db.programs && Upper(db.programs[other].code) == CodeUnique.Normalise(Get(body, "code").s)
    requires !IsBlank(Get(body, "code").s)
    ensures Create(db, body, newId)
         == Applied(Failed(Conflict, CodeUnique.ExistsMessage(CodeUnique.ProgramEntity, CodeUnique.Normalise(Get(body, "code").s))), db)
  {
    var code := Strip(Get(body, "code").s);
    StripIdempotent(Get(body, "code").s);
    assert CodeUnique.Conflicts(ProgramCodes(db), other, CodeUnique.Normalise(code), None);
  }

  /** The create checks run in order whatever else is wrong with the body:
      a missing college is reported before a blank code or name, those
      before an unknown college, and that before a taken code. */
  lemma CreateCheckOrder(db: Db, newId: int, collegeId: Value, code: string, name: string)
    requires newId !in db.programs
    ensures var r := Create(db, map["college_id" := collegeId, "code" := Str(code), "name" := Str(name)], newId).reply;
      var college := CreateCollegeId(collegeId);
      && (college.None? ==> r == Failed(BadRequest, CollegeRequired))
      && (college.Some? && (IsBlank(code) || IsBlank(name)) ==> r == Failed(BadRequest, BothRequired))
      && (college.Some? && !IsBlank(code) && !IsBlank(name) && !CollegeFound(db, college.value)
          ==> r == Failed(NotFound, CollegeNotFound))
      && (college.Some? && !IsBlank(code) && !IsBlank(name) && CollegeFound(db, college.value)
          && (exists other :: other in db.programs && Upper(db.programs[other].code) == CodeUnique.Normalise(code))
          ==> r == Failed(Conflict, CodeUnique.ExistsMessage(CodeUnique.ProgramEntity, CodeUnique.Normalise(code))))
  {
    var body := map["college_id" := collegeId, "code" := Str(code), "name" := Str(name)];
    assert Get(body, "college_id") == collegeId && Get(body, "code") == Str(code) && Get(body, "name") == Str(name);
    var college := CreateCollegeId(collegeId);
    if college.Some? && !IsBlank(code) && !IsBlank(name) && CollegeFound(db, college.value)
       && (exists other :: other in db.programs && Upper(db.programs[other].code) == CodeUnique.Normalise(code))
    {
      var other :| other in db.programs && Upper(db.programs[other].code) == CodeUnique.Normalise(code);
      CreateDuplicateConflicts(db, body, newId, other);
    }
  }
}
