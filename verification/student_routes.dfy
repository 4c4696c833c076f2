/** The `/students` blueprint: the unpaginated listing, the write routes and
    the programs of one college. */
module StudentRoutes {
  import opened Common
  import opened Text
  import opened Values
  import opened Views
  import opened Store
  import opened Routes
  import ProgramService
  import StudentService

  /** The `search_by` values the route lets through; three of them name
      columns the listing does not search. */
  const SearchBys: set<string> := {"all", "id", "first_name", "last_name", "program", "year_level", "gender"}

  /** The corrected list: every column the listing searches, including the
      `name` that `getAllStudents` sends. */
  const IntendedSearchBys: set<string> := {"all", "id", "name", "first_name", "last_name", "program", "year_level", "gender"}

  /** `GET /students` as written. */
  function List(rows: seq<StudentService.StudentRow>, args: Args): (r: Response<seq<StudentView>>)
    ensures r.status == Ok && r.payload.Json?
    ensures var q := ReadListQuery(args, SearchBys);
      && (forall i :: 0 <= i < |r.payload.value| ==>
            exists row :: row in rows && StudentService.Matches(row, q.search, q.searchBy) && r.payload.value[i] == StudentService.ToDict(row))
      && (forall row :: row in rows && StudentService.Matches(row, q.search, q.searchBy) ==> StudentService.ToDict(row) in r.payload.value)
  {
    var q := ReadListQuery(args, SearchBys);
    Envelope(StudentService.ListAll(rows, q.sortBy, q.order, q.search, q.searchBy), Ok)
  }

  /** The query the listing page sends for a first-name search. */
  function FirstNameSearch(search: string): Args {
    [("search", search), ("search_by", "first_name")]
  }

  lemma FirstNameSearchArgs(search: string)
    ensures ArgOr(FirstNameSearch(search), "search_by", "all") == "first_name"
    ensures ArgOr(FirstNameSearch(search), "search", "") == search
    ensures ArgOr(FirstNameSearch(search), "sort_by", "") == "" && ArgOr(FirstNameSearch(search), "order", "asc") == "asc"
  {
    var args := FirstNameSearch(search);
    assert args[0].0 == "search" && args[1..] == [("search_by", "first_name")];
    assert Arg(args[1..], "search_by") == Some("first_name");
  }

  lemma FirstNameIsPlain()
    ensures Unpadded("first_name") && NoCapitals("first_name")
  {
    assert NoCapitals("first_name");
  }

  /** The route passes a trimmed first-name search through to the listing. */
  lemma FirstNameReachesListing(search: string)
    requires Unpadded(search)
    ensures ReadListQuery(FirstNameSearch(search), IntendedSearchBys).searchBy == "first_name"
    ensures ReadListQuery(FirstNameSearch(search), IntendedSearchBys).search == search
  {
    FirstNameSearchArgs(search);
    FirstNameIsPlain();
    ReadBackQuery(FirstNameSearch(search), IntendedSearchBys);
  }

  /** As written, a first-name, last-name or year-level search lists every
      student, whatever the search text. */
  lemma NameSearchListsEveryone(rows: seq<StudentService.StudentRow>, args: Args)
    requires ReadListQuery(args, SearchBys).searchBy in {"first_name", "last_name", "year_level"}
    ensures List(rows, args).payload.value == Map(rows, StudentService.ToDict)
  {
    var q := ReadListQuery(args, SearchBys);
    StudentService.UnfilteredSearchBy(rows, q.sortBy, q.order, q.search, q.searchBy);
  }

  /** `GET /students` with the corrected search. */
  function ListIntended(rows: seq<StudentService.StudentRow>, args: Args): (r: Response<seq<StudentView>>)
    ensures r.status == Ok && r.payload.Json?
    ensures var q := ReadListQuery(args, IntendedSearchBys);
      && (forall i :: 0 <= i < |r.payload.value| ==>
            exists row :: row in rows && StudentService.IntendedMatches(row, q.search, q.searchBy)
              && r.payload.value[i] == StudentService.ToDict(row))
      && (forall row :: row in rows && StudentService.IntendedMatches(row, q.search, q.searchBy)
            ==> StudentService.ToDict(row) in r.payload.value)
  {
    var q := ReadListQuery(args, IntendedSearchBys);
    Envelope(StudentService.ListAllIntended(rows, q.sortBy, q.order, q.search, q.searchBy), Ok)
  }

  /** With the corrected search, a query read as a first-name search (the
      page's own query is one, by `FirstNameReachesListing`) lists only
      students whose first name contains the search text. */
  lemma FirstNameListing(rows: seq<StudentService.StudentRow>, args: Args, search: string)
    requires search != []
    requires ReadListQuery(args, IntendedSearchBys).searchBy == "first_name"
    requires ReadListQuery(args, IntendedSearchBys).search == search
    ensures var r := ListIntended(rows, args).payload.value;
      forall i :: 0 <= i < |r| ==>
        exists row :: row in rows && ILike(row.student.firstName, Lower(search)) && r[i] == StudentService.ToDict(row)
  {
    var r := ListIntended(rows, args).payload.value;
    forall i | 0 <= i < |r|
      ensures exists row :: row in rows && ILike(row.student.firstName, Lower(search)) && r[i] == StudentService.ToDict(row)
    {
      var row :| row in rows && StudentService.IntendedMatches(row, search, "first_name") && r[i] == StudentService.ToDict(row);
      StudentService.FirstNameMatch(row, search);
    }
  }

  /** The query `getAllStudents` sends for a `name` search. */
  const NameSearch: Args := [("search", "Ana"), ("search_by", "name")]

  lemma NameSearchArgs()
    ensures ArgOr(NameSearch, "search_by", "all") == "name" && ArgOr(NameSearch, "search", "") == "Ana"
    ensures ArgOr(NameSearch, "sort_by", "") == "" && ArgOr(NameSearch, "order", "asc") == "asc"
    ensures Unpadded("name") && NoCapitals("name") && Unpadded("Ana")
  {
    assert NameSearch[1..] == [("search_by", "name")];
  }

  /** As written, a `name` search arrives at the listing as `all`. */
  lemma NameSearchBecomesAll()
    ensures ReadListQuery(NameSearch, SearchBys).searchBy == "all"
  {
    NameSearchArgs();
    ReadBackQuery(NameSearch, SearchBys);
  }

  /** With the corrected list, a `name` search reaches the listing. */
  lemma IntendedNameReachesListing()
    ensures ReadListQuery(NameSearch, IntendedSearchBys).searchBy == "name"
  {
    NameSearchArgs();
    ReadBackQuery(NameSearch, IntendedSearchBys);
  }

  /** `POST /students`. */
  function Create(db: Db, j: Json): (r: (Response<StudentView>, Db))
    ensures r.0.status == Created <==> ReadBody(j).Some? && StudentService.Create(db, ReadBody(j).value).reply.Done?
    ensures r.0.status != Created ==> r.1 == db
    ensures r.0.status in {Created, BadRequest, NotFound, Conflict, InternalServerError}
  {
    match ReadBody(j)
    case None => (Response(InternalServerError, ErrorPage), db)
    case Some(body) =>
      var a := StudentService.Create(db, body);
      (Envelope(a.reply, Created), a.after)
  }

  /** `PUT /students/<id>`. */
  function Update(db: Db, sid: string, j: Json): (r: (Response<StudentView>, Db))
    ensures r.0.status == Ok <==>
      ReadBody(j).Some? && StudentService.Update(db, sid, StudentService.ReadUpdate(ReadBody(j).value)).reply.Done?
    ensures r.0.status != Ok ==> r.1 == db
    ensures sid !in db.students && ReadBody(j).Some? ==> r.0 == Response(NotFound, Message(StudentService.NotFoundMessage))
  {
    match ReadBody(j)
    case None => (Response(InternalServerError, ErrorPage), db)
    case Some(body) =>
      var a := StudentService.Update(db, sid, StudentService.ReadUpdate(body));
      (Envelope(a.reply, Ok), a.after)
  }

  /** `DELETE /students/<id>`: an empty body with 204. */
  function Delete(db: Db, sid: string): (r: (Response<()>, Db))
    ensures sid in db.students ==> r == (Response(NoContent, EmptyBody), db.(students := db.students - {sid}))
    ensures sid !in db.students ==> r == (Response(NotFound, Message(StudentService.NotFoundMessage)), db)
  {
    var a := StudentService.Delete(db, sid);
    if a.reply.Done? then (Response(NoContent, EmptyBody), a.after) else (Envelope(a.reply, NoContent), a.after)
  }

  /** `GET /students/programs/<college_id>`. */
  function ProgramsOfCollege(rows: seq<ProgramService.JoinedRow>, collegeId: int): (r: Response<seq<ProgramService.ProgramItem>>)
    ensures r.status == Ok && r.payload.Json?
    ensures forall i :: 0 <= i < |r.payload.value| ==> r.payload.value[i].collegeId == Some(collegeId)
    ensures forall row :: row in rows && row.collegeId == Some(collegeId) ==> ProgramService.Item(row) in r.payload.value
  {
    Envelope(StudentService.ProgramsByCollege(rows, collegeId), Ok)
  }
}
