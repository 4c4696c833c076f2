/** The `/programs` blueprint: the listing's sort and search parameters and
    the response each write route sends. */
module ProgramRoutes {
  import opened Common
  import opened Values
  import opened Store
  import opened Pagination
  import opened Routes
  import ProgramService

  const SearchBys: set<string> := {"all", "code", "name", "college"}

  /** `list_programs` calls the service without page arguments, so its
      defaults apply. */
  const DefaultPage := 1
  const DefaultPerPage := 10

  /** `GET /programs` as written: the bare `data` list of the service's
      first page. */
  function List(rows: seq<ProgramService.JoinedRow>, args: Args): (r: Response<seq<ProgramService.ProgramItem>>)
    ensures r.status == Ok && r.payload.Json?
    ensures var q := ReadListQuery(args, SearchBys);
      var matching := Filter(rows, ProgramService.Where(q.search, q.searchBy));
      && |r.payload.value| == (if |matching| <= DefaultPerPage then |matching| else DefaultPerPage)
      && forall i :: 0 <= i < |r.payload.value| ==> r.payload.value[i] == ProgramService.Item(matching[i])
  {
    var q := ReadListQuery(args, SearchBys);
    match ProgramService.ListAll(rows, DefaultPage, DefaultPerPage, q.sortBy, q.order, q.search, q.searchBy)
    case Done(_, v) => Response(Ok, Json(v.0))
    case Failed(status, message) => Response(status, Message(message))
    case Crashed => Response(InternalServerError, ErrorPage)
  }

  /** With eleven programs and no search, the listing holds only ten. */
  lemma ListKeepsTen(rows: seq<ProgramService.JoinedRow>)
    requires |rows| == 11
    ensures |List(rows, []).payload.value| == 10
  {
    NoArgsQuery(SearchBys);
    FilterAll(rows, ProgramService.Where("", "all"));
  }

  /** `GET /programs` as its docstring describes it: every matching program. */
  function ListEvery(rows: seq<ProgramService.JoinedRow>, args: Args): (r: Response<seq<ProgramService.ProgramItem>>)
    ensures r.status == Ok && r.payload.Json?
    ensures var q := ReadListQuery(args, SearchBys);
      var matching := Filter(rows, ProgramService.Where(q.search, q.searchBy));
      && |r.payload.value| == |matching|
      && forall i :: 0 <= i < |matching| ==> r.payload.value[i] == ProgramService.Item(matching[i])
  {
    var q := ReadListQuery(args, SearchBys);
    Response(Ok, Json(Map(Filter(rows, ProgramService.Where(q.search, q.searchBy)), ProgramService.Item)))
  }

  /** Without a search every stored program is listed, however many there are. */
  lemma ListEveryIsComplete(rows: seq<ProgramService.JoinedRow>)
    ensures |ListEvery(rows, []).payload.value| == |rows|
    ensures forall row :: row in rows ==> ProgramService.Item(row) in ListEvery(rows, []).payload.value
  {
    NoArgsQuery(SearchBys);
    FilterAll(rows, ProgramService.Where("", "all"));
    forall row | row in rows ensures ProgramService.Item(row) in ListEvery(rows, []).payload.value {
      var k :| 0 <= k < |rows| && rows[k] == row;
      assert ListEvery(rows, []).payload.value[k] == ProgramService.Item(row);
    }
  }

  /** `POST /programs`. */
  function Create(db: Db, j: Json, newId: int): (r: (Response<ProgramService.ProgramRecord>, Db))
    requires newId !in db.programs
    ensures r.0.status == Created <==> ReadBody(j).Some? && ProgramService.Create(db, ReadBody(j).value, newId).reply.Done?
    ensures r.0.status != Created ==> r.1 == db
    ensures r.0.status in {Created, BadRequest, NotFound, Conflict, InternalServerError}
  {
    match ReadBody(j)
    case None => (Response(InternalServerError, ErrorPage), db)
    case Some(body) =>
      var a := ProgramService.Create(db, body, newId);
      (Envelope(a.reply, Created), a.after)
  }

  /** `PUT /programs/<id>`. */
  function Update(db: Db, id: int, j: Json): (r: (Response<ProgramService.ProgramRecord>, Db))
    ensures r.0.status == Ok <==> ReadBody(j).Some? && ProgramService.Update(db, id, ReadBody(j).value).reply.Done?
    ensures r.0.status != Ok ==> r.1 == db
    ensures id !in db.programs && ReadBody(j).Some? ==> r.0 == Response(NotFound, Message(ProgramService.NotFoundMessage))
  {
    match ReadBody(j)
    case None => (Response(InternalServerError, ErrorPage), db)
    case Some(body) =>
      var a := ProgramService.Update(db, id, body);
      (Envelope(a.reply, Ok), a.after)
  }

  /** `DELETE /programs/<id>`: an empty body with 204. */
  function Delete(db: Db, id: int): (r: (Response<()>, Db))
    ensures id in db.programs ==> r == (Response(NoContent, EmptyBody), db.(programs := db.programs - {id}))
    ensures id !in db.programs ==> r == (Response(NotFound, Message(ProgramService.NotFoundMessage)), db)
  {
    var a := ProgramService.Delete(db, id);
    if a.reply.Done? then (Response(NoContent, EmptyBody), a.after) else (Envelope(a.reply, NoContent), a.after)
  }
}
