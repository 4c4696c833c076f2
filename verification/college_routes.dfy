/** The `/colleges` blueprint: the listing's page, size, sort and search
    parameters, and the response each write route sends. */
module CollegeRoutes {
  import opened Common
  import opened Text
  import opened Values
  import opened Views
  import opened Store
  import opened Pagination
  import opened Routes
  import CollegeService

  /** The parameters `list_colleges` hands to the service. */
  datatype CollegeQuery = CollegeQuery(page: int, perPage: int, list: ListQuery)

  const SearchBys: set<string> := {"all", "code", "name"}

  /** Both numbers are parsed in one `try`: if either is not an integer both
      fall back to 1 and 10. Then the page is at least 1 and the size is
      clamped into 1..100. */
  function ReadQuery(args: Args): (q: CollegeQuery)
    ensures q.page >= 1 && 1 <= q.perPage <= 100
    ensures IntArg(args, "page", 1).None? || IntArg(args, "per_page", 10).None? ==> q.page == 1 && q.perPage == 10
    ensures IntArg(args, "page", 1).Some? && IntArg(args, "per_page", 10).Some? ==>
      var p := IntArg(args, "page", 1).value;
      var n := IntArg(args, "per_page", 10).value;
      && (p >= 1 ==> q.page == p) && (p < 1 ==> q.page == 1)
      && (1 <= n <= 100 ==> q.perPage == n) && (n < 1 ==> q.perPage == 1) && (n > 100 ==> q.perPage == 100)
    ensures q.list.searchBy in SearchBys
    ensures q.list == ReadListQuery(args, SearchBys)
  {
    var p := IntArg(args, "page", 1);
    var n := IntArg(args, "per_page", 10);
    var page := if p.None? || n.None? then 1 else p.value;
    var perPage := if p.None? || n.None? then 10 else n.value;
    CollegeQuery(if page < 1 then 1 else page,
                 if perPage > 100 then 100 else if perPage < 1 then 1 else perPage,
                 ReadListQuery(args, SearchBys))
  }

  /** The `{colleges, pagination}` object of a successful listing. */
  datatype Listing = Listing(colleges: seq<CollegeView>, pagination: PageMeta)

  function ToListing(o: Outcome<(seq<CollegeView>, PageMeta)>): Outcome<Listing> {
    match o
    case Done(status, v) => Done(status, Listing(v.0, v.1))
    case Failed(status, message) => Failed(status, message)
    case Crashed => Crashed
  }

  /** `GET /colleges`; `rows` is the table in the order the query asks for. */
  function List(rows: seq<CollegeView>, args: Args): (r: Response<Listing>)
    ensures r.status == Ok && r.payload.Json?
    ensures var q := ReadQuery(args);
      && r.payload.value.pagination.page == q.page && r.payload.value.pagination.perPage == q.perPage
      && |r.payload.value.colleges| <= q.perPage
  {
    var q := ReadQuery(args);
    CollegeService.ListPage(rows, q.page, q.perPage, q.list.sortBy, q.list.order, q.list.search, q.list.searchBy);
    Envelope(ToListing(CollegeService.ListAll(rows, q.page, q.perPage, q.list.sortBy, q.list.order, q.list.search, q.list.searchBy)), Ok)
  }

  /** `POST /colleges`. */
  function Create(db: Db, j: Json, newId: int): (r: (Response<CollegeView>, Db))
    requires newId !in db.colleges
    ensures r.0.status == Created <==> ReadBody(j).Some? && CollegeService.Create(db, ReadBody(j).value, newId).reply.Done?
    ensures r.0.status != Created ==> r.1 == db
    ensures r.0.status in {Created, BadRequest, Conflict, InternalServerError}
  {
    match ReadBody(j)
    case None => (Response(InternalServerError, ErrorPage), db)
    case Some(body) =>
      var a := CollegeService.Create(db, body, newId);
      (Envelope(a.reply, Created), a.after)
  }

  /** `PUT /colleges/<id>`. */
  function Update(db: Db, id: int, j: Json): (r: (Response<CollegeView>, Db))
    ensures r.0.status == Ok <==> ReadBody(j).Some? && CollegeService.Update(db, id, ReadBody(j).value).reply.Done?
    ensures r.0.status != Ok ==> r.1 == db
    ensures id !in db.colleges && ReadBody(j).Some? ==> r.0 == Response(NotFound, Message(CollegeService.NotFoundMessage))
  {
    match ReadBody(j)
    case None => (Response(InternalServerError, ErrorPage), db)
    case Some(body) =>
      var a := CollegeService.Update(db, id, body);
      (Envelope(a.reply, Ok), a.after)
  }

  /** `DELETE /colleges/<id>`: an empty body with 204. */
  function Delete(db: Db, id: int): (r: (Response<()>, Db))
    ensures id in db.colleges ==> r == (Response(NoContent, EmptyBody), db.(colleges := db.colleges - {id}))
    ensures id !in db.colleges ==> r == (Response(NotFound, Message(CollegeService.NotFoundMessage)), db)
  {
    var a := CollegeService.Delete(db, id);
    if a.reply.Done? then (Response(NoContent, EmptyBody), a.after) else (Envelope(a.reply, NoContent), a.after)
  }

  /** A page that is not an integer resets the size too: `?page=x&per_page=50`
      lists ten rows per page, and so does any other size. */
  lemma BadPageResetsSize(args: Args)
    requires Arg(args, "page").Some? && PyParseInt(Arg(args, "page").value).None?
    ensures ReadQuery(args).page == 1 && ReadQuery(args).perPage == 10
  {
  }

  /** Every page size above 100 is clamped to 100, and the page asked for
      is kept. */
  lemma LargeSizeClamped(page: int, perPage: int)
    requires page >= 1 && perPage > 100
    ensures var q := ReadQuery([("page", IntToString(page)), ("per_page", IntToString(perPage))]);
      q.page == page && q.perPage == 100
  {
    var args: Args := [("page", IntToString(page)), ("per_page", IntToString(perPage))];
    assert Arg(args, "page") == Some(IntToString(page));
    assert Arg(args, "per_page") == Some(IntToString(perPage));
    PyParseIntRoundTrip(page);
    PyParseIntRoundTrip(perPage);
  }
}
