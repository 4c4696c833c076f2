/** How the frontend services build their request URLs: the query string as
    the `URLSearchParams` key/value pairs in append order, and the paths of
    the single-record endpoints. */
module QueryBuilders {
  import opened Common
  import opened Text
  import opened Routes
  import CollegeRoutes
  import ProgramRoutes
  import StudentRoutes

  /** A path with its query string; `None` is a URL without `?`. Percent
      encoding of the pairs is not modelled. */
  datatype Url = Url(path: string, query: Option<Args>)

  /** `params.append(key, value)` when `present`. */
  function Param(present: bool, key: string, value: string): Args {
    if present then [(key, value)] else []
  }

  /** An optional argument: `""` stands for both `undefined` and the empty
      string, which JavaScript treats alike in `if (x)`. */
  const Absent := ""

  // ---------------------------------------------------------------- colleges

  /** `getAllColleges`: the sort pair and the search pair are each appended
      together or not at all; `order` falls back to `asc`. */
  function CollegeParams(sortBy: string, order: string, search: string, searchBy: string): (r: Args)
    ensures sortBy == Absent && search == Absent ==> r == []
    ensures sortBy != Absent && search == Absent ==> r == [("sort_by", sortBy), ("order", if order == Absent then "asc" else order)]
    ensures sortBy == Absent && search != Absent ==> r == [("search", search), ("search_by", searchBy)]
    ensures sortBy != Absent && search != Absent ==>
      r == [("sort_by", sortBy), ("order", if order == Absent then "asc" else order), ("search", search), ("search_by", searchBy)]
  {
    var sorting := if sortBy != Absent then [("sort_by", sortBy), ("order", if order == Absent then "asc" else order)] else [];
    var searching := if search != Absent then [("search", search), ("search_by", searchBy)] else [];
    sorting + searching
  }

  function CollegeListUrl(sortBy: string, order: string, search: string, searchBy: string): (u: Url)
    ensures u.path == "/colleges"
    ensures u.query.None? <==> sortBy == Absent && search == Absent
    ensures u.query.Some? ==> u.query.value == CollegeParams(sortBy, order, search, searchBy) && u.query.value != []
  {
    var params := CollegeParams(sortBy, order, search, searchBy);
    if params == [] then Url("/colleges", None) else Url("/colleges", Some(params))
  }

  /** `${prefix}${id}`: a numeric id rendered into a path, with no query. */
  function IdUrl(prefix: string, id: int): (u: Url)
    ensures u.query.None?
    ensures id >= 0 ==> PathId(u.path, prefix) == Some(id)
  {
    RenderedPathId(prefix, id);
    Url(prefix + IntToString(id), None)
  }

  /** `/colleges/${id}` for update and delete. */
  function CollegeUrl(id: int): (u: Url)
    ensures u.query.None?
    ensures id >= 0 ==> PathId(u.path, "/colleges/") == Some(id)
  {
    IdUrl("/colleges/", id)
  }

  // ------------------------------------------------------ programs, students

  /** `getAllPrograms` and `getAllStudents`: each argument is appended on its
      own when given, and `search_by` only when it is not `all`. */
  function IndependentParams(sortBy: string, order: string, search: string, searchBy: string): (r: Args)
    ensures Arg(r, "sort_by") == (if sortBy != Absent then Some(sortBy) else None)
    ensures Arg(r, "order") == (if order != Absent then Some(order) else None)
    ensures Arg(r, "search") == (if search != Absent then Some(search) else None)
    ensures Arg(r, "search_by") == (if searchBy != Absent && searchBy != "all" then Some(searchBy) else None)
    ensures |r| <= 4
  {
    var a := Param(sortBy != Absent, "sort_by", sortBy);
    var b := Param(order != Absent, "order", order);
    var c := Param(search != Absent, "search", search);
    var d := Param(searchBy != Absent && searchBy != "all", "search_by", searchBy);
    ArgsOfJoin(a, b, c, d);
    a + b + c + d
  }

  /** The four parameter groups joined; each key comes from its own group. */
  lemma ArgsOfJoin(a: Args, b: Args, c: Args, d: Args)
    requires forall i :: 0 <= i < |a| ==> a[i].0 == "sort_by"
    requires forall i :: 0 <= i < |b| ==> b[i].0 == "order"
    requires forall i :: 0 <= i < |c| ==> c[i].0 == "search"
    requires forall i :: 0 <= i < |d| ==> d[i].0 == "search_by"
    ensures Arg(a + b + c + d, "sort_by") == Arg(a, "sort_by")
    ensures Arg(a + b + c + d, "order") == Arg(b, "order")
    ensures Arg(a + b + c + d, "search") == Arg(c, "search")
    ensures Arg(a + b + c + d, "search_by") == Arg(d, "search_by")
  {
    assert "sort_by" != "order" && "sort_by" != "search" && "sort_by" != "search_by";
    assert "order" != "search" && "order" != "search_by" && "search" != "search_by";
    ArgOfGroups(a, b, c, d, "sort_by");
    ArgOfGroups(a, b, c, d, "order");
    ArgOfGroups(a, b, c, d, "search");
    ArgOfGroups(a, b, c, d, "search_by");
  }

  /** The first `key` of four joined groups is the first one of the first
      group that has it. */
  lemma ArgOfGroups(a: Args, b: Args, c: Args, d: Args, key: string)
    ensures Arg(a + b + c + d, key) ==
      if Arg(a, key).Some? then Arg(a, key) else if Arg(b, key).Some? then Arg(b, key)
      else if Arg(c, key).Some? then Arg(c, key) else Arg(d, key)
  {
    ArgConcat(a + b + c, d, key);
    ArgConcat(a + b, c, key);
    ArgConcat(a, b, key);
  }

  /** `${path}?${params}`: the `?` is there even when nothing follows. */
  function IndependentListUrl(path: string, sortBy: string, order: string, search: string, searchBy: string): (u: Url)
  {
    Url(path, Some(IndependentParams(sortBy, order, search, searchBy)))
  }

  function ProgramListUrl(sortBy: string, order: string, search: string, searchBy: string): (u: Url)
    ensures u.path == "/programs" && u.query.Some?
    ensures u.query.value == IndependentParams(sortBy, order, search, searchBy)
  {
    IndependentListUrl("/programs", sortBy, order, search, searchBy)
  }

  function StudentListUrl(sortBy: string, order: string, search: string, searchBy: string): (u: Url)
    ensures u.path == "/students" && u.query.Some?
    ensures u.query.value == IndependentParams(sortBy, order, search, searchBy)
  {
    IndependentListUrl("/students", sortBy, order, search, searchBy)
  }

  function ProgramUrl(id: int): (u: Url)
    ensures u.query.None?
    ensures id >= 0 ==> PathId(u.path, "/programs/") == Some(id)
  {
    IdUrl("/programs/", id)
  }

  /** `/students/${id}`: the id is put into the path as it is. */
  function StudentUrl(id: string): (u: Url)
    ensures u.query.None? && |u.path| == |"/students/"| + |id|
    ensures u.path[..|"/students/"|] == "/students/" && u.path[|"/students/"|..] == id
  {
    Url("/students/" + id, None)
  }

  function ProgramsOfCollegeUrl(collegeId: int): (u: Url)
    ensures u.query.None?
    ensures collegeId >= 0 ==> PathId(u.path, "/students/programs/") == Some(collegeId)
  {
    IdUrl("/students/programs/", collegeId)
  }

  // ---------------------------------------------------------------- routing

  /** Flask's `<int:...>` converter after `prefix`: one or more decimal digits. */
  function PathId(path: string, prefix: string): (r: Option<int>)
    ensures r.Some? ==> r.value >= 0
  {
    if |prefix| <= |path| && path[..|prefix|] == prefix && path[|prefix|..] != [] && AllDigits(path[|prefix|..])
    then Some(DigitsValue(path[|prefix|..]))
    else None
  }

  /** The route reads back the id the service rendered. */
  lemma RenderedPathId(prefix: string, id: int)
    ensures id >= 0 ==> PathId(prefix + IntToString(id), prefix) == Some(id)
  {
    if id >= 0 {
      var path := prefix + IntToString(id);
      assert path[..|prefix|] == prefix && path[|prefix|..] == NatToString(id);
    }
  }

  // ---------------------------------------------------------------- round trips

  /** What the route makes of a well-formed sort order. */
  lemma NormalisedOrder(order: string)
    requires order in {"asc", "desc"}
    ensures NormaliseOrder(order) == order
  {
    StripUnpadded(order);
    assert NoCapitals(order);
    LowerNoCapitals(order);
  }

  /** A lower-case, unpadded `search_by` the route allows passes unchanged. */
  lemma NormalisedSearchBy(searchBy: string, allowed: set<string>)
    requires "all" in allowed && searchBy in allowed
    requires Unpadded(searchBy) && NoCapitals(searchBy)
    ensures NormaliseSearchBy(searchBy, allowed) == searchBy
  {
    StripUnpadded(searchBy);
    LowerNoCapitals(searchBy);
  }

  /** The listing query the backend reads from `getAllPrograms` or
      `getAllStudents` parameters. */
  lemma IndependentQuery(sortBy: string, order: string, search: string, searchBy: string, allowed: set<string>)
    requires Unpadded(sortBy) && Unpadded(search)
    requires order in {Absent, "asc", "desc"}
    requires "all" in allowed && searchBy != Absent && Unpadded(searchBy) && NoCapitals(searchBy)
    ensures ReadListQuery(IndependentParams(sortBy, order, search, searchBy), allowed)
         == ListQuery(sortBy, if order == "desc" then "desc" else "asc", search,
                      if searchBy in allowed then searchBy else "all")
  {
    var args := IndependentParams(sortBy, order, search, searchBy);
    assert ArgOr(args, "sort_by", "") == sortBy;
    assert ArgOr(args, "search", "") == search;
    assert ArgOr(args, "order", "asc") == if order == Absent then "asc" else order;
    var sb := ArgOr(args, "search_by", "all");
    assert sb == if searchBy == Absent then "all" else searchBy;
    assert Unpadded(sb) && NoCapitals(sb);
    ReadBackQuery(args, allowed);
  }

  /** The program listing reads back what `getAllPrograms` sent. */
  lemma ProgramQueryRoundTrip(sortBy: string, order: string, search: string, searchBy: string)
    requires Unpadded(sortBy) && Unpadded(search)
    requires order in {Absent, "asc", "desc"}
    requires searchBy in ProgramRoutes.SearchBys
    ensures ReadListQuery(ProgramListUrl(sortBy, order, search, searchBy).query.value, ProgramRoutes.SearchBys)
         == ListQuery(sortBy, if order == "desc" then "desc" else "asc", search, searchBy)
  {
    assert Unpadded(searchBy) && NoCapitals(searchBy);
    IndependentQuery(sortBy, order, search, searchBy, ProgramRoutes.SearchBys);
  }

  /** The student listing reads back what `getAllStudents` sent, except
      that `name`, which the service's own type offers, is not on the
      route's list and arrives as `all`. */
  lemma StudentQueryRoundTrip(sortBy: string, order: string, search: string, searchBy: string)
    requires Unpadded(sortBy) && Unpadded(search)
    requires order in {Absent, "asc", "desc"}
    requires searchBy in {"all", "id", "name", "program", "gender"}
    ensures ReadListQuery(StudentListUrl(sortBy, order, search, searchBy).query.value, StudentRoutes.SearchBys)
         == ListQuery(sortBy, if order == "desc" then "desc" else "asc", search, if searchBy == "name" then "all" else searchBy)
  {
    PlainStudentSearchBy(searchBy);
    StudentSearchByAllowed(searchBy);
    IndependentQuery(sortBy, order, search, searchBy, StudentRoutes.SearchBys);
  }

  lemma PlainStudentSearchBy(s: string)
    requires s in {"all", "id", "name", "program", "gender"}
    ensures Unpadded(s) && NoCapitals(s)
  {
    if s == "all" {
      assert NoCapitals("all");
    } else if s == "id" {
      assert NoCapitals("id");
    } else if s == "name" {
      assert NoCapitals("name");
    } else if s == "program" {
      assert NoCapitals("program");
    } else {
      assert NoCapitals("gender");
    }
  }

  lemma StudentSearchByAllowed(s: string)
    requires s in {"all", "id", "name", "program", "gender"}
    ensures s in StudentRoutes.SearchBys <==> s != "name"
  {
  }

  /** What the college route's argument lookups find in the parameters
      `getAllColleges` builds. */
  lemma CollegeArgs(sortBy: string, order: string, search: string, searchBy: string)
    ensures var args := CollegeParams(sortBy, order, search, searchBy);
      && ArgOr(args, "sort_by", "") == sortBy
      && ArgOr(args, "search", "") == search
      && ArgOr(args, "order", "asc") == (if sortBy == Absent then "asc" else if order == Absent then "asc" else order)
      && ArgOr(args, "search_by", "all") == (if search != Absent then searchBy else "all")
  {
    CollegeSortArgs(sortBy, order, search, searchBy);
    CollegeSearchArgs(sortBy, order, search, searchBy);
  }

  lemma CollegeSortArgs(sortBy: string, order: string, search: string, searchBy: string)
    ensures var args := CollegeParams(sortBy, order, search, searchBy);
      && ArgOr(args, "sort_by", "") == sortBy
      && ArgOr(args, "order", "asc") == (if sortBy == Absent then "asc" else if order == Absent then "asc" else order)
  {
    var sorting := if sortBy != Absent then [("sort_by", sortBy), ("order", if order == Absent then "asc" else order)] else [];
    var searching := if search != Absent then [("search", search), ("search_by", searchBy)] else [];
    assert CollegeParams(sortBy, order, search, searchBy) == sorting + searching;
    ArgConcat(sorting, searching, "sort_by");
    ArgConcat(sorting, searching, "order");
  }

  lemma CollegeSearchArgs(sortBy: string, order: string, search: string, searchBy: string)
    ensures var args := CollegeParams(sortBy, order, search, searchBy);
      && ArgOr(args, "search", "") == search
      && ArgOr(args, "search_by", "all") == (if search != Absent then searchBy else "all")
  {
    var sorting := if sortBy != Absent then [("sort_by", sortBy), ("order", if order == Absent then "asc" else order)] else [];
    var searching := if search != Absent then [("search", search), ("search_by", searchBy)] else [];
    assert CollegeParams(sortBy, order, search, searchBy) == sorting + searching;
    ArgConcat(sorting, searching, "search");
    ArgConcat(sorting, searching, "search_by");
  }

  /** The college listing reads back the sort only when a column was given
      and the search column only when there was search text. */
  lemma CollegeQueryRoundTrip(sortBy: string, order: string, search: string, searchBy: string)
    requires Unpadded(sortBy) && Unpadded(search)
    requires order in {Absent, "asc", "desc"}
    requires searchBy in CollegeRoutes.SearchBys
    ensures ReadListQuery(CollegeListUrl(sortBy, order, search, searchBy).query.GetOr([]), CollegeRoutes.SearchBys)
         == ListQuery(sortBy, if sortBy != Absent && order == "desc" then "desc" else "asc",
                      search, if search != Absent then searchBy else "all")
  {
    var args := CollegeParams(sortBy, order, search, searchBy);
    assert CollegeListUrl(sortBy, order, search, searchBy).query.GetOr([]) == args;
    CollegeArgs(sortBy, order, search, searchBy);
    var sb := ArgOr(args, "search_by", "all");
    PlainCollegeSearchBy(sb);
    ReadBackQuery(args, CollegeRoutes.SearchBys);
  }

  lemma PlainCollegeSearchBy(s: string)
    requires s in CollegeRoutes.SearchBys
    ensures Unpadded(s) && NoCapitals(s)
  {
  }
}
