/** `CollegeService`: the paginated listing and the create, update and
    delete operations over the `colleges` table. */
module CollegeService {
  import opened Common
  import opened Text
  import opened Values
  import opened Views
  import opened Store
  import opened Pagination
  import CodeUnique

  datatype Column = CodeColumn | NameColumn

  /** `ORDER BY` is added only for `code` or `name`; descending iff `order == "desc"`. */
  function ListOrder(sortBy: string, order: string): (r: Order<Column>)
    ensures r.Unordered? <==> sortBy != "code" && sortBy != "name"
    ensures r.OrderBy? ==> (r.column == CodeColumn <==> sortBy == "code") && (r.descending <==> order == "desc")
  {
    if sortBy == "code" then OrderBy(CodeColumn, order == "desc")
    else if sortBy == "name" then OrderBy(NameColumn, order == "desc")
    else Unordered
  }

  /** The columns the `WHERE` clause searches; `None` is no `WHERE` at all,
      which is also what an unrecognised `search_by` yields. */
  function SearchColumns(search: string, searchBy: string): (r: Option<set<Column>>)
    ensures search == [] ==> r.None?
    ensures search != [] && searchBy == "all" ==> r == Some({CodeColumn, NameColumn})
    ensures r.Some? ==> r.value != {}
    ensures r.None? <==> search == [] || (searchBy != "all" && searchBy != "code" && searchBy != "name")
  {
    if search == [] then None
    else if searchBy == "all" then Some({CodeColumn, NameColumn})
    else if searchBy == "code" then Some({CodeColumn})
    else if searchBy == "name" then Some({NameColumn})
    else None
  }

  function ColumnValue(c: CollegeView, col: Column): string {
    match col
    case CodeColumn => c.code
    case NameColumn => c.name
  }

  predicate Matches(c: CollegeView, search: string, searchBy: string) {
    match SearchColumns(search, searchBy)
    case None => true
    case Some(cols) => exists col :: col in cols && ILike(ColumnValue(c, col), search)
  }

  /** The `WHERE` clause as a row predicate. */
  function Where(search: string, searchBy: string): CollegeView -> bool {
    c => Matches(c, search, searchBy)
  }

  const ListFailed := "Failed to retrieve colleges."

  /** `list_all`: `rows` is the table in the order `ListOrder` asks for. */
  function ListAll(rows: seq<CollegeView>, page: int, perPage: int, sortBy: string, order: string,
                   search: string, searchBy: string): (r: Outcome<(seq<CollegeView>, PageMeta)>)
    ensures r.Failed? <==> perPage < 0 || Offset(page, perPage) < 0
    ensures r.Failed? ==> r == Failed(InternalServerError, ListFailed)
    ensures !r.Crashed?
    ensures r.Done? ==> r.status == Ok && |r.value.0| <= perPage
    ensures r.Done? ==> r.value.1 == Meta(page, perPage, |Filter(rows, Where(search, searchBy))|)
    ensures r.Done? ==> var matching := Filter(rows, Where(search, searchBy));
      var offset := Offset(page, perPage);
      && |r.value.0| == (if offset >= |matching| then 0 else if offset + perPage <= |matching| then perPage else |matching| - offset)
      && forall i :: 0 <= i < |r.value.0| ==> r.value.0[i] == matching[offset + i]
  {
    var matching := Filter(rows, Where(search, searchBy));
    match PageSlice(matching, perPage, Offset(page, perPage))
    case None => Failed(InternalServerError, ListFailed)
    case Some(slice) => Done(Ok, (slice, Meta(page, perPage, |matching|)))
  }

  /** Whether college `a` may be listed before `b` under `o`. */
  predicate Before(o: Order<Column>, a: CollegeView, b: CollegeView) {
    match o
    case Unordered => true
    case OrderBy(col, desc) =>
      if desc then TextLe(ColumnValue(b, col), ColumnValue(a, col)) else TextLe(ColumnValue(a, col), ColumnValue(b, col))
  }

  function BeforeIn(o: Order<Column>): (CollegeView, CollegeView) -> bool {
    (a, b) => Before(o, a, b)
  }

  predicate InOrder(rows: seq<CollegeView>, o: Order<Column>) {
    OrderedBy(rows, BeforeIn(o))
  }

  /** Rows in the order `ORDER BY` gives them are listed in that order: the
      `WHERE` clause and the page window keep it. */
  lemma ListKeepsOrder(rows: seq<CollegeView>, page: int, perPage: int, sortBy: string, order: string,
                       search: string, searchBy: string)
    requires InOrder(rows, ListOrder(sortBy, order))
    ensures var r := ListAll(rows, page, perPage, sortBy, order, search, searchBy);
      r.Done? ==> InOrder(r.value.0, ListOrder(sortBy, order))
  {
    var before := BeforeIn(ListOrder(sortBy, order));
    var matching := Filter(rows, Where(search, searchBy));
    FilterKeepsOrder(rows, Where(search, searchBy), before);
    var r := ListAll(rows, page, perPage, sortBy, order, search, searchBy);
    if r.Done? && r.value.0 != [] {
      var offset := Offset(page, perPage);
      SliceKeepsOrder(matching, offset, offset + |r.value.0|, before);
      assert r.value.0 == matching[offset..offset + |r.value.0|];
    }
  }

  /** Every listed college is a stored row that satisfies the search. */
  lemma ListedRowsMatch(rows: seq<CollegeView>, page: int, perPage: int, sortBy: string, order: string,
                        search: string, searchBy: string)
    ensures var r := ListAll(rows, page, perPage, sortBy, order, search, searchBy);
      r.Done? ==> forall i :: 0 <= i < |r.value.0| ==> r.value.0[i] in rows && Matches(r.value.0[i], search, searchBy)
  {
    var r := ListAll(rows, page, perPage, sortBy, order, search, searchBy);
    var keep := Where(search, searchBy);
    var matching := Filter(rows, keep);
    if r.Done? {
      forall i | 0 <= i < |r.value.0|
        ensures r.value.0[i] in rows && Matches(r.value.0[i], search, searchBy)
      {
        var row := matching[Offset(page, perPage) + i];
        assert keep(row);
        assert row in multiset(matching);
      }
    }
  }

  /** An empty search lists every row, and the page count covers them all. */
  lemma ListWithoutSearch(rows: seq<CollegeView>, page: int, perPage: int, sortBy: string, order: string, searchBy: string)
    requires page >= 1 && perPage >= 1
    ensures var r := ListAll(rows, page, perPage, sortBy, order, "", searchBy);
      r.Done? && r.value.1.total == |rows| && |rows| <= r.value.1.totalPages * perPage
  {
    assert Offset(page, perPage) >= 0 by {
      MulMonotone(0, page - 1, perPage);
    }
    ListSucceeds(rows, page, perPage, sortBy, order, "", searchBy);
    assert |Filter(rows, Where("", searchBy))| == |rows| by {
      FilterAll(rows, Where("", searchBy));
    }
  }

  /** A listing with a page and a size of at least 1 succeeds, echoes both,
      and fills at most one page. */
  lemma ListPage(rows: seq<CollegeView>, page: int, perPage: int, sortBy: string, order: string,
                 search: string, searchBy: string)
    requires page >= 1 && perPage >= 1
    ensures var r := ListAll(rows, page, perPage, sortBy, order, search, searchBy);
      && r.Done? && r.value.1.page == page && r.value.1.perPage == perPage
      && |r.value.0| <= perPage
  {
    assert Offset(page, perPage) >= 0 by {
      MulMonotone(0, page - 1, perPage);
    }
    ListSucceeds(rows, page, perPage, sortBy, order, search, searchBy);
  }

  /** A listing with a usable page window succeeds and reports the number
      of matching rows. */
  lemma ListSucceeds(rows: seq<CollegeView>, page: int, perPage: int, sortBy: string, order: string,
                     search: string, searchBy: string)
    requires perPage >= 0 && Offset(page, perPage) >= 0
    ensures var r := ListAll(rows, page, perPage, sortBy, order, search, searchBy);
      r.Done? && r.value.1 == Meta(page, perPage, |Filter(rows, Where(search, searchBy))|)
  {
  }

  // ---------------------------------------------------------------- writes

  const BothRequired := "Both 'code' and 'name' are required."
  const NotFoundMessage := "College not found."
  const CodeEmpty := "College code cannot be empty."
  const NameEmpty := "College name cannot be empty."

  function View(id: int, c: College): CollegeView {
    CollegeView(id, c.code, c.name)
  }

  /** `create_from_request`; `newId` is the id the table's sequence hands out. */
  function Create(db: Db, body: Body, newId: int): (r: Applied<CollegeView, Db>)
    requires newId !in db.colleges
    ensures r.reply.Done? ==> r.reply.status == Created
    ensures !r.reply.Done? ==> r.after == db
    ensures r.reply.Done? <==> && StripOrEmpty(Get(body, "code")).Some? && StripOrEmpty(Get(body, "name")).Some?
                               && StripOrEmpty(Get(body, "code")).value != [] && StripOrEmpty(Get(body, "name")).value != []
                               && CodeUnique.ValidateCodeUnique(CodeUnique.CollegeEntity, StripOrEmpty(Get(body, "code")).value, CollegeCodes(db), None).ok
    ensures r.reply.Done? ==> var code := StripOrEmpty(Get(body, "code")).value;
      var name := StripOrEmpty(Get(body, "name")).value;
      && r.reply.value == CollegeView(newId, code, name)
      && r.after == db.(colleges := db.colleges[newId := College(code, name)])
    ensures r.reply.Failed? ==> r.reply.status in {BadRequest, Conflict}
  {
    var code := StripOrEmpty(Get(body, "code"));
    var name := StripOrEmpty(Get(body, "name"));
    if code.None? || name.None? then Applied(Crashed, db)
    else if code.value == [] || name.value == [] then Applied(Failed(BadRequest, BothRequired), db)
    else
      var v := CodeUnique.ValidateCodeUnique(CodeUnique.CollegeEntity, code.value, CollegeCodes(db), None);
      if !v.ok then Applied(Failed(UniquenessStatus(v.message), v.message), db)
      else
        var c := College(code.value, name.value);
        Applied(Done(Created, View(newId, c)), db.(colleges := db.colleges[newId := c]))
  }

  /** `update_from_request`: only the fields present in the body change. */
  function Update(db: Db, id: int, body: Body): (r: Applied<CollegeView, Db>)
    ensures id !in db.colleges ==> r == Applied(Failed(NotFound, NotFoundMessage), db)
    ensures !r.reply.Done? ==> r.after == db
    ensures r.reply.Done? ==> (r.reply.status == Ok && id in db.colleges
      && r.after == db.(colleges := db.colleges[id := College(r.reply.value.code, r.reply.value.name)])
      && r.reply.value.id == id)
    ensures r.reply.Done? ==>
      && (IsNone(Get(body, "code")) ==> r.reply.value.code == db.colleges[id].code)
      && (IsNone(Get(body, "name")) ==> r.reply.value.name == db.colleges[id].name)
      && (Get(body, "code").Str? ==> r.reply.value.code == Strip(Get(body, "code").s))
      && (Get(body, "name").Str? ==> r.reply.value.name == Strip(Get(body, "name").s))
    ensures id in db.colleges && Get(body, "code").Str? && IsBlank(Get(body, "code").s)
            ==> r.reply == Failed(BadRequest, CodeEmpty)
    ensures id in db.colleges && Get(body, "code").Str? && !IsBlank(Get(body, "code").s)
            && !CodeUnique.ValidateCodeUnique(CodeUnique.CollegeEntity, Get(body, "code").s, CollegeCodes(db), Some(id)).ok
            ==> r.reply == Failed(Conflict, CodeUnique.ExistsMessage(CodeUnique.CollegeEntity, CodeUnique.Normalise(Get(body, "code").s)))
    ensures id in db.colleges && !IsNone(Get(body, "code")) && !Get(body, "code").Str? ==> r.reply.Crashed?
    ensures id in db.colleges && CodeUnique.UpdateCodePasses(CodeUnique.CollegeEntity, CollegeCodes(db), id, Get(body, "code"))
            && Get(body, "name").Str? && IsBlank(Get(body, "name").s)
            ==> r.reply == Failed(BadRequest, NameEmpty)
    ensures id in db.colleges && CodeUnique.UpdateCodePasses(CodeUnique.CollegeEntity, CollegeCodes(db), id, Get(body, "code"))
            && !IsNone(Get(body, "name")) && !Get(body, "name").Str?
            ==> r.reply.Crashed?
    ensures r.reply.Done? <==>
      && id in db.colleges
      && CodeUnique.UpdateCodePasses(CodeUnique.CollegeEntity, CollegeCodes(db), id, Get(body, "code"))
      && ProvidedNonBlank(Get(body, "name"))
  {
    if id !in db.colleges then Applied(Failed(NotFound, NotFoundMessage), db)
    else
      var existing := db.colleges[id];
      var code := StripIfPresent(Get(body, "code"));
      if code.Raises? then Applied(Crashed, db)
      else
        if code.Given? && code.text == [] then Applied(Failed(BadRequest, CodeEmpty), db)
        else
          var v := if code.Given? then CodeUnique.ValidateCodeUnique(CodeUnique.CollegeEntity, code.text, CollegeCodes(db), Some(id))
                   else CodeUnique.Verdict(true, "");
          if !v.ok then
            StripIdempotent(Get(body, "code").s);
            CodeUnique.ExistsMessageMentionsConflict(CodeUnique.CollegeEntity, CodeUnique.Normalise(code.text));
            Applied(Failed(UniquenessStatus(v.message), v.message), db)
          else
            match StripIfPresent(Get(body, "name"))
            case Raises => Applied(Crashed, db)
            case Given(n) =>
              if n == [] then Applied(Failed(BadRequest, NameEmpty), db)
              else
                var c := College(if code.Given? then code.text else existing.code, n);
                Applied(Done(Ok, View(id, c)), db.(colleges := db.colleges[id := c]))
            case NotGiven =>
              if code.NotGiven? then
                assert db.(colleges := db.colleges[id := existing]) == db;
                Applied(Done(Ok, View(id, existing)), db)
              else
                var c := College(code.text, existing.name);
                Applied(Done(Ok, View(id, c)), db.(colleges := db.colleges[id := c]))
  }

  /** `delete_by_id`. */
  function Delete(db: Db, id: int): (r: Applied<(), Db>)
    ensures id in db.colleges <==> r.reply == Done(NoContent, ())
    ensures id !in db.colleges ==> r == Applied(Failed(NotFound, NotFoundMessage), db)
    ensures r.after.colleges == db.colleges - {id}
    ensures r.after.programs == db.programs && r.after.students == db.students
  {
    if id !in db.colleges then Applied(Failed(NotFound, NotFoundMessage), db)
    else Applied(Done(NoContent, ()), db.(colleges := db.colleges - {id}))
  }

  // ---------------------------------------------------------------- invariants

  /** Every stored code is trimmed and non-empty. */
  predicate CodesTrimmed(db: Db) {
    forall id :: id in db.colleges ==> db.colleges[id].code != [] && Unpadded(db.colleges[id].code)
  }

  /** Creating a college keeps codes unique up to case and trimmed. */
  lemma CreatePreservesCodes(db: Db, body: Body, newId: int)
    requires newId !in db.colleges
    requires CollegeCodesDistinct(db) && CodesTrimmed(db)
    ensures CollegeCodesDistinct(Create(db, body, newId).after) && CodesTrimmed(Create(db, body, newId).after)
  {
    var r := Create(db, body, newId);
    if r.reply.Done? {
      var code := StripOrEmpty(Get(body, "code")).value;
      StripIdempotent(Get(body, "code").s);
      var codes := CollegeCodes(db);
      forall id | id in db.colleges
        ensures Upper(db.colleges[id].code) != Upper(code)
      {
        assert !CodeUnique.Conflicts(codes, id, CodeUnique.Normalise(code), None);
      }
    }
  }

  /** Updating a college keeps codes unique up to case and trimmed. */
  lemma UpdatePreservesCodes(db: Db, id: int, body: Body)
    requires CollegeCodesDistinct(db) && CodesTrimmed(db)
    ensures CollegeCodesDistinct(Update(db, id, body).after) && CodesTrimmed(Update(db, id, body).after)
  {
    UpdateKeepsCodesDistinct(db, id, body);
    UpdateKeepsCodesTrimmed(db, id, body);
  }

  lemma UpdateKeepsCodesDistinct(db: Db, id: int, body: Body)
    requires CollegeCodesDistinct(db)
    ensures CollegeCodesDistinct(Update(db, id, body).after)
  {
    var r := Update(db, id, body);
    if r.reply.Done? && Get(body, "code").Str? {
      var code := Strip(Get(body, "code").s);
      var codes := CollegeCodes(db);
      forall other | other in db.colleges && other != id
        ensures Upper(db.colleges[other].code) != Upper(code)
      {
        assert !CodeUnique.Conflicts(codes, other, CodeUnique.Normalise(code), Some(id));
      }
    }
  }

  lemma UpdateKeepsCodesTrimmed(db: Db, id: int, body: Body)
    requires CodesTrimmed(db)
    ensures CodesTrimmed(Update(db, id, body).after)
  {
    var r := Update(db, id, body);
    if r.reply.Done? && Get(body, "code").Str? {
      StripIdempotent(Get(body, "code").s);
    }
  }

  /** An update with neither field returns the stored record and changes nothing. */
  lemma EmptyUpdateIsIdentity(db: Db, id: int)
    requires id in db.colleges
    ensures Update(db, id, map[]) == Applied(Done(Ok, View(id, db.colleges[id])), db)
  {
    assert db.(colleges := db.colleges[id := db.colleges[id]]) == db;
  }

  /** Re-sending the stored code of a college with a non-zero id is not a
      conflict; with id 0 the falsy `exclude_id` makes it collide with itself. */
  lemma ResendingOwnCode(db: Db, id: int)
    requires CollegeCodesDistinct(db) && CodesTrimmed(db) && id in db.colleges
    ensures id != 0 ==> Update(db, id, map["code" := Str(db.colleges[id].code)]).reply.Done?
    ensures id == 0 ==> Update(db, id, map["code" := Str(db.colleges[id].code)]).reply.Failed?
  {
    var code := db.colleges[id].code;
    StripUnpadded(code);
    CodeUnique.SelfExclusion(CodeUnique.CollegeEntity, CollegeCodes(db), id);
  }

  /** A code that clashes with a stored one (up to case and padding) is
      refused with 409 and the upper-cased code in the message. */
  lemma CreateDuplicateConflicts(db: Db, body: Body, newId: int, other: int)
    requires newId !in db.colleges
    requires Get(body, "code").Str? && Get(body, "name").Str? && !IsBlank(Get(body, "name").s)
    requires other in db.colleges && Upper(db.colleges[other].code) == CodeUnique.Normalise(Get(body, "code").s)
    requires !IsBlank(Get(body, "code").s)
    ensures Create(db, body, newId)
         == Applied(Failed(Conflict, CodeUnique.ExistsMessage(CodeUnique.CollegeEntity, CodeUnique.Normalise(Get(body, "code").s))), db)
  {
    var code := Strip(Get(body, "code").s);
    StripIdempotent(Get(body, "code").s);
    assert CodeUnique.Conflicts(CollegeCodes(db), other, CodeUnique.Normalise(code), None);
    CodeUnique.ExistsMessageMentionsConflict(CodeUnique.CollegeEntity, CodeUnique.Normalise(code));
  }
}
