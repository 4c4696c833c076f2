/** What the three Flask blueprints share: reading the query string and the
    JSON body, normalising the listing parameters, and turning a service
    outcome into an HTTP response. */
module Routes {
  import opened Common
  import opened Text
  import opened Values

  /** A query string as its decoded `key=value` pairs, in order. */
  type Args = seq<(string, string)>

  /** `request.args.get(key)`: the first value given for `key`. */
  function Arg(args: Args, key: string): (r: Option<string>)
    ensures r.None? <==> forall i :: 0 <= i < |args| ==> args[i].0 != key
    ensures r.Some? ==> exists i :: 0 <= i < |args| && args[i] == (key, r.value)
                          && forall j :: 0 <= j < i ==> args[j].0 != key
  {
    if args == [] then None
    else if args[0].0 == key then Some(args[0].1)
    else
      var r := Arg(args[1..], key);
      assert r.Some? ==> exists i :: 0 <= i < |args| && args[i] == (key, r.value)
                          && forall j :: 0 <= j < i ==> args[j].0 != key by {
        if r.Some? {
          var k :| 0 <= k < |args[1..]| && args[1..][k] == (key, r.value)
                    && forall j :: 0 <= j < k ==> args[1..][j].0 != key;
          assert args[k + 1] == args[1..][k];
          forall j | 0 <= j < k + 1 ensures args[j].0 != key {
            if j > 0 { assert args[j] == args[1..][j - 1]; }
          }
        }
      }
      assert r.None? ==> forall i :: 0 <= i < |args| ==> args[i].0 != key by {
        if r.None? {
          forall i | 0 <= i < |args| ensures args[i].0 != key {
            if i > 0 { assert args[i] == args[1..][i - 1]; }
          }
        }
      }
      r
  }

  /** The first `key` of a joined query is the first one of its front part,
      or else the first one of its back part. */
  lemma {:induction false} ArgConcat(front: Args, back: Args, key: string)
    ensures Arg(front + back, key) == if Arg(front, key).Some? then Arg(front, key) else Arg(back, key)
  {
    if front != [] {
      assert (front + back)[1..] == front[1..] + back;
      ArgConcat(front[1..], back, key);
    } else {
      assert front + back == back;
    }
  }

  /** `request.args.get(key, default)`. */
  function ArgOr(args: Args, key: string, default: string): string {
    Arg(args, key).GetOr(default)
  }

  /** `int(request.args.get(key, default))`: the integer default is used as
      is, a given value goes through `int()`; `None` is the `ValueError`. */
  function IntArg(args: Args, key: string, default: int): (r: Option<int>)
    ensures Arg(args, key).None? ==> r == Some(default)
    ensures Arg(args, key).Some? ==> r == PyParseInt(Arg(args, key).value)
  {
    match Arg(args, key)
    case None => Some(default)
    case Some(text) => PyParseInt(text)
  }

  /** `order.strip().lower()`, then anything but `asc`/`desc` becomes `asc`. */
  function NormaliseOrder(raw: string): (r: string)
    ensures r == "asc" || r == "desc"
    ensures r == "desc" <==> Lower(Strip(raw)) == "desc"
  {
    var o := Lower(Strip(raw));
    if o == "asc" || o == "desc" then o else "asc"
  }

  /** `value.strip().lower()`, then anything outside `allowed` becomes `all`. */
  function NormaliseSearchBy(raw: string, allowed: set<string>): (r: string)
    requires "all" in allowed
    ensures r in allowed
    ensures Lower(Strip(raw)) in allowed ==> r == Lower(Strip(raw))
    ensures Lower(Strip(raw)) !in allowed ==> r == "all"
  {
    var s := Lower(Strip(raw));
    if s in allowed then s else "all"
  }

  /** The sorting and search parameters all three listings read. */
  datatype ListQuery = ListQuery(sortBy: string, order: string, search: string, searchBy: string)

  function ReadListQuery(args: Args, allowed: set<string>): (q: ListQuery)
    requires "all" in allowed
    ensures q.sortBy == Strip(ArgOr(args, "sort_by", ""))
    ensures q.order in {"asc", "desc"} && (q.order == "desc" <==> Lower(Strip(ArgOr(args, "order", "asc"))) == "desc")
    ensures q.search == Strip(ArgOr(args, "search", "")) && Unpadded(q.search)
    ensures q.searchBy in allowed
  {
    ListQuery(Strip(ArgOr(args, "sort_by", "")), NormaliseOrder(ArgOr(args, "order", "asc")),
              Strip(ArgOr(args, "search", "")), NormaliseSearchBy(ArgOr(args, "search_by", "all"), allowed))
  }

  /** A bare request URL sorts by nothing, ascending, with no search. */
  lemma NoArgsQuery(allowed: set<string>)
    requires "all" in allowed
    ensures ReadListQuery([], allowed) == ListQuery("", "asc", "", "all")
  {
    StripUnpadded("asc");
    StripUnpadded("all");
    assert NoCapitals("asc") && NoCapitals("all");
    LowerNoCapitals("asc");
    LowerNoCapitals("all");
  }

  /** Parameters sent already trimmed and lower-cased arrive unchanged. */
  lemma ReadBackQuery(args: Args, allowed: set<string>)
    requires "all" in allowed
    requires Unpadded(ArgOr(args, "sort_by", "")) && Unpadded(ArgOr(args, "search", ""))
    requires ArgOr(args, "order", "asc") in {"asc", "desc"}
    requires Unpadded(ArgOr(args, "search_by", "all")) && NoCapitals(ArgOr(args, "search_by", "all"))
    ensures var sb := ArgOr(args, "search_by", "all");
      ReadListQuery(args, allowed) == ListQuery(ArgOr(args, "sort_by", ""), ArgOr(args, "order", "asc"),
                                                ArgOr(args, "search", ""), if sb in allowed then sb else "all")
  {
    var o := ArgOr(args, "order", "asc");
    var sb := ArgOr(args, "search_by", "all");
    StripUnpadded(ArgOr(args, "sort_by", ""));
    StripUnpadded(ArgOr(args, "search", ""));
    StripUnpadded(o);
    assert NoCapitals(o);
    LowerNoCapitals(o);
    StripUnpadded(sb);
    LowerNoCapitals(sb);
  }

  /** `request.get_json() or {}`: a JSON object, some other JSON value, or no body. */
  datatype Json = ObjectJson(fields: Body) | OtherJson(truthy: bool) | NoJson

  /** The dictionary the service receives; `None` when a truthy non-object
      reaches `data.get` and raises. */
  function ReadBody(j: Json): (r: Option<Body>)
    ensures j.ObjectJson? ==> r == Some(j.fields)
    ensures r.None? <==> j.OtherJson? && j.truthy
    ensures j.NoJson? || (j.OtherJson? && !j.truthy) ==> r == Some(map[])
  {
    match j
    case ObjectJson(fields) => Some(fields)
    case OtherJson(truthy) => if truthy then None else Some(map[])
    case NoJson => Some(map[])
  }

  /** The body of an HTTP response. */
  datatype Payload<+T> = Json(value: T) | Message(text: string) | EmptyBody | ErrorPage

  datatype Response<+T> = Response(status: int, payload: Payload<T>)

  /** `if result["error"]: return {"message": error}, status`, else the data
      with the route's success status; an uncaught exception is Flask's 500. */
  function Envelope<T>(o: Outcome<T>, success: int): (r: Response<T>)
    ensures o.Failed? ==> r == Response(o.status, Message(o.message))
    ensures o.Done? ==> r == Response(success, Json(o.value))
    ensures o.Crashed? ==> r == Response(InternalServerError, ErrorPage)
  {
    match o
    case Done(_, v) => Response(success, Json(v))
    case Failed(status, message) => Response(status, Message(message))
    case Crashed => Response(InternalServerError, ErrorPage)
  }

  /** The status a client sees is the success status exactly when the
      service succeeded, provided the refusals use other codes. */
  lemma EnvelopeSeparatesOutcomes<T>(o: Outcome<T>, success: int)
    requires o.Failed? ==> o.status != success
    requires success != InternalServerError
    ensures Envelope(o, success).status == success <==> o.Done?
    ensures Envelope(o, success).payload.Message? <==> o.Failed?
  {
  }
}
