/** The JSON values a Flask request body can hold, as the Python services see
    them after `request.get_json()`, and the handful of Python idioms the
    services apply to them: truthiness, `dict.get`, `int(...)` and `.strip()`. */
module Values {
  import opened Common
  import Text

  /** One entry of the request dictionary. `Absent` is a missing key;
      `Container` is a JSON list or object with `size` members. JSON numbers
      with a fractional part are not modelled. */
  datatype Value =
    | Absent
    | Null
    | Str(s: string)
    | Int(i: int)
    | Bool(b: bool)
    | Container(size: nat)

  /** A decoded JSON object body (`request.get_json() or {}`). */
  type Body = map<string, Value>

  /** `data.get(key)`: a missing key reads as `Absent`. */
  function Get(body: Body, key: string): Value {
    if key in body then body[key] else Absent
  }

  /** Python truthiness (`if value:`); a missing key reads as `None`. */
  predicate Truthy(v: Value) {
    match v
    case Absent => false
    case Null => false
    case Str(s) => s != []
    case Int(i) => i != 0
    case Bool(b) => b
    case Container(n) => n > 0
  }

  /** `x is None` for `x = data.get(key)`. */
  predicate IsNone(v: Value) {
    v.Absent? || v.Null?
  }

  /** Python's `int(value)`; `None` stands for the `ValueError`/`TypeError`
      the services catch. `bool` is a subclass of `int` in Python. */
  function PyInt(v: Value): (r: Option<int>)
    ensures v.Int? ==> r == Some(v.i)
    ensures IsNone(v) || v.Container? ==> r.None?
  {
    match v
    case Int(i) => Some(i)
    case Bool(b) => Some(if b then 1 else 0)
    case Str(s) => Text.PyParseInt(s)
    case _ => None
  }

  /** `(data.get(key) or "").strip()`: falsy values read as the empty string;
      a truthy value that is not a string has no `strip` and raises (`None`). */
  function StripOrEmpty(v: Value): (r: Option<string>)
    ensures !Truthy(v) ==> r == Some("")
    ensures v.Str? ==> r == Some(Text.Strip(v.s))
    ensures r.None? <==> Truthy(v) && !v.Str?
  {
    if !Truthy(v) then Some("")
    else if v.Str? then Some(Text.Strip(v.s))
    else None
  }

  /** `data.get(key, "").strip()`: only a missing key defaults to `""`; a
      present `null` or any other non-string raises (`None`). */
  function StripDefaultEmpty(v: Value): (r: Option<string>)
    ensures r.Some? <==> v.Absent? || v.Str?
    ensures v.Str? ==> r == Some(Text.Strip(v.s))
  {
    match v
    case Absent => Some("")
    case Str(s) => Some(Text.Strip(s))
    case _ => None
  }

  /** A field of a partial update after the service has normalised it. */
  datatype Given = NotGiven | Given(text: string) | Raises

  /** `x = data.get(key, None)` followed by `if x is not None: x = x.strip()`. */
  function StripIfPresent(v: Value): (r: Given)
    ensures r.NotGiven? <==> IsNone(v)
    ensures v.Str? ==> r == Given(Text.Strip(v.s))
    ensures r.Raises? <==> !IsNone(v) && !v.Str?
  {
    if IsNone(v) then NotGiven
    else if v.Str? then Given(Text.Strip(v.s))
    else Raises
  }

  /** A field a partial update accepts: not provided (missing or `None`), or
      a string that is not blank once stripped. */
  predicate ProvidedNonBlank(v: Value) {
    IsNone(v) || (v.Str? && !Text.IsBlank(v.s))
  }

  /** `data.get(key, "").strip() if data.get(key) else None`: a falsy value
      (including `""`) counts as not provided. */
  function StripIfTruthy(v: Value): (r: Given)
    ensures r.NotGiven? <==> !Truthy(v)
    ensures Truthy(v) && v.Str? ==> r == Given(Text.Strip(v.s))
    ensures r.Raises? <==> Truthy(v) && !v.Str?
  {
    if !Truthy(v) then NotGiven
    else if v.Str? then Given(Text.Strip(v.s))
    else Raises
  }

  /** A decimal string goes through Python's `int()` unchanged. */
  lemma PyIntOfRendered(i: int)
    ensures PyInt(Str(Text.IntToString(i))) == Some(i)
  {
    Text.PyParseIntRoundTrip(i);
  }
}
