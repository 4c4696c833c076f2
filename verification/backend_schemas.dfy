/** The backend's request-body validators (`CollegeSchema`, `ProgramSchema`,
    `StudentSchema`): the checks run in a fixed order and only the first
    failing one is reported. */
module BackendSchemas {
  import opened Common
  import opened Text
  import opened Values

  /** `(True, None)`, `(False, message)`, or an exception raised while the
      body is read (`.strip()` on a value that is not a string). */
  datatype Check = Pass | Fail(message: string) | Raised

  /** One check of an ordered validator: whether it holds, and what is
      reported when it is the first that does not. */
  datatype Rule = Rule(holds: bool, message: string)

  /** The message of the first rule that does not hold. */
  function FirstFailure(rules: seq<Rule>): (r: Option<string>)
    ensures r.None? <==> forall i :: 0 <= i < |rules| ==> rules[i].holds
    ensures r.Some? ==> exists i :: 0 <= i < |rules| && !rules[i].holds && rules[i].message == r.value
                          && forall j :: 0 <= j < i ==> rules[j].holds
  {
    if rules == [] then None
    else if !rules[0].holds then Some(rules[0].message)
    else
      var r := FirstFailure(rules[1..]);
      assert r.Some? ==> exists i :: 0 <= i < |rules| && !rules[i].holds && rules[i].message == r.value
                          && forall j :: 0 <= j < i ==> rules[j].holds by {
        if r.Some? {
          var k :| 0 <= k < |rules[1..]| && !rules[1..][k].holds && rules[1..][k].message == r.value
                    && forall j :: 0 <= j < k ==> rules[1..][j].holds;
          assert rules[k + 1] == rules[1..][k];
          forall j | 0 <= j < k + 1 ensures rules[j].holds {
            if j > 0 { assert rules[j] == rules[1..][j - 1]; }
          }
        }
      }
      assert r.None? ==> forall i :: 0 <= i < |rules| ==> rules[i].holds by {
        if r.None? {
          forall i | 0 <= i < |rules| ensures rules[i].holds {
            if i > 0 { assert rules[i] == rules[1..][i - 1]; }
          }
        }
      }
      r
  }

  /** Checking two rule lists one after the other reports the first list's
      failure if it has one, else the second's. */
  lemma {:induction false} FirstFailureAppend(a: seq<Rule>, b: seq<Rule>)
    ensures FirstFailure(a + b) == (if FirstFailure(a).Some? then FirstFailure(a) else FirstFailure(b))
  {
    if a != [] {
      assert (a + b)[0] == a[0];
      assert (a + b)[1..] == a[1..] + b;
      FirstFailureAppend(a[1..], b);
    } else {
      assert a + b == b;
    }
  }

  function AsCheck(first: Option<string>): Check {
    match first
    case None => Pass
    case Some(m) => Fail(m)
  }

  // ---------------------------------------------------------------- colleges

  /** `CollegeSchema.validate_create`. */
  function ValidateCollege(body: Body): (r: Check)
    ensures r.Raised? <==> StripDefaultEmpty(Get(body, "code")).None? || StripDefaultEmpty(Get(body, "name")).None?
    ensures r.Pass? <==> !r.Raised? && StripDefaultEmpty(Get(body, "code")).value != [] && StripDefaultEmpty(Get(body, "name")).value != []
    ensures r.Fail? ==> r.message in {"College code is required.", "College name is required."}
    ensures r == Fail("College name is required.") ==> StripDefaultEmpty(Get(body, "code")).value != []
  {
    var code := StripDefaultEmpty(Get(body, "code"));
    var name := StripDefaultEmpty(Get(body, "name"));
    if code.None? || name.None? then Raised
    else if code.value == [] then Fail("College code is required.")
    else if name.value == [] then Fail("College name is required.")
    else Pass
  }

  function CollegeRules(code: string, name: string): seq<Rule> {
    [Rule(code != [], "College code is required."),
     Rule(name != [], "College name is required.")]
  }

  /** The college validator reports the first failing rule, code before name. */
  lemma CollegeFirstErrorWins(body: Body)
    requires StripDefaultEmpty(Get(body, "code")).Some? && StripDefaultEmpty(Get(body, "name")).Some?
    ensures ValidateCollege(body)
         == AsCheck(FirstFailure(CollegeRules(StripDefaultEmpty(Get(body, "code")).value, StripDefaultEmpty(Get(body, "name")).value)))
  {
  }

  // ---------------------------------------------------------------- programs

  /** `ProgramSchema.validate_create`; a falsy `college_id` (missing, null, 0,
      "", false) is reported before the code and the name. */
  function ValidateProgram(body: Body): (r: Check)
    ensures r.Raised? <==> StripDefaultEmpty(Get(body, "code")).None? || StripDefaultEmpty(Get(body, "name")).None?
    ensures r.Pass? <==> && !r.Raised? && Truthy(Get(body, "college_id"))
                         && StripDefaultEmpty(Get(body, "code")).value != [] && StripDefaultEmpty(Get(body, "name")).value != []
    ensures !r.Raised? && !Truthy(Get(body, "college_id")) ==> r == Fail("College ID is required.")
  {
    var collegeId := Get(body, "college_id");
    var code := StripDefaultEmpty(Get(body, "code"));
    var name := StripDefaultEmpty(Get(body, "name"));
    if code.None? || name.None? then Raised
    else if !Truthy(collegeId) then Fail("College ID is required.")
    else if code.value == [] then Fail("Program code is required.")
    else if name.value == [] then Fail("Program name is required.")
    else Pass
  }

  function ProgramRules(collegeId: Value, code: string, name: string): seq<Rule> {
    [Rule(Truthy(collegeId), "College ID is required.")]
    + [Rule(code != [], "Program code is required."),
       Rule(name != [], "Program name is required.")]
  }

  /** The program validator reports the first failing rule: college, code, name. */
  lemma ProgramFirstErrorWins(body: Body)
    requires StripDefaultEmpty(Get(body, "code")).Some? && StripDefaultEmpty(Get(body, "name")).Some?
    ensures ValidateProgram(body)
         == AsCheck(FirstFailure(ProgramRules(Get(body, "college_id"), StripDefaultEmpty(Get(body, "code")).value,
                                              StripDefaultEmpty(Get(body, "name")).value)))
  {
    FirstFailureAppend([Rule(Truthy(Get(body, "college_id")), "College ID is required.")],
                       [Rule(StripDefaultEmpty(Get(body, "code")).value != [], "Program code is required."),
                        Rule(StripDefaultEmpty(Get(body, "name")).value != [], "Program name is required.")]);
  }

  // ---------------------------------------------------------------- students

  const IdRequired := "Student ID is required."
  const IdFormat := "Student ID must be in format NNNN-NNNN."
  const FirstRequired := "First name is required."
  const LastRequired := "Last name is required."
  const ProgramNotSelected := "Program must be selected."
  const ProgramNotInteger := "Program ID must be a valid integer."
  const YearRequired := "Year level is required."
  const YearNotInteger := "Year level must be a valid integer."
  const YearOutOfRange := "Year level must be between 1 and 5."
  const GenderRequired := "Gender is required."
  const GenderNotAllowed := "Gender must be Male, Female, or Other."

  /** `program_id is None or program_id == ""`. */
  predicate NoneOrEmpty(v: Value) {
    IsNone(v) || v == Str("")
  }

  /** The four string fields, stripped; `None` when any of them raises. */
  function StudentStrings(body: Body): Option<(string, string, string, string)> {
    var id := StripDefaultEmpty(Get(body, "id"));
    var first := StripDefaultEmpty(Get(body, "first_name"));
    var last := StripDefaultEmpty(Get(body, "last_name"));
    var gender := StripDefaultEmpty(Get(body, "gender"));
    if id.None? || first.None? || last.None? || gender.None? then None
    else Some((id.value, first.value, last.value, gender.value))
  }

  /** `StudentSchema.validate_create`, check by check. */
  function ValidateStudent(body: Body): (r: Check)
    ensures r.Raised? <==> StudentStrings(body).None?
    ensures r.Pass? ==> var (id, first, last, gender) := StudentStrings(body).value;
      && IsStudentIdFormat(id) && first != [] && last != [] && IsGender(gender)
      && PyInt(Get(body, "program_id")).Some?
      && PyInt(Get(body, "year_level")).Some? && 1 <= PyInt(Get(body, "year_level")).value <= 5
  {
    match StudentStrings(body)
    case None => Raised
    case Some((id, first, last, gender)) =>
      var program := Get(body, "program_id");
      var year := Get(body, "year_level");
      if id == [] then Fail(IdRequired)
      else if !PyMatchesStudentId(id) then Fail(IdFormat)
      else if first == [] then Fail(FirstRequired)
      else if last == [] then Fail(LastRequired)
      else if NoneOrEmpty(program) then Fail(ProgramNotSelected)
      else if PyInt(program).None? then Fail(ProgramNotInteger)
      else if IsNone(year) then Fail(YearRequired)
      else if PyInt(year).None? then Fail(YearNotInteger)
      else if !(1 <= PyInt(year).value <= 5) then Fail(YearOutOfRange)
      else if gender == [] then Fail(GenderRequired)
      else if !IsGender(gender) then Fail(GenderNotAllowed)
      else Pass
  }

  function IdRules(id: string): seq<Rule> {
    [Rule(id != [], IdRequired), Rule(PyMatchesStudentId(id), IdFormat)]
  }

  function NameRules(first: string, last: string): seq<Rule> {
    [Rule(first != [], FirstRequired), Rule(last != [], LastRequired)]
  }

  function ProgramIdRules(program: Value): seq<Rule> {
    [Rule(!NoneOrEmpty(program), ProgramNotSelected), Rule(PyInt(program).Some?, ProgramNotInteger)]
  }

  function YearRules(year: Value): seq<Rule> {
    [Rule(!IsNone(year), YearRequired), Rule(PyInt(year).Some?, YearNotInteger)]
  }

  function YearRangeRules(year: Value): seq<Rule> {
    [Rule(PyInt(year).Some? && 1 <= PyInt(year).value <= 5, YearOutOfRange)]
  }

  function GenderRules(gender: string): seq<Rule> {
    [Rule(gender != [], GenderRequired), Rule(IsGender(gender), GenderNotAllowed)]
  }

  /** The student rules in the order the validator applies them. */
  function StudentRules(id: string, first: string, last: string, program: Value, year: Value, gender: string): seq<Rule> {
    IdRules(id) + NameRules(first, last) + ProgramIdRules(program) + YearRules(year) + YearRangeRules(year) + GenderRules(gender)
  }

  /** Exactly one message comes back, the first failing rule's: id, first
      name, last name, program, year, gender. */
  lemma StudentFirstErrorWins(body: Body)
    requires StudentStrings(body).Some?
    ensures var (id, first, last, gender) := StudentStrings(body).value;
      ValidateStudent(body) == AsCheck(FirstFailure(StudentRules(id, first, last, Get(body, "program_id"), Get(body, "year_level"), gender)))
  {
    var (id, first, last, gender) := StudentStrings(body).value;
    var program, year := Get(body, "program_id"), Get(body, "year_level");
    var a, b, c := IdRules(id), NameRules(first, last), ProgramIdRules(program);
    var d, e, f := YearRules(year), YearRangeRules(year), GenderRules(gender);
    FirstFailureAppend(a + b + c + d + e, f);
    FirstFailureAppend(a + b + c + d, e);
    FirstFailureAppend(a + b + c, d);
    FirstFailureAppend(a + b, c);
    FirstFailureAppend(a, b);
  }

  /** An independent statement of an acceptable student body. */
  predicate StudentBodyValid(body: Body) {
    && StudentStrings(body).Some?
    && IsStudentIdFormat(StudentStrings(body).value.0)
    && StudentStrings(body).value.1 != []
    && StudentStrings(body).value.2 != []
    && IsGender(StudentStrings(body).value.3)
    && !NoneOrEmpty(Get(body, "program_id")) && PyInt(Get(body, "program_id")).Some?
    && PyInt(Get(body, "year_level")).Some? && 1 <= PyInt(Get(body, "year_level")).value <= 5
  }

  /** `(True, None)` comes back exactly for acceptable bodies. */
  lemma StudentPassIffValid(body: Body)
    ensures ValidateStudent(body).Pass? <==> StudentBodyValid(body)
  {
    if Get(body, "id").Str? {
      PyMatchOnStripped(Get(body, "id").s);
    }
  }

  /** The id examples: "2024-0001" gets past the id checks, "2024-1" and a
      missing id do not. */
  lemma StudentIdMessages()
    ensures ValidateStudent(map["id" := Str("2024-1")]) == Fail(IdFormat)
    ensures ValidateStudent(map[]) == Fail(IdRequired)
    ensures ValidateStudent(map["id" := Str("2024-0001")]) == Fail(FirstRequired)
    ensures ValidateStudent(map["id" := Null]) == Raised
  {
    StripUnpadded("2024-1");
    StripUnpadded("2024-0001");
  }
}
