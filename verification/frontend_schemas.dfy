/** The frontend's collecting validators (every failing field gets its own
    message) and its client-side duplicate guards. */
module FrontendSchemas {
  import opened Common
  import opened Text
  import opened Views

  // ---------------------------------------------------------------- colleges

  const CollegeCodeRequired := "College code is required."
  const CollegeNameRequired := "College name is required."

  /** `validateCollegeCreate`: a blank code and a blank name are reported independently. */
  function ValidateCollegeCreate(code: string, name: string): (r: Errors)
    ensures r.Keys <= {CodeField, NameField}
    ensures CodeField in r <==> IsBlank(code)
    ensures NameField in r <==> IsBlank(name)
    ensures CodeField in r ==> r[CodeField] == CollegeCodeRequired
    ensures NameField in r ==> r[NameField] == CollegeNameRequired
    ensures r == map[] <==> !IsBlank(code) && !IsBlank(name)
  {
    var withCode := if IsBlank(code) then map[CodeField := CollegeCodeRequired] else map[];
    if IsBlank(name) then withCode[NameField := CollegeNameRequired] else withCode
  }

  /** `isCollegeCodeDuplicate`, written as the `Array.prototype.some` scan it is. */
  function IsCollegeCodeDuplicate(code: string, colleges: seq<CollegeView>, excludeId: Option<int>): (r: bool)
    ensures r <==> exists i :: 0 <= i < |colleges| && CollegeClashes(code, colleges[i], excludeId)
  {
    if colleges == [] then false
    else
      var rest := IsCollegeCodeDuplicate(code, colleges[1..], excludeId);
      assert rest <==> exists i :: 1 <= i < |colleges| && CollegeClashes(code, colleges[i], excludeId) by {
        if rest {
          var k :| 0 <= k < |colleges[1..]| && CollegeClashes(code, colleges[1..][k], excludeId);
          assert colleges[k + 1] == colleges[1..][k];
        }
        if exists i :: 1 <= i < |colleges| && CollegeClashes(code, colleges[i], excludeId) {
          var k :| 1 <= k < |colleges| && CollegeClashes(code, colleges[k], excludeId);
          assert colleges[1..][k - 1] == colleges[k];
        }
      }
      CollegeClashes(code, colleges[0], excludeId) || rest
  }

  /** One stored college blocks `code`: the stored code upper-cased (not
      trimmed) equals the trimmed, upper-cased candidate, and it is not the
      record being edited. */
  predicate CollegeClashes(code: string, c: CollegeView, excludeId: Option<int>) {
    Upper(c.code) == Upper(Strip(code)) && Some(c.id) != excludeId
  }

  // ---------------------------------------------------------------- programs

  const ProgramCollegeRequired := "College selection is required."
  const ProgramCodeRequired := "Program code is required."
  const ProgramNameRequired := "Program name is required."

  /** `!value` on a `number | null`: null and 0 are falsy. */
  predicate IdMissing(id: Option<int>) {
    id.None? || id == Some(0)
  }

  /** `validateProgramCreate`: college, code and name are checked independently. */
  function ValidateProgramCreate(collegeId: Option<int>, code: string, name: string): (r: Errors)
    ensures r.Keys <= {CollegeField, CodeField, NameField}
    ensures CollegeField in r <==> IdMissing(collegeId)
    ensures CodeField in r <==> IsBlank(code)
    ensures NameField in r <==> IsBlank(name)
    ensures CollegeField in r ==> r[CollegeField] == ProgramCollegeRequired
    ensures CodeField in r ==> r[CodeField] == ProgramCodeRequired
    ensures NameField in r ==> r[NameField] == ProgramNameRequired
  {
    var e1 := if IdMissing(collegeId) then map[CollegeField := ProgramCollegeRequired] else map[];
    var e2 := if IsBlank(code) then e1[CodeField := ProgramCodeRequired] else e1;
    if IsBlank(name) then e2[NameField := ProgramNameRequired] else e2
  }

  predicate ProgramClashes(code: string, p: ProgramView, excludeId: Option<int>) {
    Upper(p.code) == Upper(Strip(code)) && Some(p.id) != excludeId
  }

  /** `isProgramCodeDuplicate`. */
  function IsProgramCodeDuplicate(code: string, programs: seq<ProgramView>, excludeId: Option<int>): (r: bool)
    ensures r <==> exists i :: 0 <= i < |programs| && ProgramClashes(code, programs[i], excludeId)
  {
    if programs == [] then false
    else
      var rest := IsProgramCodeDuplicate(code, programs[1..], excludeId);
      assert rest <==> exists i :: 1 <= i < |programs| && ProgramClashes(code, programs[i], excludeId) by {
        if rest {
          var k :| 0 <= k < |programs[1..]| && ProgramClashes(code, programs[1..][k], excludeId);
          assert programs[k + 1] == programs[1..][k];
        }
        if exists i :: 1 <= i < |programs| && ProgramClashes(code, programs[i], excludeId) {
          var k :| 1 <= k < |programs| && ProgramClashes(code, programs[k], excludeId);
          assert programs[1..][k - 1] == programs[k];
        }
      }
      ProgramClashes(code, programs[0], excludeId) || rest
  }

  /** The program guard depends only on which records are loaded, not on their order
      or repetition; an empty list never holds a duplicate. */
  lemma ProgramDuplicateOrderFree(code: string, a: seq<ProgramView>, b: seq<ProgramView>, excludeId: Option<int>)
    requires forall p :: p in a <==> p in b
    ensures IsProgramCodeDuplicate(code, a, excludeId) == IsProgramCodeDuplicate(code, b, excludeId)
    ensures !IsProgramCodeDuplicate(code, [], excludeId)
  {
    if IsProgramCodeDuplicate(code, a, excludeId) {
      var i :| 0 <= i < |a| && ProgramClashes(code, a[i], excludeId);
      assert a[i] in b;
    }
    if IsProgramCodeDuplicate(code, b, excludeId) {
      var i :| 0 <= i < |b| && ProgramClashes(code, b[i], excludeId);
      assert b[i] in a;
    }
  }

  /** Two candidate codes that differ only in letter case get the same
      answer, against any loaded programs. */
  lemma DuplicateIgnoresCase(code: string, code': string, programs: seq<ProgramView>, excludeId: Option<int>)
    requires Upper(code) == Upper(code')
    ensures IsProgramCodeDuplicate(code, programs, excludeId) == IsProgramCodeDuplicate(code', programs, excludeId)
  {
    StripUpper(code);
    StripUpper(code');
    assert forall p :: ProgramClashes(code, p, excludeId) == ProgramClashes(code', p, excludeId);
  }

  /** The record being edited never collides with itself: re-saving a
      program clashes exactly when another program holds its code. */
  lemma EditedRecordNoSelfClash(code: string, p: ProgramView, programs: seq<ProgramView>)
    ensures !IsProgramCodeDuplicate(code, [p], Some(p.id))
    ensures IsProgramCodeDuplicate(code, programs, Some(p.id))
        <==> exists i :: 0 <= i < |programs| && programs[i].id != p.id && Upper(programs[i].code) == Upper(Strip(code))
  {
  }

  /** Whitespace around a candidate code does not change the answer. */
  lemma DuplicateIgnoresPadding(pre: string, code: string, post: string, programs: seq<ProgramView>,
                                excludeId: Option<int>)
    requires AllSpace(pre) && AllSpace(post)
    ensures IsProgramCodeDuplicate(pre + code + post, programs, excludeId) == IsProgramCodeDuplicate(code, programs, excludeId)
  {
    StripIgnoresPadding(pre, code, post);
    assert forall p :: ProgramClashes(pre + code + post, p, excludeId) == ProgramClashes(code, p, excludeId);
  }

  // ---------------------------------------------------------------- students

  /** A JavaScript number held in the form: an integer, or a value
      `Number.isInteger` rejects (`NaN` from `parseInt`, a fraction). */
  datatype Num = Integer(n: int) | NotInteger

  /** The argument of `validateStudentCreate`; every field is optional. */
  datatype StudentForm = StudentForm(
    id: Option<string>,
    firstName: Option<string>,
    lastName: Option<string>,
    programId: Option<int>,
    yearLevel: Option<Num>,
    gender: Option<string>)

  const StudentIdRequired := "Student ID is required."
  const StudentIdFormat := "Student ID must be in format NNNN-NNNN."
  const FirstNameRequired := "First name is required."
  const LastNameRequired := "Last name is required."
  const ProgramRequired := "Program is required."
  const YearRequired := "Year level is required."
  const YearRange := "Year level must be between 1 and 5."
  const GenderRequired := "Gender is required."
  const GenderChoice := "Gender must be Male, Female, or Other."

  /** `value?.trim() || ""`. */
  function Trimmed(s: Option<string>): string {
    match s
    case Some(t) => Strip(t)
    case None => ""
  }

  function StudentIdError(id: Option<string>): Option<string> {
    var t := Trimmed(id);
    if t == [] then Some(StudentIdRequired)
    else if !IsStudentIdFormat(t) then Some(StudentIdFormat)
    else None
  }

  function YearError(y: Option<Num>): Option<string> {
    match y
    case None => Some(YearRequired)
    case Some(NotInteger) => Some(YearRange)
    case Some(Integer(n)) => if n < 1 || n > 5 then Some(YearRange) else None
  }

  function GenderError(g: Option<string>): Option<string> {
    var t := Trimmed(g);
    if t == [] then Some(GenderRequired)
    else if !IsGender(t) then Some(GenderChoice)
    else None
  }

  const StudentFields: set<Field> := {IdField, FirstName, LastName, ProgramField, YearLevel, GenderField}

  /** `validateStudentCreate`: six independent checks, one key per failing field. */
  function ValidateStudentCreate(d: StudentForm): (r: Errors)
    ensures r.Keys <= StudentFields
    ensures IdField in r <==> !IsStudentIdFormat(Trimmed(d.id))
    ensures IdField in r ==> r[IdField] == (if Trimmed(d.id) == [] then StudentIdRequired else StudentIdFormat)
    ensures FirstName in r <==> Trimmed(d.firstName) == []
    ensures FirstName in r ==> r[FirstName] == FirstNameRequired
    ensures LastName in r <==> Trimmed(d.lastName) == []
    ensures LastName in r ==> r[LastName] == LastNameRequired
    ensures ProgramField in r <==> IdMissing(d.programId)
    ensures ProgramField in r ==> r[ProgramField] == ProgramRequired
    ensures YearLevel in r <==> !(d.yearLevel.Some? && d.yearLevel.value.Integer? && 1 <= d.yearLevel.value.n <= 5)
    ensures YearLevel in r ==> r[YearLevel] == (if d.yearLevel.None? then YearRequired else YearRange)
    ensures GenderField in r <==> !IsGender(Trimmed(d.gender))
    ensures GenderField in r ==> r[GenderField] == (if Trimmed(d.gender) == [] then GenderRequired else GenderChoice)
  {
    map f | f in StudentFields && StudentFieldError(d, f).Some? :: StudentFieldError(d, f).value
  }

  /** The check `validateStudentCreate` makes for one field of the form. */
  function StudentFieldError(d: StudentForm, f: Field): Option<string> {
    match f
    case IdField => StudentIdError(d.id)
    case FirstName => if Trimmed(d.firstName) == [] then Some(FirstNameRequired) else None
    case LastName => if Trimmed(d.lastName) == [] then Some(LastNameRequired) else None
    case ProgramField => if IdMissing(d.programId) then Some(ProgramRequired) else None
    case YearLevel => YearError(d.yearLevel)
    case GenderField => GenderError(d.gender)
    case _ => None
  }

  /** An independent statement of a complete student form. */
  predicate StudentFormComplete(d: StudentForm) {
    && d.id.Some? && IsStudentIdFormat(Strip(d.id.value))
    && d.firstName.Some? && !IsBlank(d.firstName.value)
    && d.lastName.Some? && !IsBlank(d.lastName.value)
    && d.programId.Some? && d.programId.value != 0
    && d.yearLevel.Some? && d.yearLevel.value.Integer? && 1 <= d.yearLevel.value.n <= 5
    && d.gender.Some? && IsGender(Strip(d.gender.value))
  }

  /** The validator returns no errors exactly when the form is complete. */
  lemma StudentValidIffComplete(d: StudentForm)
    ensures ValidateStudentCreate(d) == map[] <==> StudentFormComplete(d)
  {
    var r := ValidateStudentCreate(d);
    if r == map[] {
      assert IdField !in r && FirstName !in r && LastName !in r;
      assert ProgramField !in r && YearLevel !in r && GenderField !in r;
    }
    if StudentFormComplete(d) {
      assert r.Keys == {} by {
        assert IdField !in r && FirstName !in r && LastName !in r;
        assert ProgramField !in r && YearLevel !in r && GenderField !in r;
      }
    }
  }

  /** The form's own hint for the id field, `Format: NNNN-NNNN (e.g.,
      2024-0001)`, is accepted; a short second group is not. */
  lemma StudentIdExamples()
    ensures IdField !in ValidateStudentCreate(StudentForm(Some("2024-0001"), None, None, None, None, None))
    ensures ValidateStudentCreate(StudentForm(Some("2024-1"), None, None, None, None, None))[IdField] == StudentIdFormat
  {
    StripUnpadded("2024-0001");
    StripUnpadded("2024-1");
  }

  predicate StudentClashes(candidate: string, s: StudentView, excludeId: Option<string>) {
    s.id == Strip(candidate) && (excludeId.None? || excludeId == Some("") || s.id != excludeId.value)
  }

  /** `isStudentIdDuplicate`: an exact, case-sensitive match on the trimmed
      candidate; an undefined or empty `excludeId` exempts nobody. */
  function IsStudentIdDuplicate(candidate: string, students: seq<StudentView>, excludeId: Option<string>): (r: bool)
    ensures r <==> exists i :: 0 <= i < |students| && StudentClashes(candidate, students[i], excludeId)
  {
    if students == [] then false
    else
      var rest := IsStudentIdDuplicate(candidate, students[1..], excludeId);
      assert rest <==> exists i :: 1 <= i < |students| && StudentClashes(candidate, students[i], excludeId) by {
        if rest {
          var k :| 0 <= k < |students[1..]| && StudentClashes(candidate, students[1..][k], excludeId);
          assert students[k + 1] == students[1..][k];
        }
        if exists i :: 1 <= i < |students| && StudentClashes(candidate, students[i], excludeId) {
          var k :| 1 <= k < |students| && StudentClashes(candidate, students[k], excludeId);
          assert students[1..][k - 1] == students[k];
        }
      }
      StudentClashes(candidate, students[0], excludeId) || rest
  }

  /** Editing a student never reports its own unchanged id, and an empty
      `excludeId` behaves as no exclusion at all. */
  lemma StudentDuplicateExclusion(candidate: string, students: seq<StudentView>, excludeId: string)
    ensures excludeId == Strip(candidate) && excludeId != "" ==> !IsStudentIdDuplicate(candidate, students, Some(excludeId))
    ensures IsStudentIdDuplicate(candidate, students, Some("")) == IsStudentIdDuplicate(candidate, students, None)
  {
  }

  /** Student ids are compared exactly, letter case included, while codes
      are compared ignoring case: "a" is a new id next to "A", but not a
      new college code next to "A". */
  lemma StudentIdCaseSensitive(candidate: string, students: seq<StudentView>, colleges: seq<CollegeView>)
    ensures IsStudentIdDuplicate(candidate, students, None)
        <==> exists i :: 0 <= i < |students| && students[i].id == Strip(candidate)
    ensures IsCollegeCodeDuplicate(candidate, colleges, None)
        <==> exists i :: 0 <= i < |colleges| && Upper(colleges[i].code) == Upper(Strip(candidate))
    ensures !IsStudentIdDuplicate("a", [StudentView("A", "", "", None, "", "", 1, "Male", None)], None)
    ensures IsCollegeCodeDuplicate("a", [CollegeView(1, "A", "")], None)
  {
    StripUnpadded("a");
    assert CollegeClashes("a", CollegeView(1, "A", ""), None);
  }

  /** The record being edited never counts against its own code. */
  lemma CollegeDuplicateExcludesSelf(code: string, c: CollegeView)
    ensures !IsCollegeCodeDuplicate(code, [c], Some(c.id))
    ensures IsCollegeCodeDuplicate(code, [c], None) <==> Upper(c.code) == Upper(Strip(code))
  {
  }
}
