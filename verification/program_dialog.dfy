/** The add/edit program dialog: prefill on opening, the submit gate
    (field validation, then the client-side duplicate guard), the trimmed
    payload, and the three-way placement of a server error. */
module ProgramDialog {
  import opened Common
  import opened Text
  import opened Values
  import opened Views
  import opened FrontendSchemas
  import opened FormFlow
  import BackendSchemas
  import CodeUnique
  import ProgramService

  /** The dialog's controlled inputs; the college select may be empty. */
  datatype Fields = Fields(collegeId: Option<int>, code: string, name: string)

  /** The body of `createProgram` / `updateProgram`. */
  datatype Payload = Payload(collegeId: int, code: string, name: string)

  /** What the handler does outside the component, in order. */
  datatype Effect = CreateCall(payload: Payload) | UpdateCall(id: int, payload: Payload) | Close | Refresh

  /** The calls a submission made and the error record it left on screen. */
  datatype Submitted = Submitted(effects: seq<Effect>, errors: Errors)

  /** The opening effect: an edited program's college, code and name, or a blank form. */
  function Prefill(program: Option<ProgramView>): Fields {
    match program
    case Some(p) => Fields(p.collegeId, p.code, p.name)
    case None => Fields(None, "", "")
  }

  /** `program?.id`. */
  function EditedId(program: Option<ProgramView>): Option<int> {
    match program
    case Some(p) => Some(p.id)
    case None => None
  }

  const SaveFailed := "Failed to save program."

  function DuplicateMessage(code: string): string {
    "Program Code \"" + Strip(code) + "\" already exists"
  }

  /** Which field a server message is shown on: "already exists" means the
      code; otherwise a mention of "college" means the college select;
      anything else is general. */
  function Placement(message: string): (k: Field)
    ensures k == CodeField <==> Mentions(message, "already exists")
    ensures k == CollegeField <==> !Mentions(message, "already exists") && Mentions(message, "college")
    ensures k == CodeField || k == CollegeField || k == General
  {
    if Mentions(message, "already exists") then CodeField
    else if Mentions(message, "college") then CollegeField
    else General
  }

  /** The `catch` branch: the code field gets the client's own duplicate
      wording, the other two fields the server's message verbatim. */
  function ServerErrors(code: string, t: Thrown): (r: Errors)
    ensures r.Keys == {Placement(MessageOf(t, SaveFailed))}
    ensures CodeField in r ==> r[CodeField] == DuplicateMessage(code)
    ensures CodeField !in r ==> r[Placement(MessageOf(t, SaveFailed))] == MessageOf(t, SaveFailed)
  {
    var message := MessageOf(t, SaveFailed);
    var k := Placement(message);
    map[k := if k == CodeField then DuplicateMessage(code) else message]
  }

  /** `handleSubmit`. The write is an update exactly when a program is being
      edited; `reply` is the server's answer to it. */
  function Submit(f: Fields, programs: seq<ProgramView>, editing: Option<ProgramView>, reply: Reply<()>): (r: Submitted)
    ensures ValidateProgramCreate(f.collegeId, f.code, f.name) != map[]
            ==> r == Submitted([], ValidateProgramCreate(f.collegeId, f.code, f.name))
    ensures ValidateProgramCreate(f.collegeId, f.code, f.name) == map[] && IsProgramCodeDuplicate(f.code, programs, EditedId(editing))
            ==> r == Submitted([], map[CodeField := DuplicateMessage(f.code)])
    ensures r.effects != [] <==> ValidateProgramCreate(f.collegeId, f.code, f.name) == map[]
                                 && !IsProgramCodeDuplicate(f.code, programs, EditedId(editing))
    ensures r.effects != [] ==> f.collegeId.Some? && f.collegeId.value != 0
    ensures r.effects != [] && editing.Some?
            ==> r.effects[0] == UpdateCall(editing.value.id, Payload(f.collegeId.value, Strip(f.code), Strip(f.name)))
    ensures r.effects != [] && editing.None? ==> r.effects[0] == CreateCall(Payload(f.collegeId.value, Strip(f.code), Strip(f.name)))
    ensures r.errors == map[] <==> r.effects != [] && reply.Returned?
    ensures r.errors == map[] ==> r.effects[1..] == [Close, Refresh]
    ensures r.effects != [] && reply.Threw? ==> |r.effects| == 1 && r.errors == ServerErrors(f.code, reply.error)
  {
    var invalid := ValidateProgramCreate(f.collegeId, f.code, f.name);
    if invalid != map[] then Submitted([], invalid)
    else if IsProgramCodeDuplicate(f.code, programs, EditedId(editing)) then
      Submitted([], map[CodeField := DuplicateMessage(f.code)])
    else
      var payload := Payload(f.collegeId.value, Strip(f.code), Strip(f.name));
      var write := if editing.Some? then UpdateCall(editing.value.id, payload) else CreateCall(payload);
      match reply
      case Returned(_) => Submitted([write, Close, Refresh], map[])
      case Threw(t) => Submitted([write], ServerErrors(f.code, t))
  }

  function PayloadOf(e: Effect): Payload
    requires e.CreateCall? || e.UpdateCall?
  {
    e.payload
  }

  /** The JSON object the backend receives for a payload. */
  function AsBody(p: Payload): Body {
    map["college_id" := Int(p.collegeId), "code" := Str(p.code), "name" := Str(p.name)]
  }

  /** Whatever the dialog sends passes the backend's `ProgramSchema`,
      including its falsy-`college_id` rule. */
  lemma SentPayloadPassesSchema(f: Fields, programs: seq<ProgramView>, editing: Option<ProgramView>, reply: Reply<()>)
    requires Submit(f, programs, editing, reply).effects != []
    ensures BackendSchemas.ValidateProgram(AsBody(PayloadOf(Submit(f, programs, editing, reply).effects[0]))).Pass?
  {
    var p := PayloadOf(Submit(f, programs, editing, reply).effects[0]);
    assert p == Payload(f.collegeId.value, Strip(f.code), Strip(f.name));
    PayloadPassesSchema(p);
  }

  /** A payload with a truthy college and non-blank, trimmed code and name
      passes the backend's schema. */
  lemma PayloadPassesSchema(p: Payload)
    requires p.collegeId != 0 && p.code != [] && p.name != [] && Unpadded(p.code) && Unpadded(p.name)
    ensures BackendSchemas.ValidateProgram(AsBody(p)).Pass?
  {
    var body := AsBody(p);
    assert Get(body, "college_id") == Int(p.collegeId);
    assert Get(body, "code") == Str(p.code);
    assert Get(body, "name") == Str(p.name);
    StripUnpadded(p.code);
    StripUnpadded(p.name);
  }

  /** Reopening a program that has a college and saving it untouched sends
      its own college and trimmed code and name back as an update. */
  lemma ReopenedUnchangedSaves(p: ProgramView, programs: seq<ProgramView>)
    requires p.collegeId.Some? && p.collegeId.value != 0
    requires !IsBlank(p.code) && !IsBlank(p.name)
    requires forall i :: 0 <= i < |programs| && programs[i].id != p.id ==> Upper(programs[i].code) != Upper(Strip(p.code))
    ensures Submit(Prefill(Some(p)), programs, Some(p), Returned(()))
         == Submitted([UpdateCall(p.id, Payload(p.collegeId.value, Strip(p.code), Strip(p.name))), Close, Refresh], map[])
  {
  }

  /** A program without a college cannot be saved untouched: the dialog asks
      for a college and writes nothing. */
  lemma ReopenedWithoutCollegeIsBlocked(p: ProgramView, programs: seq<ProgramView>, reply: Reply<()>)
    requires p.collegeId.None?
    ensures Submit(Prefill(Some(p)), programs, Some(p), reply).effects == []
    ensures Submit(Prefill(Some(p)), programs, Some(p), reply).errors[CollegeField] == ProgramCollegeRequired
  {
  }

  /** The backend's conflict message is shown like the client's own guard. */
  lemma ServerConflictShownOnCode(code: string, norm: string)
    ensures ServerErrors(code, ErrorWith(CodeUnique.ExistsMessage(CodeUnique.ProgramEntity, norm)))
         == map[CodeField := DuplicateMessage(code)]
  {
    CodeUnique.ExistsMessageMentionsConflict(CodeUnique.ProgramEntity, norm);
  }

  /** The service's unknown-college refusal lands on the college select. */
  lemma MissingCollegeShownOnCollege(code: string)
    ensures ServerErrors(code, ErrorWith(ProgramService.CollegeNotFound)) == map[CollegeField := ProgramService.CollegeNotFound]
  {
    MissingCollegeWording();
  }

  lemma MissingCollegeWording()
    ensures Mentions(ProgramService.CollegeNotFound, "college")
    ensures !Mentions(ProgramService.CollegeNotFound, "already exists")
  {
    MentionsInside("", "College", " not found.");
    assert "" + "College" + " not found." == ProgramService.CollegeNotFound;
    LowerCollege();
    NoConflictInMissingCollege();
  }

  lemma NoConflictInMissingCollege()
    ensures !Mentions(ProgramService.CollegeNotFound, "already exists")
  {
    NotMentioned(ProgramService.CollegeNotFound, "already exists");
  }

  lemma LowerCollege()
    ensures Lower("College") == "college"
  {
  }

  /** An unknown program is neither a conflict nor about a college. */
  lemma MissingProgramIsGeneral(code: string)
    ensures ServerErrors(code, ErrorWith(ProgramService.NotFoundMessage)) == map[General := ProgramService.NotFoundMessage]
  {
    MissingProgramWording();
  }

  lemma MissingProgramWording()
    ensures !Mentions(ProgramService.NotFoundMessage, "already exists")
    ensures !Mentions(ProgramService.NotFoundMessage, "college")
  {
    NoConflictInMissingProgram();
    NoCollegeInMissingProgram();
  }

  lemma NoCollegeInMissingProgram()
    ensures !Mentions(ProgramService.NotFoundMessage, "college")
  {
    NotMentioned(ProgramService.NotFoundMessage, "college");
  }

  lemma NoConflictInMissingProgram()
    ensures !Mentions(ProgramService.NotFoundMessage, "already exists")
  {
    NotMentioned(ProgramService.NotFoundMessage, "already exists");
  }
}
