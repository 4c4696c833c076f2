/** The add/edit student dialog: how opening it fills the form and the
    program choices, the college and photo controls, the submit gate (photo
    type, photo size, field validation, duplicate id), the payload it sends,
    and the two-phase save in which a photo is uploaded and attached only
    after the student record was written. */
module StudentDialog {
  import opened Common
  import opened Text
  import opened Values
  import opened Views
  import opened FrontendSchemas
  import opened FormFlow
  import BackendSchemas
  import CodeUnique
  import StudentService

  // ---------------------------------------------------------------- state

  /** The year select holds a number after an edit prefill and the chosen
      option's text once the user picks one; `""` is the empty choice. */
  datatype YearInput = YearNumber(n: Num) | YearText(text: string)

  /** The controlled inputs. */
  datatype Fields = Fields(id: string, firstName: string, lastName: string, programId: Option<int>, year: YearInput, gender: string)

  /** A file the user picked: its MIME type (`""` when the browser reports
      none) and its size in bytes. */
  datatype File = File(mime: string, size: int)

  /** The photo controls: the stored photo's path, the staged file, whether
      the stored photo is to be cleared on save, and whether the removal
      confirmation is showing. */
  datatype Photo = Photo(existing: Option<string>, staged: Option<File>, removeExisting: bool, confirming: bool)

  /** The dialog: the form, the selected college, the program choices and the photo controls. */
  datatype Dialog = Dialog(fields: Fields, college: Option<int>, options: seq<ProgramView>, photo: Photo)

  const BlankFields := Fields("", "", "", None, YearText(""), "")

  /** `!!value` on a `number | null`. */
  predicate Truthy(id: Option<int>) {
    id.Some? && id.value != 0
  }

  /** `student.photo || null`: an empty path means no photo. */
  function StoredPhoto(photo: Option<string>): (r: Option<string>)
    ensures r.Some? ==> r.value != "" && photo == r
    ensures r.None? ==> photo.None? || photo == Some("")
  {
    if photo == Some("") then None else photo
  }

  /** The option shown for a student whose program is not among the loaded
      programs, built from what the student record says about it. */
  function Placeholder(s: StudentView): ProgramView
    requires s.programId.Some?
  {
    ProgramView(s.programId.value, None, "", "", s.programCode,
                if s.programName == "" then "Unknown Program" else s.programName)
  }

  // ---------------------------------------------------------------- opening

  /** The effect that runs when the dialog opens. Editing copies the
      student's fields and chooses the college and the program choices from
      the student's program; creating resets everything. A staged file
      survives an edit opening; when the program has a college the choices
      are left to the college effect (`LoadOptions`). */
  function Open(student: Option<StudentView>, allPrograms: seq<ProgramView>, prior: Dialog): (r: Dialog)
    ensures student.None? ==> r == Dialog(BlankFields, None, [], Photo(None, None, false, false))
    ensures student.Some? ==> var s := student.value;
      && r.fields == Fields(s.id, s.firstName, s.lastName, s.programId, YearNumber(Integer(s.yearLevel)), s.gender)
      && r.photo == Photo(StoredPhoto(s.photo), prior.photo.staged, false, false)
    ensures student.Some? && !Truthy(student.value.programId) ==> r.college == None && r.options == []
    ensures student.Some? && Truthy(student.value.programId) ==>
      match FindProgram(allPrograms, student.value.programId)
      case Some(p) =>
        if Truthy(p.collegeId) then r.college == p.collegeId && r.options == prior.options
        else r.college == None && r.options == [p]
      case None => r.college == None && r.options == [Placeholder(student.value)]
  {
    match student
    case None => Dialog(BlankFields, None, [], Photo(None, None, false, false))
    case Some(s) =>
      var fields := Fields(s.id, s.firstName, s.lastName, s.programId, YearNumber(Integer(s.yearLevel)), s.gender);
      var photo := Photo(StoredPhoto(s.photo), prior.photo.staged, false, false);
      if !Truthy(s.programId) then Dialog(fields, None, [], photo)
      else match FindProgram(allPrograms, s.programId)
        case Some(p) =>
          if Truthy(p.collegeId) then Dialog(fields, p.collegeId, prior.options, photo)
          else Dialog(fields, None, [p], photo)
        case None => Dialog(fields, None, [Placeholder(s)], photo)
  }

  /** `loadProgramsForCollege`: a selected college's programs as fetched (none
      when the fetch fails); with no college, only the edited student's own
      program when it is among the loaded ones. */
  function LoadOptions(college: Option<int>, student: Option<StudentView>, allPrograms: seq<ProgramView>,
                       fetched: Reply<seq<ProgramView>>): (r: seq<ProgramView>)
    ensures Truthy(college) ==> r == (if fetched.Returned? then fetched.value else [])
    ensures !Truthy(college) ==> |r| <= 1
    ensures !Truthy(college) && r != [] ==>
              student.Some? && Truthy(student.value.programId) && FindProgram(allPrograms, student.value.programId) == Some(r[0])
  {
    if Truthy(college) then
      match fetched
      case Returned(ps) => ps
      case Threw(_) => []
    else if student.Some? && Truthy(student.value.programId) then
      match FindProgram(allPrograms, student.value.programId)
      case Some(p) => [p]
      case None => []
    else []
  }

  /** `programs.find(p => p.id === program_id)` in the choices, else in all
      loaded programs; its code, or `""`. */
  function ProgramCode(options: seq<ProgramView>, allPrograms: seq<ProgramView>, programId: Option<int>): (code: string)
    ensures FindProgram(options, programId).Some? ==> code == FindProgram(options, programId).value.code
    ensures FindProgram(options, programId).None? && FindProgram(allPrograms, programId).Some?
            ==> code == FindProgram(allPrograms, programId).value.code
    ensures FindProgram(options, programId).None? && FindProgram(allPrograms, programId).None? ==> code == ""
  {
    match FindProgram(options, programId)
    case Some(p) => p.code
    case None =>
      match FindProgram(allPrograms, programId)
      case Some(p) => p.code
      case None => ""
  }

  /** Opening an edit always offers the student's current program, or leaves
      it to the college's programs: when the program is unknown or has no
      college, the only choice is that program, and its code is what a save
      sends back. */
  lemma EditOffersCurrentProgram(s: StudentView, allPrograms: seq<ProgramView>, prior: Dialog)
    requires Truthy(s.programId)
    requires FindProgram(allPrograms, s.programId).None? || !Truthy(FindProgram(allPrograms, s.programId).value.collegeId)
    ensures var r := Open(Some(s), allPrograms, prior);
      && |r.options| == 1 && Some(r.options[0].id) == s.programId
      && ProgramCode(r.options, allPrograms, r.fields.programId)
         == (if FindProgram(allPrograms, s.programId).Some? then FindProgram(allPrograms, s.programId).value.code else s.programCode)
  {
    var r := Open(Some(s), allPrograms, prior);
    assert FindProgram(r.options, s.programId) == Some(r.options[0]);
  }

  /** The college effect does not keep the placeholder: once it runs with no
      college, a student whose program is not loaded is offered nothing. */
  lemma ReloadDropsPlaceholder(s: StudentView, allPrograms: seq<ProgramView>, prior: Dialog, fetched: Reply<seq<ProgramView>>)
    requires Truthy(s.programId) && FindProgram(allPrograms, s.programId).None?
    ensures Open(Some(s), allPrograms, prior).options == [Placeholder(s)]
    ensures LoadOptions(None, Some(s), allPrograms, fetched) == []
  {
  }

  // ---------------------------------------------------------------- controls

  /** The college select's `onChange`: `val ? parseInt(val) : null`. Only the
      selection changes; the chosen program is kept. */
  function ChooseCollege(d: Dialog, value: string): (r: Dialog)
    ensures r.fields == d.fields && r.options == d.options && r.photo == d.photo
    ensures value == "" ==> r.college == None
    ensures value != "" ==> r.college == JsParseInt(value)
  {
    d.(college := if value == "" then None else JsParseInt(value))
  }

  /** Picking a college option, whose value is the college's id rendered in
      decimal, selects that college and leaves the program as it was. */
  lemma ChoosingCollegeKeepsProgram(d: Dialog, collegeId: int)
    ensures ChooseCollege(d, IntToString(collegeId)).college == Some(collegeId)
    ensures ChooseCollege(d, IntToString(collegeId)).fields.programId == d.fields.programId
  {
    JsParseIntRoundTrip(collegeId);
  }

  /** `handleFileChange`: the new choice (possibly none) replaces the staged
      file and cancels a pending removal; photo and general errors are cleared. */
  function PickFile(p: Photo, errors: Errors, file: Option<File>): (r: (Photo, Errors))
    ensures r.0 == p.(staged := file, removeExisting := false)
    ensures r.1.Keys == errors.Keys - {PhotoField, General}
    ensures forall k :: k in r.1 ==> r.1[k] == errors[k]
  {
    (p.(staged := file, removeExisting := false), errors - {PhotoField, General})
  }

  /** `handleRemovePhotoConfirmed`: drop the staged file and mark a stored
      photo for clearing. */
  function RemoveNow(p: Photo): (r: Photo)
    ensures r.staged.None? && !r.confirming && r.existing == p.existing
    ensures r.removeExisting <==> p.existing.Some?
  {
    Photo(p.existing, None, p.existing.Some?, false)
  }

  /** `handleRemovePhotoClick`: a stored photo with nothing staged asks for
      confirmation first; otherwise removal happens at once. */
  function RemoveClick(p: Photo): (r: Photo)
    ensures p.existing.Some? && p.staged.None? ==> r == p.(confirming := true)
    ensures p.existing.None? || p.staged.Some? ==> r.staged.None? && !r.confirming
  {
    if p.existing.Some? && p.staged.None? then p.(confirming := true) else RemoveNow(p)
  }

  /** A call the removal confirmation makes: deleting the stored object. */
  datatype StorageCall = DeleteStored(path: string)

  /** `handleRemovePhotoConfirm`. When editing, the stored object is deleted
      at once (a failure is ignored) and forgotten; the removal flag is then
      set from the path as it was when the dialog was confirmed, so the
      column is still cleared on save. */
  function ConfirmRemoval(p: Photo, editing: bool): (r: (seq<StorageCall>, Photo))
    ensures r.0 == (if editing && p.existing.Some? then [DeleteStored(p.existing.value)] else [])
    ensures r.1.removeExisting <==> p.existing.Some?
    ensures r.1.staged.None? && !r.1.confirming
    ensures r.1.existing == (if editing then None else p.existing)
  {
    var removed := RemoveNow(p);
    if editing && p.existing.Some? then ([DeleteStored(p.existing.value)], removed.(existing := None))
    else ([], removed)
  }

  // ---------------------------------------------------------------- submit gate

  const MaxPhotoBytes := 5 * 1024 * 1024
  const NotAnImage := "Only image files are allowed."
  const InvalidType := "Invalid photo file type."
  const TooLarge := "Selected photo is too large (max 5 MB)."

  /** The staged file, if any, is an image of at most 5 MiB. */
  predicate PhotoAcceptable(staged: Option<File>) {
    staged.None? || (StartsWith(staged.value.mime, "image/") && staged.value.size <= MaxPhotoBytes)
  }

  /** The year as `validateStudentCreate` receives it: a number is passed on,
      a non-empty text goes through `parseInt` (`NaN` is not an integer),
      the empty text becomes `undefined`. */
  function YearValue(y: YearInput): (r: Option<Num>)
    ensures y.YearNumber? ==> r == Some(y.n)
    ensures y.YearText? && y.text == "" ==> r.None?
    ensures y.YearText? && y.text != "" ==> r == Some(if JsParseInt(y.text).Some? then Integer(JsParseInt(y.text).value) else NotInteger)
  {
    match y
    case YearNumber(n) => Some(n)
    case YearText(t) =>
      if t == "" then None
      else match JsParseInt(t)
        case Some(n) => Some(Integer(n))
        case None => Some(NotInteger)
  }

  function AsForm(f: Fields): StudentForm {
    StudentForm(Some(f.id), Some(f.firstName), Some(f.lastName), f.programId, YearValue(f.year), Some(f.gender))
  }

  /** `student?.id`. */
  function EditedId(student: Option<StudentView>): Option<string> {
    match student
    case Some(s) => Some(s.id)
    case None => None
  }

  function DuplicateMessage(id: string): string {
    "Student ID \"" + Strip(id) + "\" already exists"
  }

  /** The checks before any request, in order; `None` lets the save proceed. */
  function Gate(f: Fields, staged: Option<File>, students: seq<StudentView>, editing: Option<StudentView>): (r: Option<Errors>)
    ensures r.None? <==> PhotoAcceptable(staged) && StudentFormComplete(AsForm(f))
                         && !IsStudentIdDuplicate(f.id, students, EditedId(editing))
    ensures r.Some? ==> r.value != map[]
    ensures staged.Some? && !StartsWith(staged.value.mime, "image/")
            ==> r == Some(map[PhotoField := NotAnImage, General := InvalidType])
    ensures staged.Some? && StartsWith(staged.value.mime, "image/") && staged.value.size > MaxPhotoBytes
            ==> r == Some(map[General := TooLarge])
    ensures PhotoAcceptable(staged) && ValidateStudentCreate(AsForm(f)) != map[]
            ==> r == Some(ValidateStudentCreate(AsForm(f)))
    ensures PhotoAcceptable(staged) && ValidateStudentCreate(AsForm(f)) == map[] && IsStudentIdDuplicate(f.id, students, EditedId(editing))
            ==> r == Some(map[IdField := DuplicateMessage(f.id)])
  {
    StudentValidIffComplete(AsForm(f));
    var notImage := map[PhotoField := NotAnImage, General := InvalidType];
    var tooLarge := map[General := TooLarge];
    var duplicate := map[IdField := DuplicateMessage(f.id)];
    assert General in notImage && General in tooLarge && IdField in duplicate;
    if staged.Some? && !StartsWith(staged.value.mime, "image/") then Some(notImage)
    else if staged.Some? && staged.value.size > MaxPhotoBytes then Some(tooLarge)
    else if ValidateStudentCreate(AsForm(f)) != map[] then Some(ValidateStudentCreate(AsForm(f)))
    else if IsStudentIdDuplicate(f.id, students, EditedId(editing)) then Some(duplicate)
    else None
  }

  // ---------------------------------------------------------------- payload

  /** The body of `createStudent` / `updateStudent`; `photo` is present only
      to ask the server to clear the stored photo. */
  datatype Payload = Payload(
    id: string,
    firstName: string,
    lastName: string,
    programId: int,
    programCode: string,
    yearLevel: int,
    gender: string,
    photo: Option<string>)

  /** The payload of a form that passed the gate: id and names trimmed, the
      gender as selected, `photo: ""` only for an edit that removed the
      stored photo without staging a new one. */
  function PayloadFor(d: Dialog, allPrograms: seq<ProgramView>, editing: bool): (r: Payload)
    requires StudentFormComplete(AsForm(d.fields))
    ensures r.id == Strip(d.fields.id) && IsStudentIdFormat(r.id)
    ensures r.firstName == Strip(d.fields.firstName) && r.firstName != []
    ensures r.lastName == Strip(d.fields.lastName) && r.lastName != []
    ensures Some(r.programId) == d.fields.programId && r.programId != 0
    ensures Some(Integer(r.yearLevel)) == YearValue(d.fields.year) && 1 <= r.yearLevel <= 5
    ensures r.gender == d.fields.gender
    ensures r.programCode == ProgramCode(d.options, allPrograms, d.fields.programId)
    ensures r.photo == Some("") <==> editing && d.photo.removeExisting && d.photo.staged.None?
    ensures r.photo.None? || r.photo == Some("")
  {
    var f := d.fields;
    Payload(Strip(f.id), Strip(f.firstName), Strip(f.lastName), f.programId.value,
            ProgramCode(d.options, allPrograms, f.programId), YearValue(f.year).value.n, f.gender,
            if editing && d.photo.removeExisting && d.photo.staged.None? then Some("") else None)
  }

  /** The JSON object the backend receives for a payload. */
  function AsBody(p: Payload): Body {
    var base := map["id" := Str(p.id), "first_name" := Str(p.firstName), "last_name" := Str(p.lastName),
                    "program_id" := Int(p.programId), "program_code" := Str(p.programCode),
                    "year_level" := Int(p.yearLevel), "gender" := Str(p.gender)];
    if p.photo.Some? then base["photo" := Str(p.photo.value)] else base
  }

  /** Every payload the dialog sends is one the backend's `StudentSchema`
      accepts. */
  lemma PayloadPassesSchema(d: Dialog, allPrograms: seq<ProgramView>, editing: bool)
    requires StudentFormComplete(AsForm(d.fields))
    ensures BackendSchemas.StudentBodyValid(AsBody(PayloadFor(d, allPrograms, editing)))
  {
    var p := PayloadFor(d, allPrograms, editing);
    assert IsGender(Strip(p.gender));
    BodyPassesSchema(p);
  }

  /** A payload with a well-formed id, trimmed non-empty names, an allowed
      gender, a chosen program and a year in range passes the schema. */
  lemma BodyPassesSchema(p: Payload)
    requires IsStudentIdFormat(p.id)
    requires p.firstName != [] && Unpadded(p.firstName) && p.lastName != [] && Unpadded(p.lastName)
    requires IsGender(Strip(p.gender)) && p.programId != 0 && 1 <= p.yearLevel <= 5
    ensures BackendSchemas.StudentBodyValid(AsBody(p))
  {
    BodyFields(p);
    StudentIdUnpadded(p.id);
    StripUnpadded(p.firstName);
    StripUnpadded(p.lastName);
  }

  lemma BodyFields(p: Payload)
    ensures var body := AsBody(p);
      && Get(body, "id") == Str(p.id) && Get(body, "gender") == Str(p.gender)
      && Get(body, "first_name") == Str(p.firstName) && Get(body, "last_name") == Str(p.lastName)
      && Get(body, "program_id") == Int(p.programId) && Get(body, "year_level") == Int(p.yearLevel)
  {
  }

  // ---------------------------------------------------------------- saving

  /** What the handler does outside the component, in order. */
  datatype Effect =
    | CreateCall(payload: Payload)
    | UpdateCall(id: string, payload: Payload)
    | UploadCall(file: File)
    | AttachCall(id: string, path: string)
    | DeleteCall(path: string)
    | Close
    | Refresh

  /** The server's answers: the write (with the id the response reports, if
      any), the upload (with the stored path) and the attaching update. */
  datatype Server = Server(write: Reply<Option<string>>, upload: Reply<string>, attach: Reply<()>)

  /** The calls a submission made and the error record it left on screen. */
  datatype Submitted = Submitted(effects: seq<Effect>, errors: Errors)

  const SaveFailed := "Failed to save student."
  const PhotoFailed := "Failed to upload or attach photo."

  /** Which field a failed write is reported on: messages about an existing
      id or about the id's format go to the id field; everything else is general. */
  function Placement(message: string): (k: Field)
    ensures k == IdField <==> Mentions(message, "already exists") || Mentions(message, "format")
    ensures k == IdField || k == General
  {
    if Mentions(message, "already exists") || Mentions(message, "format") then IdField else General
  }

  /** The outer `catch`: the server's message, verbatim, on its field. */
  function ServerErrors(t: Thrown): (r: Errors)
    ensures r.Keys == {Placement(MessageOf(t, SaveFailed))}
    ensures r[Placement(MessageOf(t, SaveFailed))] == MessageOf(t, SaveFailed)
  {
    var message := MessageOf(t, SaveFailed);
    map[Placement(message) := message]
  }

  /** The photo phase after a successful write: upload the staged file, then
      attach its path to the student `target`; if either step throws, delete
      what was uploaded and report a general error. Nothing happens without a
      staged file or with a falsy `target`. */
  function PhotoPhase(staged: Option<File>, target: string, server: Server): (r: Submitted)
    ensures staged.None? || target == "" ==> r == Submitted([], map[])
    ensures r.effects != [] ==> r.effects[0] == UploadCall(staged.value) && target != ""
    ensures r.errors == map[] <==> staged.None? || target == "" || (server.upload.Returned? && server.attach.Returned?)
    ensures r.errors != map[] ==> r.errors.Keys == {General}
    ensures forall i :: 0 <= i < |r.effects| ==>
              !r.effects[i].CreateCall? && !r.effects[i].UpdateCall? && !r.effects[i].Close? && !r.effects[i].Refresh?
    ensures forall i :: 0 < i < |r.effects| ==> !r.effects[i].UploadCall?
  {
    if staged.None? || target == "" then Submitted([], map[])
    else
      var upload := UploadCall(staged.value);
      match server.upload
      case Threw(t) => Failure([upload], t)
      case Returned(path) =>
        var attach := AttachCall(target, path);
        match server.attach
        case Returned(_) => Submitted([upload, attach], map[])
        case Threw(t) =>
          Failure([upload, attach] + (if path != "" then [DeleteCall(path)] else []), t)
  }

  /** A photo step threw: the calls made so far and a general error. */
  function Failure(effects: seq<Effect>, t: Thrown): (r: Submitted)
    ensures r.effects == effects && r.errors != map[] && r.errors.Keys == {General}
  {
    var errors := map[General := MessageOf(t, PhotoFailed)];
    assert General in errors;
    Submitted(effects, errors)
  }

  /** The id the photo is attached to: what the server reports, else the
      edited student's id; a create whose response has no id attaches nothing. */
  function Target(editing: Option<StudentView>, reported: Option<string>): string {
    if editing.Some? then reported.GetOr(editing.value.id) else reported.GetOr("")
  }

  /** The create or update call for a form that passed the gate. */
  function WriteCall(d: Dialog, allPrograms: seq<ProgramView>, editing: Option<StudentView>): (e: Effect)
    requires StudentFormComplete(AsForm(d.fields))
    ensures e.CreateCall? || e.UpdateCall?
    ensures e.UpdateCall? <==> editing.Some?
    ensures e.UpdateCall? ==> e.id == editing.value.id
    ensures (e.CreateCall? || e.UpdateCall?) && e.payload == PayloadFor(d, allPrograms, editing.Some?)
    ensures e.payload.photo == Some("") ==> e.UpdateCall?
  {
    var p := PayloadFor(d, allPrograms, editing.Some?);
    if editing.Some? then UpdateCall(editing.value.id, p) else CreateCall(p)
  }

  /** `handleSubmit`: nothing is sent unless the gate lets the form through;
      then the write comes first; a failed write is the only call; the
      dialog closes exactly when no error is left on screen. */
  function Submit(d: Dialog, students: seq<StudentView>, allPrograms: seq<ProgramView>,
                  editing: Option<StudentView>, server: Server): (r: Submitted)
    ensures Gate(d.fields, d.photo.staged, students, editing).Some?
            ==> r == Submitted([], Gate(d.fields, d.photo.staged, students, editing).value)
    ensures r.effects != [] <==> Gate(d.fields, d.photo.staged, students, editing).None?
    ensures r.effects != [] ==> StudentFormComplete(AsForm(d.fields)) && r.effects[0] == WriteCall(d, allPrograms, editing)
    ensures r.effects != [] && server.write.Threw? ==> r == Submitted(r.effects[..1], ServerErrors(server.write.error))
    ensures r.errors == map[] <==> Close in r.effects
  {
    match Gate(d.fields, d.photo.staged, students, editing)
    case Some(errors) => Submitted([], errors)
    case None => Save(d, allPrograms, editing, server)
  }

  /** The requests of a form that passed the gate. */
  function Save(d: Dialog, allPrograms: seq<ProgramView>, editing: Option<StudentView>, server: Server): (r: Submitted)
    requires StudentFormComplete(AsForm(d.fields))
    ensures r.effects != [] && r.effects[0] == WriteCall(d, allPrograms, editing)
    ensures server.write.Threw? ==> r == Submitted([r.effects[0]], ServerErrors(server.write.error))
    ensures server.write.Returned? ==> r == Finish(r.effects[0], PhotoPhase(d.photo.staged, Target(editing, server.write.value), server))
    ensures r.errors == map[] <==> Close in r.effects
  {
    var write := WriteCall(d, allPrograms, editing);
    match server.write
    case Threw(t) =>
      var errors := ServerErrors(t);
      assert Placement(MessageOf(t, SaveFailed)) in errors;
      assert Close !in [write];
      Submitted([write], errors)
    case Returned(reported) => Finish(write, PhotoPhase(d.photo.staged, Target(editing, reported), server))
  }

  /** After a successful write: close and refresh when the photo phase
      succeeded, otherwise stay open with its error. */
  function Finish(write: Effect, photo: Submitted): (r: Submitted)
    requires !write.Close?
    requires forall i :: 0 <= i < |photo.effects| ==> !photo.effects[i].Close?
    ensures r.errors == photo.errors
    ensures r.effects == [write] + photo.effects + (if photo.errors == map[] then [Close, Refresh] else [])
    ensures r.errors == map[] <==> Close in r.effects
  {
    if photo.errors == map[] then Submitted([write] + photo.effects + [Close, Refresh], map[])
    else
      assert Close !in [write] + photo.effects;
      Submitted([write] + photo.effects, photo.errors)
  }

  /** A photo is uploaded only after the student was written: an upload is
      always the second call, right after a write that succeeded. */
  lemma UploadFollowsWrite(d: Dialog, students: seq<StudentView>, allPrograms: seq<ProgramView>,
                           editing: Option<StudentView>, server: Server, i: int)
    requires 0 <= i < |Submit(d, students, allPrograms, editing, server).effects|
    requires Submit(d, students, allPrograms, editing, server).effects[i].UploadCall?
    ensures i == 1 && server.write.Returned?
    ensures var e := Submit(d, students, allPrograms, editing, server).effects[0]; e.CreateCall? || e.UpdateCall?
  {
    var r := Submit(d, students, allPrograms, editing, server);
    var reported := if server.write.Returned? then server.write.value else None;
    var photo := PhotoPhase(d.photo.staged, Target(editing, reported), server);
    assert server.write.Returned? ==>
      r.effects == [r.effects[0]] + photo.effects + (if photo.errors == map[] then [Close, Refresh] else []);
  }

  /** An upload is followed by the call that attaches it, or deleted again
      when that call fails: then the handler deletes the uploaded path,
      keeps the dialog open and shows a general error. */
  lemma AttachFailureCleansUp(d: Dialog, students: seq<StudentView>, allPrograms: seq<ProgramView>,
                              editing: Option<StudentView>, server: Server)
    requires Gate(d.fields, d.photo.staged, students, editing).None?
    requires d.photo.staged.Some? && server.write.Returned? && Target(editing, server.write.value) != ""
    requires server.upload.Returned? && server.upload.value != "" && server.attach.Threw?
    ensures var r := Submit(d, students, allPrograms, editing, server);
      && r.effects[1..] == [UploadCall(d.photo.staged.value), AttachCall(Target(editing, server.write.value), server.upload.value),
                            DeleteCall(server.upload.value)]
      && Close !in r.effects
      && r.errors == map[General := MessageOf(server.attach.error, PhotoFailed)]
  {
    var photo := PhotoPhase(d.photo.staged, Target(editing, server.write.value), server);
    assert photo.errors != map[];
  }

  /** A save that uploads a photo attaches it to the id the server reports,
      so a renamed student gets the photo under the new id. */
  lemma PhotoFollowsRenamedId(d: Dialog, students: seq<StudentView>, allPrograms: seq<ProgramView>,
                              s: StudentView, newId: string, server: Server)
    requires Gate(d.fields, d.photo.staged, students, Some(s)).None?
    requires d.photo.staged.Some? && newId != ""
    requires server.write == Returned(Some(newId)) && server.upload.Returned?
    ensures Submit(d, students, allPrograms, Some(s), server).effects[2] == AttachCall(newId, server.upload.value)
    ensures Submit(d, students, allPrograms, Some(s), server).effects[0].id == s.id
  {
    var photo := PhotoPhase(d.photo.staged, newId, server);
    assert |photo.effects| >= 2 && photo.effects[1] == AttachCall(newId, server.upload.value);
  }

  /** Confirming the removal of a stored photo while editing deletes the
      object at once, and the following save also asks the server to clear
      the column. */
  lemma ConfirmedRemovalClearsColumn(d: Dialog, allPrograms: seq<ProgramView>)
    requires d.photo.existing.Some?
    requires StudentFormComplete(AsForm(d.fields))
    ensures var (calls, photo) := ConfirmRemoval(d.photo, true);
      && calls == [DeleteStored(d.photo.existing.value)]
      && PayloadFor(d.(photo := photo), allPrograms, true).photo == Some("")
  {
  }

  /** Picking a new file after asking for removal cancels the removal: the
      payload carries no `photo`, and the new file is uploaded instead. */
  lemma NewFileCancelsRemoval(d: Dialog, allPrograms: seq<ProgramView>, errors: Errors, file: File)
    requires StudentFormComplete(AsForm(d.fields))
    ensures var picked := PickFile(RemoveNow(d.photo), errors, Some(file)).0;
      PayloadFor(d.(photo := picked), allPrograms, true).photo.None?
  {
  }

  // ---------------------------------------------------------------- server messages

  /** The service's conflict refusal lands on the id field, verbatim. */
  lemma ConflictShownOnId(id: string)
    ensures ServerErrors(ErrorWith(StudentService.IdExists(id))) == map[IdField := StudentService.IdExists(id)]
  {
    ConflictMentioned(id);
  }

  lemma ConflictMentioned(id: string)
    ensures Mentions(StudentService.IdExists(id), "already exists")
  {
    var pre := "Student ID '" + id + "' ";
    assert StudentService.IdExists(id) == pre + "already exists" + ".";
    MentionsInside(pre, "already exists", ".");
    CodeUnique.LowerAlreadyExists();
  }

  /** So does its format refusal. */
  lemma FormatShownOnId(message: string)
    requires message == StudentService.IdFormat
    ensures ServerErrors(ErrorWith(message)) == map[IdField := message]
  {
    FormatWording(message);
  }

  lemma FormatWording(message: string)
    requires message == StudentService.IdFormat
    ensures Mentions(message, "format")
  {
    IdFormatWords();
    MentionsInside("Student ID must be in ", "format", " NNNN-NNNN.");
    LowerFormat();
  }

  lemma IdFormatWords()
    ensures StudentService.IdFormat == "Student ID must be in " + "format" + " NNNN-NNNN."
  {
  }

  lemma LowerFormat()
    ensures Lower("format") == "format"
  {
  }

  /** A refusal about something else is a general error. */
  lemma OtherRefusalsAreGeneral(message: string)
    requires message == StudentService.ProgramRequired
    ensures ServerErrors(ErrorWith(message)) == map[General := message]
  {
    NoConflictMentioned(message);
    NoFormatMentioned(message);
  }

  lemma NoConflictMentioned(message: string)
    requires message == StudentService.ProgramRequired
    ensures !Mentions(message, "already exists")
  {
    NotMentioned(message, "already exists");
  }

  lemma NoFormatMentioned(message: string)
    requires message == StudentService.ProgramRequired
    ensures !Mentions(message, "format")
  {
    NotMentioned(message, "format");
  }
}
