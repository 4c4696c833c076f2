/** The add/edit college dialog: the fields it shows on opening, the order in
    which its submit handler refuses (field validation, then the client-side
    duplicate guard), the trimmed payload it sends, and where a server error
    is shown. */
module CollegeDialog {
  import opened Common
  import opened Text
  import opened Values
  import opened Views
  import opened FrontendSchemas
  import opened FormFlow
  import BackendSchemas
  import CodeUnique
  import CollegeService

  /** The dialog's two controlled inputs. */
  datatype Fields = Fields(code: string, name: string)

  /** The body of `createCollege` / `updateCollege`. */
  datatype Payload = Payload(code: string, name: string)

  /** What the handler does outside the component, in order. */
  datatype Effect = CreateCall(payload: Payload) | UpdateCall(id: int, payload: Payload) | Close | Refresh

  /** The calls a submission made and the error record it left on screen. */
  datatype Submitted = Submitted(effects: seq<Effect>, errors: Errors)

  /** The opening effect: an edited college's code and name, or a blank form. */
  function Prefill(college: Option<CollegeView>): Fields {
    match college
    case Some(c) => Fields(c.code, c.name)
    case None => Fields("", "")
  }

  /** `college?.id`. */
  function EditedId(college: Option<CollegeView>): Option<int> {
    match college
    case Some(c) => Some(c.id)
    case None => None
  }

  const SaveFailed := "Failed to save college."

  function DuplicateMessage(code: string): string {
    "College Code \"" + Strip(code) + "\" already exists"
  }

  /** The `catch` branch: a message mentioning "already exists" becomes the
      client's own duplicate message on the code field; anything else is
      shown as a general error, verbatim. */
  function ServerErrors(code: string, t: Thrown): (r: Errors)
    ensures |r| == 1
    ensures CodeField in r <==> Mentions(MessageOf(t, SaveFailed), "already exists")
    ensures CodeField in r ==> r[CodeField] == DuplicateMessage(code)
    ensures CodeField !in r ==> r == map[General := MessageOf(t, SaveFailed)]
  {
    var message := MessageOf(t, SaveFailed);
    if Mentions(message, "already exists") then map[CodeField := DuplicateMessage(code)]
    else map[General := message]
  }

  /** `handleSubmit`. The write is an update exactly when a college is being
      edited; `reply` is the server's answer to it. */
  function Submit(f: Fields, colleges: seq<CollegeView>, editing: Option<CollegeView>, reply: Reply<()>): (r: Submitted)
    ensures ValidateCollegeCreate(f.code, f.name) != map[] ==> r == Submitted([], ValidateCollegeCreate(f.code, f.name))
    ensures ValidateCollegeCreate(f.code, f.name) == map[] && IsCollegeCodeDuplicate(f.code, colleges, EditedId(editing))
            ==> r == Submitted([], map[CodeField := DuplicateMessage(f.code)])
    ensures r.effects != [] <==> ValidateCollegeCreate(f.code, f.name) == map[] && !IsCollegeCodeDuplicate(f.code, colleges, EditedId(editing))
    ensures r.effects != [] ==> (r.effects[0].UpdateCall? <==> editing.Some?)
    ensures r.effects != [] && editing.Some? ==> r.effects[0] == UpdateCall(editing.value.id, Payload(Strip(f.code), Strip(f.name)))
    ensures r.effects != [] && editing.None? ==> r.effects[0] == CreateCall(Payload(Strip(f.code), Strip(f.name)))
    ensures r.errors == map[] <==> r.effects != [] && reply.Returned?
    ensures r.errors == map[] ==> r.effects[1..] == [Close, Refresh]
    ensures r.effects != [] && reply.Threw? ==> |r.effects| == 1 && r.errors == ServerErrors(f.code, reply.error)
  {
    var invalid := ValidateCollegeCreate(f.code, f.name);
    if invalid != map[] then Submitted([], invalid)
    else if IsCollegeCodeDuplicate(f.code, colleges, EditedId(editing)) then
      Submitted([], map[CodeField := DuplicateMessage(f.code)])
    else
      var payload := Payload(Strip(f.code), Strip(f.name));
      var write := if editing.Some? then UpdateCall(editing.value.id, payload) else CreateCall(payload);
      match reply
      case Returned(_) => Submitted([write, Close, Refresh], map[])
      case Threw(t) => Submitted([write], ServerErrors(f.code, t))
  }

  function PayloadOf(e: Effect): Payload
    requires e.CreateCall? || e.UpdateCall?
  {
    e.payload
  }

  /** The JSON object the backend receives for a payload. */
  function AsBody(p: Payload): Body {
    map["code" := Str(p.code), "name" := Str(p.name)]
  }

  /** Whatever the dialog sends passes the backend's `CollegeSchema`: the
      client refuses every form the server's schema would refuse. */
  lemma SentPayloadPassesSchema(f: Fields, colleges: seq<CollegeView>, editing: Option<CollegeView>, reply: Reply<()>)
    requires Submit(f, colleges, editing, reply).effects != []
    ensures BackendSchemas.ValidateCollege(AsBody(PayloadOf(Submit(f, colleges, editing, reply).effects[0]))).Pass?
  {
    var p := PayloadOf(Submit(f, colleges, editing, reply).effects[0]);
    assert p == Payload(Strip(f.code), Strip(f.name));
    PayloadPassesSchema(p);
  }

  /** A payload with non-blank, trimmed code and name passes the backend's schema. */
  lemma PayloadPassesSchema(p: Payload)
    requires p.code != [] && p.name != [] && Unpadded(p.code) && Unpadded(p.name)
    ensures BackendSchemas.ValidateCollege(AsBody(p)).Pass?
  {
    var body := AsBody(p);
    assert Get(body, "code") == Str(p.code);
    assert Get(body, "name") == Str(p.name);
    StripUnpadded(p.code);
    StripUnpadded(p.name);
  }

  /** Reopening a college and saving it untouched sends its own trimmed code
      and name back as an update, closes the dialog and then refreshes the
      list, provided no other loaded college shares the code. */
  lemma ReopenedUnchangedSaves(c: CollegeView, colleges: seq<CollegeView>)
    requires !IsBlank(c.code) && !IsBlank(c.name)
    requires forall i :: 0 <= i < |colleges| && colleges[i].id != c.id ==> Upper(colleges[i].code) != Upper(Strip(c.code))
    ensures Submit(Prefill(Some(c)), colleges, Some(c), Returned(()))
         == Submitted([UpdateCall(c.id, Payload(Strip(c.code), Strip(c.name))), Close, Refresh], map[])
  {
  }

  /** The backend's conflict message is shown exactly like the client's own
      duplicate guard: on the code field, with the client's wording. */
  lemma ServerConflictShownOnCode(code: string, norm: string)
    ensures ServerErrors(code, ErrorWith(CodeUnique.ExistsMessage(CodeUnique.CollegeEntity, norm)))
         == map[CodeField := DuplicateMessage(code)]
  {
    CodeUnique.ExistsMessageMentionsConflict(CodeUnique.CollegeEntity, norm);
  }

  /** Any other refusal from the college service is a general error. */
  lemma OtherRefusalsAreGeneral(code: string)
    ensures ServerErrors(code, ErrorWith(CollegeService.NotFoundMessage)) == map[General := CollegeService.NotFoundMessage]
  {
    NotMentioned(CollegeService.NotFoundMessage, "already exists");
  }
}
