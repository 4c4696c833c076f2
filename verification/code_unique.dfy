/** `validate_college_code_unique` and `validate_program_code_unique`: a
    candidate code is normalised (trimmed, upper-cased) and compared with the
    upper-cased codes already stored, optionally ignoring one record. */
module CodeUnique {
  import opened Common
  import opened Text
  import Values

  /** Which table is consulted; only the messages differ. */
  datatype Entity = CollegeEntity | ProgramEntity

  function EntityName(e: Entity): string {
    match e
    case CollegeEntity => "College"
    case ProgramEntity => "Program"
  }

  /** The `(is_valid, error_message)` pair. */
  datatype Verdict = Verdict(ok: bool, message: string)

  /** `(code or "").strip().upper()`. */
  function Normalise(code: string): (r: string)
    ensures |r| <= |code|
    ensures r == [] <==> IsBlank(code)
  {
    Upper(Strip(code))
  }

  /** `if exclude_id:` — `None` and `0` are both falsy and exclude nothing. */
  predicate Excludes(excludeId: Option<int>, id: int) {
    excludeId.Some? && excludeId.value != 0 && id == excludeId.value
  }

  /** A stored row the SQL query would return: same upper-cased code, not excluded. */
  predicate Conflicts(codes: map<int, string>, id: int, norm: string, excludeId: Option<int>) {
    id in codes && Upper(codes[id]) == norm && !Excludes(excludeId, id)
  }

  function EmptyMessage(e: Entity): string {
    EntityName(e) + " code cannot be empty."
  }

  function ExistsMessage(e: Entity, norm: string): string {
    EntityName(e) + " code '" + norm + "' already exists."
  }

  /** The services pick 409 for a message that mentions "already exists";
      the conflict message always does, whatever the code. */
  lemma ExistsMessageMentionsConflict(e: Entity, norm: string)
    ensures Contains(Lower(ExistsMessage(e, norm)), "already exists")
  {
    var needle := "already exists";
    var msg := ExistsMessage(e, norm);
    var k := PhraseOffset(e, norm);
    LowerSlice(msg, k, k + |needle|);
    LowerAlreadyExists();
    ContainsAt(Lower(msg), needle, k);
  }

  lemma LowerAlreadyExists()
    ensures Lower("already exists") == "already exists"
  {
    assert NoCapitals("already exists");
    LowerNoCapitals("already exists");
  }

  lemma PhraseOffset(e: Entity, norm: string) returns (k: nat)
    ensures k + 14 <= |ExistsMessage(e, norm)| && ExistsMessage(e, norm)[k..k + 14] == "already exists"
  {
    var prefix := EntityName(e) + " code '" + norm + "' ";
    assert ExistsMessage(e, norm) == prefix + "already exists" + ".";
    k := |prefix|;
  }

  /** The validator over the table's `id -> code` rows. */
  function ValidateCodeUnique(e: Entity, code: string, codes: map<int, string>, excludeId: Option<int>): (r: Verdict)
    ensures IsBlank(code) ==> r == Verdict(false, EmptyMessage(e))
    ensures !IsBlank(code) && (exists id :: Conflicts(codes, id, Normalise(code), excludeId))
            ==> r == Verdict(false, ExistsMessage(e, Normalise(code)))
    ensures r.ok <==> !IsBlank(code) && forall id :: id in codes ==> !Conflicts(codes, id, Normalise(code), excludeId)
    ensures r.ok ==> r.message == ""
  {
    var norm := Normalise(code);
    if norm == [] then Verdict(false, EmptyMessage(e))
    else if exists id :: id in codes && Conflicts(codes, id, norm, excludeId) then Verdict(false, ExistsMessage(e, norm))
    else Verdict(true, "")
  }

  /** The code check of an `update_from_request` lets the body through: no
      code (missing or `None`), or a non-blank one that no other row holds. */
  predicate UpdateCodePasses(e: Entity, codes: map<int, string>, id: int, code: Values.Value) {
    Values.IsNone(code) || (code.Str? && !IsBlank(code.s) && ValidateCodeUnique(e, code.s, codes, Some(id)).ok)
  }

  /** An `exclude_id` of `0` behaves exactly like no `exclude_id`. */
  lemma ZeroExcludesNothing(e: Entity, code: string, codes: map<int, string>)
    ensures ValidateCodeUnique(e, code, codes, Some(0)) == ValidateCodeUnique(e, code, codes, None)
  {
    assert forall id :: Conflicts(codes, id, Normalise(code), Some(0)) <==> Conflicts(codes, id, Normalise(code), None);
  }

  /** A record never clashes with itself when it is excluded by a truthy id;
      without the exclusion it does clash with itself. */
  lemma SelfExclusion(e: Entity, codes: map<int, string>, id: int)
    requires id in codes && !IsBlank(codes[id])
    requires forall other :: other in codes && other != id ==> Upper(codes[other]) != Upper(Strip(codes[id]))
    ensures id != 0 ==> ValidateCodeUnique(e, codes[id], codes, Some(id)).ok
    ensures Unpadded(codes[id]) ==> !ValidateCodeUnique(e, codes[id], codes, None).ok
  {
    if Unpadded(codes[id]) {
      StripUnpadded(codes[id]);
      assert Conflicts(codes, id, Normalise(codes[id]), None);
    }
  }

  /** The college and the program validators differ only in their messages. */
  lemma EntitiesAgree(code: string, codes: map<int, string>, excludeId: Option<int>)
    ensures ValidateCodeUnique(CollegeEntity, code, codes, excludeId).ok
        == ValidateCodeUnique(ProgramEntity, code, codes, excludeId).ok
  {
  }

  /** The conflict message names the code upper-cased: "cs" against a stored "CS". */
  lemma ConflictMessageExample()
    ensures ValidateCodeUnique(CollegeEntity, " cs ", map[1 := "CS"], None)
         == Verdict(false, "College code 'CS' already exists.")
  {
    PaddedCsNormalises();
    assert Conflicts(map[1 := "CS"], 1, "CS", None);
    CollegeCsMessage();
  }

  lemma PaddedCsNormalises()
    ensures Normalise(" cs ") == "CS"
  {
    StripPadded(" ", "cs", " ");
    assert " " + "cs" + " " == " cs ";
  }

  lemma CollegeCsMessage()
    ensures ExistsMessage(CollegeEntity, "CS") == "College code 'CS' already exists."
  {
  }
}
