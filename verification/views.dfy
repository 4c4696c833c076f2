/** The records the frontend receives from the API and keeps in component
    state (the TypeScript interfaces `College`, `Program` and `Student`). */
module Views {
  import opened Common

  datatype CollegeView = CollegeView(id: int, code: string, name: string)

  /** A program as listed; `collegeId` is `null` for a program without a college. */
  datatype ProgramView = ProgramView(
    id: int,
    collegeId: Option<int>,
    collegeName: string,
    collegeCode: string,
    code: string,
    name: string)

  /** A student as listed, with the program's code and name denormalised onto it. */
  datatype StudentView = StudentView(
    id: string,
    firstName: string,
    lastName: string,
    programId: Option<int>,
    programName: string,
    programCode: string,
    yearLevel: int,
    gender: string,
    photo: Option<string>)

  /** `Array.prototype.find` by id: the first record with that id. */
  function FindProgram(programs: seq<ProgramView>, id: Option<int>): (r: Option<ProgramView>)
    ensures r.Some? ==> r.value in programs && Some(r.value.id) == id
    ensures r.None? ==> forall i :: 0 <= i < |programs| ==> Some(programs[i].id) != id
    ensures r.Some? ==> exists i :: 0 <= i < |programs| && programs[i] == r.value
                          && forall j :: 0 <= j < i ==> Some(programs[j].id) != id
  {
    if programs == [] then None
    else if Some(programs[0].id) == id then Some(programs[0])
    else
      var r := FindProgram(programs[1..], id);
      assert r.Some? ==> exists i :: 0 <= i < |programs| && programs[i] == r.value
                          && forall j :: 0 <= j < i ==> Some(programs[j].id) != id by {
        if r.Some? {
          var k :| 0 <= k < |programs[1..]| && programs[1..][k] == r.value
                    && forall j :: 0 <= j < k ==> Some(programs[1..][j].id) != id;
          assert programs[k + 1] == r.value;
          assert forall j :: 0 <= j < k + 1 ==> Some(programs[j].id) != id by {
            forall j | 0 <= j < k + 1 ensures Some(programs[j].id) != id {
              if j > 0 { assert programs[j] == programs[1..][j - 1]; }
            }
          }
        }
      }
      r
  }
}
