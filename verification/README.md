# Student information system: a Dafny model of its core

The system keeps three related records: colleges, degree programs that belong
to a college, and students who are enrolled in a program. A Flask backend
serves a small REST API over a relational store. A React front end lists,
searches, sorts and pages through each kind of record, and edits them in
add/edit dialogs. A student can also carry a photo kept in object storage.

This project models that core as pure Dafny functions over immutable data and
proves what the code promises. It covers these layers:

- **Backend services.** `CollegeService`, `ProgramService` and
  `StudentService` work on a `Store.Db` of three maps. Each operation returns
  an `Outcome` (`Done`, `Failed` with an HTTP status and message, or `Crashed`
  for an uncaught Python exception) together with the store after the call.
- **Backend validation.** `CodeUnique` models the uniqueness validators and
  `BackendSchemas` the request schemas.
- **Routes.** `Routes`, `CollegeRoutes`, `ProgramRoutes` and `StudentRoutes`
  cover query-string parsing, clamping, whitelists, body reading and the
  JSON envelope.
- **Pagination.** `Pagination` models the backend's page metadata and
  `LIMIT`/`OFFSET` slice.
- **Front-end services and schemas.** `QueryBuilders` models how the
  front-end services build URLs. `FrontendSchemas` models the form
  validators and the duplicate checks.
- **Front-end widgets.** `TablePagination` models the pagination bar.
  `ListPages` models the list pages' sort cycle, page windows, client-side
  slicing and navigation. `PortalSelect` models the keyboard and mouse
  handling of the custom select.
- **Dialogs.** `FormFlow`, `CollegeDialog`, `ProgramDialog` and
  `StudentDialog` model the three add/edit dialogs: what they validate, what
  they send, in which order, and where a server refusal is shown.

Python's dynamic values are a `Values.Value`:
- a missing key;
- `None`;
- a string, an int, a bool;
- a container.

This makes the code's `(x or "").strip()`, `data.get(k, "").strip()` and
`int(x)` idioms exact, including the cases where they raise.

The database is a parameter:
- new ids are supplied by the caller;
- `ILIKE` filtering is modelled by `Store.ILike`, applied by the model
  itself;
- for `ORDER BY`, the caller supplies the rows in the order the database
  returns them, and each service's `ListKeepsOrder` shows that the listing
  keeps the order `ListOrder` chooses.

## Model

| member | source | states |
|---|---|---|
| Text.Strip | backend/app/schemas/student.py:20-25 | the stripped text has no whitespace at either end, is no longer than the input, and is empty exactly when the input is all whitespace |
| Text.StripPadded | backend/app/schemas/student.py:20-25 | stripping removes exactly the surrounding whitespace: any whitespace-free-edged core padded with whitespace strips back to that core |
| Text.StripUnpadded | frontend/src/schemas/students.ts:13-17 | text with no surrounding whitespace is left unchanged by trimming |
| Text.StripIdempotent | frontend/src/schemas/students.ts:13-17 | trimming twice is trimming once |
| Text.StripIgnoresPadding | frontend/src/schemas/programs.ts:36 | whitespace added on either side does not change the trimmed text |
| Text.StripUpper | frontend/src/schemas/programs.ts:36-39 | trimming and upper-casing commute |
| Text.BlankIffAllSpace | backend/app/schemas/college.py:18-24 | a value is blank after stripping exactly when every character is whitespace |
| Text.Upper | backend/app/utils/validators.py:11 | upper-casing maps each character on its own and keeps the length |
| Text.Lower | backend/app/routes/colleges.py:36-37 | lower-casing maps each character on its own and keeps the length |
| Text.LowerNoCapitals | backend/app/routes/colleges.py:36-37 | lower-casing leaves text without capitals unchanged |
| Text.NoCapitalsOfLower | backend/app/routes/colleges.py:36-37 | conversely, text that lower-casing leaves unchanged has no capitals |
| Text.UpperIdempotent | backend/app/utils/validators.py:11-16 | a normalised (upper-cased) code upper-cases to itself, so `UPPER(code) = :code` compares like with like |
| Text.PyMatchOnStripped | backend/app/schemas/student.py:28-31 | on stripped input Python's `re.match` with `$` accepts exactly the anchored NNNN-NNNN ids (the trailing-newline allowance of `$` never applies) |
| Text.StudentIdUnpadded | backend/app/schemas/student.py:20-31 | a well-formed id has no surrounding whitespace, so the schema's strip keeps it |
| Text.StudentIdExamples | backend/app/schemas/student.py:30-31 | "2024-0001" has the id format; "2024-1" and "20240001" do not |
| Text.NatToString | frontend/src/services/collegeService.ts:32-37 | the decimal rendering of a number is a non-empty digit string whose value is that number, without leading zeros |
| Text.DigitPrefix | frontend/src/components/student/AddEditStudent.tsx:279-282 | the leading digit run is a prefix of the text made only of digits and followed by a non-digit or the end |
| Text.TrimStart | frontend/src/components/student/AddEditStudent.tsx:279-282 | `parseInt` skips exactly the leading whitespace: the result is a suffix, starts with a non-space, and only whitespace was dropped |
| Text.StripRendered | backend/app/routes/colleges.py:16-21 | a rendered integer has no surrounding whitespace |
| Text.PyParseIntRoundTrip | backend/app/routes/colleges.py:16-21 | Python's `int()` reads back every integer's decimal rendering |
| Text.JsParseIntRoundTrip | frontend/src/components/student/AddEditStudent.tsx:533-536 | `parseInt` reads back every integer's decimal rendering |
| Text.JsParseIntDigits | frontend/src/components/student/AddEditStudent.tsx:279-282 | `parseInt` of a bare digit run is its decimal value |
| Text.JsParseIntNegative | frontend/src/components/student/AddEditStudent.tsx:279-282 | a minus sign before a digit run negates the value `parseInt` reads |
| Values.PyInt | backend/app/schemas/student.py:41-44 | `int()` gives an int its own value and raises on `None` and on containers |
| Values.StripOrEmpty | backend/app/services/student_service.py:138-143 | `(x or "").strip()`: a falsy value gives "", a string is stripped, and a truthy non-string raises |
| Values.StripDefaultEmpty | backend/app/schemas/student.py:20-25 | `data.get(k, "").strip()`: only a missing key defaults to ""; an explicit `None` or any non-string raises |
| Values.StripIfPresent | backend/app/services/college_service.py:151-152 | `if x is not None: x.strip()`: absent and `None` mean not given, a string is stripped, anything else raises |
| Values.StripIfTruthy | backend/app/services/student_service.py:256-260 | `x.strip() if x else None`: a falsy value counts as not given, a truthy string is stripped, a truthy non-string raises |
| Values.PyIntOfRendered | backend/app/services/program_service.py:133 | `int()` reads back an id sent as its decimal rendering |
| Views.FindProgram | frontend/src/components/student/AddEditStudent.tsx:314-318 | finds the first program with the given id, and finds nothing exactly when no program has it |
| Store.UniquenessStatus | backend/app/services/college_service.py:117-124 | a failed uniqueness check is 409 exactly when its lower-cased message contains "already exists", and 400 otherwise |
| Store.Filter | backend/app/services/college_service.py:29-36 | a `WHERE` filter keeps only rows that satisfy it, keeps them as a sub-multiset of the input, and keeps every row that satisfies it |
| Store.FilterAgrees | backend/app/services/student_service.py:42-66 | two filters that agree on every row select the same rows |
| Store.FilterKeepsOrder | backend/app/services/college_service.py:46-60 | the rows a `WHERE` clause keeps stay in the order they had |
| Store.Map | backend/app/services/program_service.py:73-81 | mapping rows to items keeps their order and length |
| Store.MapOfFilterSound | backend/app/services/student_service.py:427 | every item of a filtered, mapped listing comes from a row that satisfies the filter |
| Store.MapOfFilterComplete | backend/app/services/student_service.py:427 | every row that satisfies the filter contributes its item |
| CodeUnique.Normalise | backend/app/utils/validators.py:11-13 | the normalised code is no longer than the given one and empty exactly when the given code is blank |
| CodeUnique.ValidateCodeUnique | backend/app/utils/validators.py:10-25 | a blank code is refused as empty; otherwise the code is accepted exactly when no stored row has that upper-cased code, apart from a row excluded by a truthy exclude id; a clash names the normalised code; acceptance carries no message |
| CodeUnique.ZeroExcludesNothing | backend/app/utils/validators.py:17-19 | an exclude id of 0 is falsy and excludes nothing, like no exclude id at all |
| CodeUnique.SelfExclusion | backend/app/utils/validators.py:17-23 | a record re-validated with its own non-zero id does not clash with itself, and without the exclusion it does |
| CodeUnique.EntitiesAgree | backend/app/utils/validators.py:28-43 | the college and program validators accept exactly the same codes |
| CodeUnique.ExistsMessageMentionsConflict | backend/app/utils/validators.py:22-23 | every clash message contains "already exists", so the services report it as 409 |
| CodeUnique.ConflictMessageExample | backend/app/utils/validators.py:11-23 | " cs " against a stored "CS" is refused with "College code 'CS' already exists." |
| BackendSchemas.FirstFailure | backend/app/schemas/student.py:28-60 | an ordered rule list reports the message of its first failing rule, or passes when none fails |
| BackendSchemas.FirstFailureAppend | backend/app/schemas/student.py:28-60 | rules after a failing one are never consulted |
| BackendSchemas.ValidateCollege | backend/app/schemas/college.py:18-26 | raises exactly when code or name is present but not a string; passes exactly when both are non-blank; a name error implies the code was fine |
| BackendSchemas.CollegeFirstErrorWins | backend/app/schemas/college.py:21-24 | the reported message is that of the first failing check, code before name |
| BackendSchemas.ValidateProgram | backend/app/schemas/program.py:8-29 | a falsy college id is refused with "College ID is required."; passes exactly when the college id is truthy and code and name are non-blank |
| BackendSchemas.ProgramFirstErrorWins | backend/app/schemas/program.py:22-27 | the first failing check in the order college, code, name is the one reported |
| BackendSchemas.ValidateStudent | backend/app/schemas/student.py:10-60 | raises exactly when a string field holds a non-string (or `None`); a pass means every field is valid |
| BackendSchemas.StudentFirstErrorWins | backend/app/schemas/student.py:28-58 | the reported message is that of the first failing rule in the order id, first name, last name, program, year, year range, gender |
| BackendSchemas.StudentPassIffValid | backend/app/schemas/student.py:28-60 | the schema passes exactly when the body is a valid student body |
| BackendSchemas.StudentIdMessages | backend/app/schemas/student.py:28-34 | "2024-1" gets the format message; a missing id gets the required message; a valid id moves on to the first-name check; a `None` id raises |
| FrontendSchemas.ValidateCollegeCreate | frontend/src/schemas/colleges.ts:10-24 | the code and name keys are present exactly when that field is missing or blank, and the errors are empty exactly when both are filled |
| FrontendSchemas.IsCollegeCodeDuplicate | frontend/src/schemas/colleges.ts:26-37 | a duplicate exactly when some college other than the excluded id has the trimmed code, ignoring case |
| FrontendSchemas.CollegeDuplicateExcludesSelf | frontend/src/schemas/colleges.ts:35 | an edited college never clashes with itself, and without the exclusion it clashes exactly when the codes match ignoring case |
| FrontendSchemas.ValidateProgramCreate | frontend/src/schemas/programs.ts:11-29 | the college key is present exactly when no college (or 0) is chosen; the code and name keys exactly when blank |
| FrontendSchemas.IsProgramCodeDuplicate | frontend/src/schemas/programs.ts:31-42 | a duplicate exactly when some program other than the excluded id has the trimmed code, ignoring case |
| FrontendSchemas.ProgramDuplicateOrderFree | frontend/src/schemas/programs.ts:31-42 | the answer depends only on which programs are listed, not their order, and an empty list has no duplicates |
| FrontendSchemas.DuplicateIgnoresCase | frontend/src/schemas/programs.ts:36-39 | two codes with the same upper-case form are duplicates of exactly the same programs: case is ignored |
| FrontendSchemas.DuplicateIgnoresPadding | frontend/src/schemas/programs.ts:36 | a code padded with whitespace on either side is a duplicate of exactly the programs the bare code is |
| FrontendSchemas.EditedRecordNoSelfClash | frontend/src/schemas/programs.ts:31-42 | with its own id excluded, a program never clashes with itself whatever code it is saved under, and a re-save clashes exactly when another program holds the code |
| FrontendSchemas.ValidateStudentCreate | frontend/src/schemas/students.ts:3-52 | one key per failing field, with the exact message: id required or wrong format, first and last name each required under their own key, program required, year required or out of range, gender required or not a choice |
| FrontendSchemas.StudentValidIffComplete | frontend/src/schemas/students.ts:3-52 | the validator reports no error exactly when the form is complete by an independent definition of a complete student form |
| FrontendSchemas.StudentIdExamples | frontend/src/schemas/students.ts:20-24 | "2024-0001" passes the id check and "2024-1" gets the format error |
| FrontendSchemas.IsStudentIdDuplicate | frontend/src/schemas/students.ts:54-64 | a duplicate exactly when some student other than the excluded one has exactly the trimmed id; an empty or missing exclude id exempts nobody |
| FrontendSchemas.StudentDuplicateExclusion | frontend/src/schemas/students.ts:62 | excluding the candidate's own id exempts it; an empty exclude id is the same as none |
| FrontendSchemas.StudentIdCaseSensitive | frontend/src/schemas/students.ts:54-64 | a student id is a duplicate exactly when some student's id equals the trimmed candidate, letter case included, while a college code is one exactly when some code matches ignoring case; so "a" does not clash with the id "A" but does with the code "A" |
| Pagination.TotalPages | backend/app/services/college_service.py:64-66 | a non-positive page size gives 1 page; otherwise the ceiling of rows over size, which is 0 exactly when there are no rows |
| Pagination.Meta | backend/app/services/college_service.py:68-80 | there is a next page exactly when the page is before the last, and a previous one exactly when it is after the first |
| Pagination.PageSlice | backend/app/services/college_service.py:54-55 | a negative `LIMIT` or `OFFSET` is refused; otherwise the rows from the offset on, at most `LIMIT` of them |
| Pagination.RowOnOnePage | backend/app/services/college_service.py:54-66 | every row lies on exactly one page, and that page is between 1 and the page count |
| Pagination.PastLastPageEmpty | backend/app/services/college_service.py:54-66 | the page after the last one is empty |
| Pagination.MetaExamples | backend/app/services/college_service.py:64-66 | no rows give 0 pages; 25 rows by 10 give 3 pages; a page size of 0 gives 1 page |
| Routes.Arg | backend/app/routes/colleges.py:28-33 | `request.args.get` finds the first value given for the key, and nothing exactly when the key is never given |
| Routes.ArgConcat | backend/app/routes/colleges.py:28-33 | in a joined query string the first occurrence of a key wins |
| Routes.IntArg | backend/app/routes/colleges.py:16-21 | a missing argument takes the integer default, a given one goes through `int()` |
| Routes.NormaliseOrder | backend/app/routes/colleges.py:36-37 | the order is "asc" or "desc", and "desc" exactly when the trimmed, lower-cased argument is "desc" |
| Routes.NormaliseSearchBy | backend/app/routes/colleges.py:40-41 | the search column is whitelisted; an unknown one becomes "all" |
| Routes.ReadListQuery | backend/app/routes/colleges.py:28-41 | the listing parameters are the trimmed sort and search texts, a normalised order and a whitelisted search column |
| Routes.NoArgsQuery | backend/app/routes/colleges.py:28-41 | a bare URL asks for no sort, ascending, no search, all columns |
| Routes.ReadBackQuery | backend/app/routes/colleges.py:28-41 | parameters sent already trimmed and lower-cased arrive unchanged |
| Routes.ReadBody | backend/app/routes/colleges.py:64 | `get_json() or {}`: an object is used as is, no body or a falsy value is `{}`, and a truthy non-object crashes the handler |
| Routes.Envelope | backend/app/routes/colleges.py:52-58 | a refusal becomes `{message}` with its status, a success the data with the route's status, a crash a 500 |
| Routes.EnvelopeSeparatesOutcomes | backend/app/routes/colleges.py:52-58 | the client sees the success status exactly when the service succeeded, and a message exactly when it refused |
| CollegeRoutes.ReadQuery | backend/app/routes/colleges.py:16-25 | the page is at least 1 and the size between 1 and 100; if either is not an integer both fall back to 1 and 10 |
| CollegeRoutes.BadPageResetsSize | backend/app/routes/colleges.py:16-21 | whenever the page is not an integer, the listing is page 1 with ten rows, whatever page size was asked for |
| CollegeRoutes.LargeSizeClamped | backend/app/routes/colleges.py:16-25 | every page size above 100 is served as 100, and the page asked for is kept |
| CollegeRoutes.List | backend/app/routes/colleges.py:12-58 | a listing answers 200 with the page and size it used and at most one page of rows |
| CollegeRoutes.Create | backend/app/routes/colleges.py:61-70 | answers 201 exactly when the service created the college; otherwise the store is unchanged |
| CollegeRoutes.Update | backend/app/routes/colleges.py:73-82 | answers 200 exactly when the service updated; an unknown id is 404; a refusal leaves the store unchanged |
| CollegeRoutes.Delete | backend/app/routes/colleges.py:85-93 | answers 204 with an empty body when the college existed, else 404 |
| ProgramRoutes.List | backend/app/routes/programs.py:31-39 | as written, the listing returns only the first ten matching items (see Findings) |
| ProgramRoutes.ListKeepsTen | backend/app/routes/programs.py:31-39 | with eleven programs and no arguments, only ten are returned |
| ProgramRoutes.ListEvery | backend/app/services/program_service.py:16-106 | the corrected listing returns every matching item |
| ProgramRoutes.ListEveryIsComplete | backend/app/services/program_service.py:16-106 | with no arguments the corrected listing returns one item per program and every program's item |
| ProgramRoutes.Create | backend/app/routes/programs.py:42-51 | answers 201 exactly when the service created the program; otherwise the store is unchanged |
| ProgramRoutes.Update | backend/app/routes/programs.py:54-63 | answers 200 exactly when the service updated; a refusal leaves the store unchanged |
| ProgramRoutes.Delete | backend/app/routes/programs.py:66-74 | answers 204 when the program existed, else 404 |
| StudentRoutes.List | backend/app/routes/students.py:12-39 | the listing returns exactly the items of the rows the service matched |
| StudentRoutes.FirstNameSearchArgs | backend/app/routes/students.py:22-29 | a first-name search query carries its search text and column |
| StudentRoutes.NameSearchListsEveryone | backend/app/routes/students.py:28-29 | as written, a `first_name`, `last_name` or `year_level` search passes the whitelist but lists every student (see Findings) |
| StudentRoutes.NameSearchBecomesAll | backend/app/routes/students.py:28-29 | the front end's "name" column is not whitelisted and becomes "all" (see Findings) |
| StudentRoutes.NameSearchArgs | frontend/src/services/studentsService.ts:11-18 | the front end's name search sends `search_by=name` |
| StudentRoutes.ListIntended | backend/app/services/student_service.py:42-66 | the corrected listing returns exactly the students the corrected search matches |
| StudentRoutes.FirstNameListing | backend/app/services/student_service.py:42-66 | with the correction, a first-name search lists only students whose first name contains the text, ignoring case |
| StudentRoutes.FirstNameReachesListing | backend/app/routes/students.py:20-29 | a first-name search request reaches the corrected listing as a first-name search with its text |
| StudentRoutes.IntendedNameReachesListing | frontend/src/services/studentsService.ts:11-18 | with "name" whitelisted, the front end's name search reaches the listing as a name search |
| StudentRoutes.Create | backend/app/routes/students.py:42-51 | answers 201 exactly when the service created the student; otherwise the store is unchanged |
| StudentRoutes.Update | backend/app/routes/students.py:54-63 | answers 200 exactly when the service updated; a refusal leaves the store unchanged |
| StudentRoutes.Delete | backend/app/routes/students.py:66-74 | answers 204 when the student existed, else 404 |
| StudentRoutes.ProgramsOfCollege | backend/app/routes/students.py:77-84 | answers exactly the programs of the given college |
| CollegeService.ListOrder | backend/app/services/college_service.py:47-51 | the listing is ordered exactly when the sort column is code or name, by that column, and descending exactly when asked for "desc" |
| CollegeService.SearchColumns | backend/app/services/college_service.py:29-36 | a search looks in the code, the name, or both for "all" |
| CollegeService.ListAll | backend/app/services/college_service.py:16-87 | fails with 500 exactly when the limit or offset is negative; otherwise the page slice of the matching rows, with metadata over their count |
| CollegeService.ListedRowsMatch | backend/app/services/college_service.py:29-36 | every listed college matches the search |
| CollegeService.ListKeepsOrder | backend/app/services/college_service.py:46-60 | rows in the order `ORDER BY` gives for the chosen column and direction are listed in that order |
| CollegeService.ListWithoutSearch | backend/app/services/college_service.py:29-66 | an empty search lists every college, and the pages cover them all |
| CollegeService.ListPage | backend/app/services/college_service.py:54-80 | with a page and size of at least 1, the listing succeeds, echoes both and fills at most one page |
| CollegeService.ListSucceeds | backend/app/services/college_service.py:43-80 | a usable page window succeeds and reports the number of matching rows |
| CollegeService.Create | backend/app/services/college_service.py:106-139 | succeeds exactly when code and name are non-blank strings and the code is unique; stores the trimmed record under the new id with 201; a refusal is 400 or 409 with the store unchanged |
| CollegeService.CreateDuplicateConflicts | backend/app/services/college_service.py:117-124 | creating a college whose code is taken is 409 with the clash message |
| CollegeService.CreatePreservesCodes | backend/app/services/college_service.py:106-139 | creation keeps college codes distinct (ignoring case) and trimmed |
| CollegeService.Update | backend/app/services/college_service.py:142-193 | an unknown id is 404; absent fields keep their value and given ones are stripped; a blank code is 400; a clash is 409 with the clash message; a blank name is 400; a non-string code or name crashes; it succeeds exactly when the id is stored, the code passes and the name is absent or non-blank; a refusal leaves the store unchanged |
| CollegeService.UpdatePreservesCodes | backend/app/services/college_service.py:142-193 | updating keeps college codes distinct and trimmed |
| CollegeService.UpdateKeepsCodesDistinct | backend/app/services/college_service.py:151-158 | after an update no two colleges share a code, ignoring case |
| CollegeService.UpdateKeepsCodesTrimmed | backend/app/services/college_service.py:151-152 | after an update every code is trimmed |
| CollegeService.EmptyUpdateIsIdentity | backend/app/services/college_service.py:175-177 | an update with no fields succeeds and changes nothing |
| CollegeService.ResendingOwnCode | backend/app/services/college_service.py:155 | re-sending its own code clashes for the college with id 0, which the falsy exclude id does not exclude |
| CollegeService.Delete | backend/app/services/college_service.py:196-208 | 204 exactly when the college exists, removing only that college |
| ProgramService.Join | backend/app/services/program_service.py:60-70 | a program joined with its college's code and name, when it has a stored college |
| ProgramService.Item | backend/app/services/program_service.py:73-81 | a listed program shows "Not Applicable" for the college name exactly when it has none |
| ProgramService.ListedCollegeName | backend/app/services/program_service.py:73-81 | the college column names the college exactly when the program refers to a stored college |
| ProgramService.ListOrder | backend/app/services/program_service.py:46-55 | the listing is ordered exactly when the sort column is code, name or college, by that column, and descending exactly when asked for "desc" |
| ProgramService.SearchColumns | backend/app/services/program_service.py:28-37 | a search looks in the code, name, college code, or all three |
| ProgramService.CollegeSearchSkipsUnassigned | backend/app/services/program_service.py:28-37 | a program without a college is never found by a college search |
| ProgramService.Items | backend/app/services/program_service.py:73-81 | one item per joined row, in order |
| ProgramService.ListAll | backend/app/services/program_service.py:16-106 | fails with 500 exactly when the limit or offset is negative; otherwise the page slice of the matching rows with metadata over their count |
| ProgramService.ListedRowsMatch | backend/app/services/program_service.py:28-37 | every listed program matches the search |
| ProgramService.ListKeepsOrder | backend/app/services/program_service.py:46-72 | a listed page is the items of consecutive matching rows, in the order `ORDER BY` gives, the college column sorting by `COALESCE(c.code, '')` |
| ProgramService.ListWithoutSearch | backend/app/services/program_service.py:28-85 | an empty search lists every program, and the pages cover them all |
| ProgramService.ListSucceeds | backend/app/services/program_service.py:57-85 | a usable page window succeeds and reports the number of matching rows |
| ProgramService.CreateCollegeId | backend/app/services/program_service.py:130-135 | `None` or "" is a missing college; anything else goes through `int()` |
| ProgramService.Create | backend/app/services/program_service.py:125-163 | crashes exactly when code or name is a truthy non-string; refusals in order: college missing (400), code or name blank (400), college unknown (404, and every filled-in body with an unknown college gets it), code taken (409 with the clash message); success stores the trimmed program under its college with 201 |
| ProgramService.CreateDuplicateConflicts | backend/app/services/program_service.py:141-149 | creating a program whose code another program holds, ignoring case and padding, is 409 with the clash message and leaves the store unchanged |
| ProgramService.CreateCheckOrder | backend/app/services/program_service.py:130-149 | whatever else is wrong with a body: a missing college is reported first, then a blank code or name, then an unknown college, then a taken code (409 with the clash message) |
| ProgramService.CreatePreservesInvariants | backend/app/services/program_service.py:125-163 | creation keeps codes distinct and trimmed and every program's college stored |
| ProgramService.CreateKeepsCodesDistinct | backend/app/services/program_service.py:145-148 | after creation no two programs share a code, ignoring case |
| ProgramService.CreateKeepsCodesTrimmed | backend/app/services/program_service.py:127-128 | after creation every program code is trimmed |
| ProgramService.UpdateCollegeId | backend/app/services/program_service.py:178-191 | an absent or `None` college id keeps the college, "" clears it, a stored college is set, anything else is 404 |
| ProgramService.UpdateFields | backend/app/services/program_service.py:193-209 | absent fields keep their value; given ones are stripped; a blank code is 400, a clash 409 with the clash message, a blank name 400; it crashes exactly when a given code or name is not a string; it succeeds exactly when the code passes and the name is absent or non-blank |
| ProgramService.Update | backend/app/services/program_service.py:166-228 | an unknown id is 404; the college, code and name change as given and nothing else; a clash is 409 with the clash message and a blank name 400; it succeeds exactly when the id is stored, the college is accepted, the code passes and the name is absent or non-blank; a refusal leaves the store unchanged |
| ProgramService.UpdatePreservesInvariants | backend/app/services/program_service.py:166-228 | updating keeps codes distinct and trimmed and every program's college stored |
| ProgramService.UpdateKeepsCodesDistinct | backend/app/services/program_service.py:193-202 | after an update no two programs share a code, ignoring case |
| ProgramService.UpdateKeepsCodesTrimmed | backend/app/services/program_service.py:193-209 | after an update every program code is trimmed |
| ProgramService.EmptyUpdateIsIdentity | backend/app/services/program_service.py:211-212 | an update with no fields succeeds and changes nothing |
| ProgramService.ClearingCollege | backend/app/services/program_service.py:181-183 | sending an empty college id unassigns the program |
| ProgramService.Delete | backend/app/services/program_service.py:231-242 | 204 exactly when the program exists, removing only that program |
| StudentService.Join | backend/app/services/student_service.py:69-99 | a student joined with its program's code and name, when the program is stored |
| StudentService.ToDict | backend/app/models/student.py:24-36 | a student without a program shows "Not Applicable" for both program name and code |
| StudentService.ListOrder | backend/app/services/student_service.py:69-99 | the listing is ordered exactly when the column is id, first name, last name, program, year level or gender, and descending exactly when asked for "desc" |
| StudentService.ListKeepsOrder | backend/app/services/student_service.py:69-105 | the listing is the dictionaries of the matching rows in the order `order_by` gives: text columns as text, the year as a number, the program by `coalesce(Program.name, '')` |
| StudentService.SearchColumns | backend/app/services/student_service.py:42-66 | all, id, name, program and gender have search columns ("name" meaning first and last name); any other column, or an empty search, filters nothing |
| StudentService.ListAll | backend/app/services/student_service.py:20-112 | the unpaginated listing is exactly the items of the rows that match the search |
| StudentService.UnfilteredSearchBy | backend/app/services/student_service.py:42-66 | as written, a first-name, last-name or year-level search lists every student |
| StudentService.IntendedColumns | backend/app/services/student_service.py:42-66 | the corrected search gives first name and last name their own column |
| StudentService.ListAllIntended | backend/app/services/student_service.py:42-66 | the corrected listing is exactly the items of the rows the corrected search matches |
| StudentService.IntendedFirstNameSearch | backend/app/services/student_service.py:42-66 | with the correction, a first-name search keeps exactly the students whose first name contains the text |
| StudentService.FirstNameSearchFinds | backend/app/services/student_service.py:42-66 | every student whose first name contains the text is listed |
| StudentService.FirstNameSearchKeeps | backend/app/services/student_service.py:42-66 | every listed student's first name contains the text |
| StudentService.FirstNameMatch | backend/app/services/student_service.py:42-66 | the corrected first-name match looks at the first name only, ignoring case |
| StudentService.IntendedAgreesElsewhere | backend/app/services/student_service.py:42-66 | for every other column the corrected listing is the listing as written |
| StudentService.MatchOnNormalised | backend/app/services/student_service.py:146-151 | on a normalised id `re.match` agrees with the anchored NNNN-NNNN pattern |
| StudentService.CreateProgram | backend/app/services/student_service.py:163-183 | `None` or "" is 400 "program required"; a non-integer is 400; an unknown program is 404; else the program id |
| StudentService.CheckYear | backend/app/services/student_service.py:186-199 | the year is accepted exactly when `int()` reads it and it lies in 1 to 5; otherwise 400 for not an integer or out of range |
| StudentService.Create | backend/app/services/student_service.py:128-232 | crashes exactly when a string field holds a truthy non-string; refusals in order: id format 400, id taken 409, the program's own refusal, the year's own refusal, a gender outside the choices; success stores stripped fields, no photo, 201 |
| StudentService.CreateCheckOrder | backend/app/services/student_service.py:146-183 | a body with only a well-formed id gets 409 if the id is taken, and otherwise the program refusal |
| StudentService.BlankNamesAccepted | backend/app/services/student_service.py:138-143 | the service itself stores blank first and last names without complaint |
| StudentService.CreatePreservesWellFormed | backend/app/services/student_service.py:128-232 | creation keeps every student with a well-formed id, a year in 1 to 5, an allowed gender, and a stored program or none |
| StudentService.UpdateProgram | backend/app/services/student_service.py:299-318 | an absent program is kept, "" clears it, and any other value is checked as on create |
| StudentService.UpdateYear | backend/app/services/student_service.py:320-335 | an absent year is kept; any other value is checked as on create |
| StudentService.ReadUpdate | backend/app/services/student_service.py:255-260 | a falsy first name counts as not provided, a new id is stripped, and program and year are passed on as given |
| StudentService.EmptyStringIsNotProvided | backend/app/services/student_service.py:256 | an empty first name leaves the stored one untouched |
| StudentService.BlankFirstName | backend/app/services/student_service.py:281-288 | a whitespace-only first name is refused with 400 |
| StudentService.Update | backend/app/services/student_service.py:235-381 | an unknown id is 404; a raising field crashes; a new id must be well formed (400) and free (409); then a blank first name and a blank last name are refused in that order; it succeeds exactly when the id change, the names and the columns all pass; success changes the given fields only, moves the record on rename and drops its photo, and leaves other students alone |
| StudentService.UpdateColumns | backend/app/services/student_service.py:299-374 | after the id and names pass, the program's refusal comes first, then the year's, then a gender outside the choices; it succeeds exactly when all three pass; a refusal leaves the store unchanged |
| StudentService.WriteBack | backend/app/services/student_service.py:348-374 | the patched record is stored under its (possibly new) key, the old key is gone on rename, and other students are untouched |
| StudentService.UpdatePreservesWellFormed | backend/app/services/student_service.py:235-381 | updating keeps every student with a well-formed id, a year in 1 to 5, an allowed gender, and a stored program or none |
| StudentService.RenameIsMove | backend/app/services/student_service.py:348-367 | a successful rename stores what the same update without the rename would store, moved to the new key and without the photo |
| StudentService.Delete | backend/app/services/student_service.py:384-413 | 204 exactly when the student exists, removing only that student |
| StudentService.ProgramsByCollege | backend/app/services/student_service.py:416-438 | the programs of a college, as a filtered listing |
| StudentService.ProgramsOfCollegeSound | backend/app/services/student_service.py:427 | every returned program belongs to the college |
| StudentService.ProgramsOfCollegeComplete | backend/app/services/student_service.py:427 | every program of the college is returned |
| QueryBuilders.CollegeParams | frontend/src/services/collegeService.ts:13-20 | sort and order are sent together or not at all, as are search and its column; the order defaults to asc |
| QueryBuilders.CollegeListUrl | frontend/src/services/collegeService.ts:21-22 | the URL has a query string exactly when a sort or a search is given |
| QueryBuilders.CollegeArgs | frontend/src/services/collegeService.ts:13-20 | the backend reads back the sort column and search text sent; the order only with a sort (asc by default); the column only with a search ("all" otherwise) |
| QueryBuilders.CollegeSortArgs | frontend/src/services/collegeService.ts:13-16 | with a sort column, the backend reads back the order sent with it |
| QueryBuilders.CollegeSearchArgs | frontend/src/services/collegeService.ts:17-20 | with a search text, the backend reads back the column sent with it |
| QueryBuilders.CollegeQueryRoundTrip | frontend/src/services/collegeService.ts:6-24 | the listing query the backend reads is the one the colleges page asked for |
| QueryBuilders.CollegeUrl | frontend/src/services/collegeService.ts:32-41 | a non-negative id in a college's URL reads back as that id |
| QueryBuilders.ProgramUrl | frontend/src/services/programService.ts:30-39 | a non-negative id in a program's URL reads back as that id |
| QueryBuilders.ProgramsOfCollegeUrl | frontend/src/services/studentsService.ts:36-38 | a non-negative college id in the programs-of-college URL reads back as that id |
| QueryBuilders.StudentUrl | frontend/src/services/studentsService.ts:28-34 | a student's URL is `/students/` followed by the id unchanged, with no query |
| QueryBuilders.PathId | frontend/src/services/collegeService.ts:32-41 | the backend's `<int:id>` path segment yields only non-negative ids |
| QueryBuilders.RenderedPathId | frontend/src/services/programService.ts:30-39 | every non-negative id's rendering reads back as that id |
| QueryBuilders.IndependentParams | frontend/src/services/programService.ts:14-17 | each argument is present exactly when given, `search_by` exactly when it is not "all", and at most four pairs are sent |
| QueryBuilders.ProgramListUrl | frontend/src/services/programService.ts:20 | the programs URL always carries a `?`, even with no parameters |
| QueryBuilders.StudentListUrl | frontend/src/services/studentsService.ts:20 | the students URL always carries a `?`, even with no parameters |
| QueryBuilders.NormalisedOrder | backend/app/routes/programs.py:17-25 | an order the front end sends is read back unchanged |
| QueryBuilders.NormalisedSearchBy | backend/app/routes/programs.py:28-29 | a whitelisted column the front end sends is read back unchanged |
| QueryBuilders.IndependentQuery | frontend/src/services/programService.ts:6-22 | the backend reads back the sort, order, search and column the parameters carry |
| QueryBuilders.ProgramQueryRoundTrip | frontend/src/services/programService.ts:6-22 | the listing query the backend reads is the one the programs page asked for |
| QueryBuilders.StudentQueryRoundTrip | frontend/src/services/studentsService.ts:7-22 | the students page's query reads back unchanged, except that the "name" column becomes "all" |
| QueryBuilders.StudentSearchByAllowed | frontend/src/services/studentsService.ts:11 | of the front end's columns, only "name" is outside the backend whitelist |
| TablePagination.AtLeastOnePage | frontend/src/components/ui/table-pagination.tsx:21 | a count of 0 pages is shown as 1, and any other count is kept |
| TablePagination.DisplayPages | frontend/src/components/ui/table-pagination.tsx:21 | at least one page, enough pages for every row, and exactly one when the rows fit on one page |
| TablePagination.MorePagesThanOne | frontend/src/components/ui/table-pagination.tsx:21 | a second page exists exactly when the rows overflow the first |
| TablePagination.StartEntry | frontend/src/components/ui/table-pagination.tsx:22 | "showing from" is 0 without rows and otherwise the first row of the page |
| TablePagination.EndEntry | frontend/src/components/ui/table-pagination.tsx:23 | "showing to" is the page's last row, capped at the total |
| TablePagination.EntriesMatchSlice | frontend/src/components/ui/table-pagination.tsx:22-23 | the "showing from–to" range counts exactly the rows on the page |
| TablePagination.VisibleWindow | frontend/src/components/ui/table-pagination.tsx:26-48 | the page-number window lies within 1 to the page count, holds min(5, pages) consecutive pages, and contains the current page |
| TablePagination.VisiblePages | frontend/src/components/ui/table-pagination.tsx:26-48 | the loop lists exactly the window's pages in order |
| TablePagination.ButtonsFor | frontend/src/components/ui/table-pagination.tsx:81-140 | a first-page button exactly when the window starts after 1, an ellipsis exactly when it starts after 2, and the same at the end |
| TablePagination.EveryPageReachable | frontend/src/components/ui/table-pagination.tsx:81-140 | every page from 1 to the count has a button or lies under an ellipsis |
| TablePagination.NoDuplicateButtons | frontend/src/components/ui/table-pagination.tsx:81-140 | no page number gets two buttons |
| TablePagination.Render | frontend/src/components/ui/table-pagination.tsx:53-151 | no controls for one page; Previous goes to max(1, p−1) and is disabled on page 1 or while loading; Next goes to min(pages, p+1) and is disabled on the last page, without rows, or while loading |
| TablePagination.NavigationStaysInRange | frontend/src/components/ui/table-pagination.tsx:69-151 | both arrows target a page within range, and an enabled arrow moves exactly one page |
| TablePagination.NextDisabledOnlyOnLastPage | frontend/src/components/ui/table-pagination.tsx:142-151 | with rows and not loading, Next is disabled exactly on the last page |
| ListPages.NextSort | frontend/src/pages/StudentsPage.tsx:207-221 | a click on the sorted column turns ascending into descending and descending into unsorted; another column starts ascending |
| ListPages.SortCycle | frontend/src/pages/StudentsPage.tsx:207-221 | three clicks on the same column return to unsorted |
| ListPages.RequestedSort | frontend/src/pages/StudentsPage.tsx:96-120 | an order is requested only together with a sort column |
| ListPages.Step | frontend/src/pages/StudentsPage.tsx:387-400 | a sort returns the students page to page 1 but keeps the colleges page's page; changing the page size or search column returns to page 1 |
| ListPages.SortResetDiffers | frontend/src/pages/CollegesPage.tsx:159-172 | from a later page, a sort resets the students page but not the colleges page |
| ListPages.PageNumbers | frontend/src/pages/StudentsPage.tsx:416-434 | the page list holds min(3, pages) consecutive pages within range, including the current one |
| ListPages.UpTo | frontend/src/pages/StudentsPage.tsx:420-423 | the full page list is 1 to n, in order |
| ListPages.WindowsAgreeInTheMiddle | frontend/src/pages/CollegesPage.tsx:298-316 | away from the ends, the three-page list lies inside the five-page window |
| ListPages.JsSlice | frontend/src/pages/CollegesPage.tsx:251-254 | within bounds `slice` is the ordinary slice, and it is never longer than the rows |
| ListPages.VisibleRows | frontend/src/pages/CollegesPage.tsx:251-254 | the client-side page holds at most one page of rows |
| ListPages.VisibleRowsArePage | frontend/src/pages/CollegesPage.tsx:251-254 | the client-side page equals the backend's `LIMIT`/`OFFSET` page |
| ListPages.CollegeNav | frontend/src/pages/CollegesPage.tsx:329-356 | Previous is disabled on page 1, while loading or without rows; Next on the last page, without rows or while loading |
| ListPages.CollegeNavWithinPages | frontend/src/pages/CollegesPage.tsx:329-356 | with rows and not loading, an arrow is enabled exactly when its target page exists |
| ListPages.ProgramCell | frontend/src/pages/StudentsPage.tsx:289-294 | the program cell shows the row's program code, else the loaded program's code, else "Not Applicable" |
| ListPages.StudentsPageCount | frontend/src/pages/StudentsPage.tsx:411 | the students page's count is the backend count raised to 1, the same as the pagination bar's |
| PortalSelect.WalkVisits | frontend/src/components/ui/portal-select.tsx:120-139 | the arrow loop passes the options in turn and stops at the first enabled one; running out of fuel means every passed option was disabled |
| PortalSelect.VisitsEveryOption | frontend/src/components/ui/portal-select.tsx:120-139 | within one lap, the loop's turns reach every option |
| PortalSelect.VisitInRange | frontend/src/components/ui/portal-select.tsx:120-139 | every turn of the loop stands on an option |
| PortalSelect.ArrowHangsIffAllDisabled | frontend/src/components/ui/portal-select.tsx:120-139 | the arrow loop never ends exactly when there are options and all are disabled |
| PortalSelect.ArrowLandsOnNextEnabled | frontend/src/components/ui/portal-select.tsx:120-139 | otherwise it lands on the next enabled option in the direction of the key, wrapping around |
| PortalSelect.ArrowOnEmptyList | frontend/src/components/ui/portal-select.tsx:120-139 | with no options, Down highlights 0 and Up −1 |
| PortalSelect.ArrowLoop | frontend/src/components/ui/portal-select.tsx:120-139 | when some option is enabled (or there are none) the loop ends on the index the walk lands on, an enabled option |
| PortalSelect.OnKey | frontend/src/components/ui/portal-select.tsx:114-154 | keys are ignored while closed; Escape closes; Enter picks the highlighted option only if enabled, and closes; an arrow freezes exactly when its loop never ends, and otherwise moves the highlight to where the loop lands, keeping the list open and emitting nothing |
| PortalSelect.ArrowHighlightsEnabled | frontend/src/components/ui/portal-select.tsx:120-139 | with an enabled option in an open list, an arrow key keeps the list open, emits nothing and highlights an enabled option |
| PortalSelect.EnterSelectsIffEnabled | frontend/src/components/ui/portal-select.tsx:140-150 | Enter reports a choice exactly when the highlighted option exists and is enabled |
| PortalSelect.Hover | frontend/src/components/ui/portal-select.tsx:222 | hovering an option of the open list highlights it, disabled or not |
| PortalSelect.HoverThenEnter | frontend/src/components/ui/portal-select.tsx:140-150 | Enter after hovering an option picks that option exactly when it is enabled, and closes the list |
| PortalSelect.FindIndex | frontend/src/components/ui/portal-select.tsx:157-170 | the first option with the value, or −1 exactly when none has it |
| PortalSelect.SelectedLabel | frontend/src/components/ui/portal-select.tsx:172-173 | the chosen option's label, or the placeholder when nothing matches or the label is empty |
| PortalSelect.Toggle | frontend/src/components/ui/portal-select.tsx:175-178 | a disabled select does not open; opening highlights the current value |
| PortalSelect.Select | frontend/src/components/ui/portal-select.tsx:180-185 | a disabled option is ignored; an enabled one is reported and closes the list |
| PortalSelect.OnMouseDown | frontend/src/components/ui/portal-select.tsx:98-111 | the list stays open exactly when it was open and the press is on the button or the list; the highlight is kept |
| PortalSelect.OpenThenEnterKeepsValue | frontend/src/components/ui/portal-select.tsx:140-170 | opening and pressing Enter re-selects the current, enabled value |
| FormFlow.MentionsInside | frontend/src/components/college/AddEditCollege.tsx:112-115 | a message containing a word is found by the lower-cased phrase test, whatever the case around it |
| FormFlow.MentionsIgnoresCase | frontend/src/components/college/AddEditCollege.tsx:112-115 | the phrase test classifies an upper-cased message like the original |
| FormFlow.NotMentioned | frontend/src/components/college/AddEditCollege.tsx:112-115 | a phrase whose first two letters never occur together is not found |
| CollegeDialog.ServerErrors | frontend/src/components/college/AddEditCollege.tsx:109-122 | a message mentioning "already exists" is shown on the code field as the duplicate text; anything else is a general error, verbatim |
| CollegeDialog.Submit | frontend/src/components/college/AddEditCollege.tsx:64-126 | validation errors or a local duplicate send nothing; otherwise one write (update exactly when editing) with the trimmed payload, then close and refresh on success, or the server's error |
| CollegeDialog.SentPayloadPassesSchema | frontend/src/components/college/AddEditCollege.tsx:95-104 | every body the dialog sends passes the backend's college schema |
| CollegeDialog.PayloadPassesSchema | frontend/src/components/college/AddEditCollege.tsx:95-104 | a form that passes the front-end validation yields a payload the backend schema accepts |
| CollegeDialog.ReopenedUnchangedSaves | frontend/src/components/college/AddEditCollege.tsx:40-91 | reopening a stored college and saving without changes passes validation and the duplicate check |
| CollegeDialog.ServerConflictShownOnCode | frontend/src/components/college/AddEditCollege.tsx:112-115 | the backend's clash refusal is shown on the code field |
| CollegeDialog.OtherRefusalsAreGeneral | frontend/src/components/college/AddEditCollege.tsx:116-120 | the backend's "College not found." refusal is a general error, verbatim |
| ProgramDialog.Placement | frontend/src/components/program/AddEditProgram.tsx:128-146 | a refusal goes to the code field when it mentions a clash, to the college field when it mentions a college, else it is general |
| ProgramDialog.ServerErrors | frontend/src/components/program/AddEditProgram.tsx:128-146 | a clash is shown on the code field as the dialog's duplicate text; other messages verbatim, on the field their wording selects |
| ProgramDialog.Submit | frontend/src/components/program/AddEditProgram.tsx:78-149 | validation errors or a local duplicate send nothing; otherwise one write with the trimmed payload and a chosen college, then close and refresh, or the server's error |
| ProgramDialog.SentPayloadPassesSchema | frontend/src/components/program/AddEditProgram.tsx:110-124 | every body the dialog sends passes the backend's program schema |
| ProgramDialog.PayloadPassesSchema | frontend/src/components/program/AddEditProgram.tsx:110-124 | a form that passes the front-end validation yields a payload the backend schema accepts |
| ProgramDialog.ReopenedUnchangedSaves | frontend/src/components/program/AddEditProgram.tsx:50-106 | reopening a program that has a college and saving without changes gets past validation and the duplicate check |
| ProgramDialog.ReopenedWithoutCollegeIsBlocked | frontend/src/components/program/AddEditProgram.tsx:50-93 | a program without a college cannot be re-saved until a college is chosen |
| ProgramDialog.ServerConflictShownOnCode | frontend/src/components/program/AddEditProgram.tsx:132-136 | the backend's clash refusal is shown on the code field |
| ProgramDialog.MissingCollegeShownOnCollege | frontend/src/components/program/AddEditProgram.tsx:137-140 | the backend's "College not found." refusal is shown on the college field |
| ProgramDialog.MissingProgramIsGeneral | frontend/src/components/program/AddEditProgram.tsx:141-144 | the backend's "Program not found." refusal is a general error |
| StudentDialog.StoredPhoto | frontend/src/components/student/AddEditStudent.tsx:117-191 | an empty stored photo path counts as no photo |
| StudentDialog.Open | frontend/src/components/student/AddEditStudent.tsx:117-191 | creating starts blank; editing copies the student, keeps a staged file, and either leaves the choices to the college or offers the student's program (or a placeholder for an unknown one) |
| StudentDialog.LoadOptions | frontend/src/components/student/AddEditStudent.tsx:91-115 | with a college, its fetched programs (none on failure); without one, at most the edited student's own loaded program |
| StudentDialog.ProgramCode | frontend/src/components/student/AddEditStudent.tsx:314-318 | the chosen program's code from the choices, else from all programs, else "" |
| StudentDialog.EditOffersCurrentProgram | frontend/src/components/student/AddEditStudent.tsx:150-161 | editing a student whose program is unknown or has no college offers exactly that program, and a save sends its code |
| StudentDialog.ReloadDropsPlaceholder | frontend/src/components/student/AddEditStudent.tsx:150-195 | the placeholder for an unknown program is dropped once the college effect runs without a college |
| StudentDialog.ChooseCollege | frontend/src/components/student/AddEditStudent.tsx:533-536 | choosing a college changes only the college selection: none for "", else the parsed id |
| StudentDialog.ChoosingCollegeKeepsProgram | frontend/src/components/student/AddEditStudent.tsx:533-536 | picking a college option selects that college and keeps the chosen program |
| StudentDialog.PickFile | frontend/src/components/student/AddEditStudent.tsx:205-217 | a picked file replaces the staged one and cancels a pending removal; photo and general errors are cleared |
| StudentDialog.RemoveNow | frontend/src/components/student/AddEditStudent.tsx:230-240 | removal drops the staged file and marks a stored photo for clearing |
| StudentDialog.RemoveClick | frontend/src/components/student/AddEditStudent.tsx:219-228 | with a stored photo and nothing staged, removal asks for confirmation first; otherwise it happens at once |
| StudentDialog.ConfirmRemoval | frontend/src/components/student/AddEditStudent.tsx:243-259 | confirming while editing deletes the stored object at once and forgets it, and still marks the column for clearing |
| StudentDialog.YearValue | frontend/src/components/student/AddEditStudent.tsx:279-282 | a number passes as is, an empty text is undefined, other text goes through `parseInt` (NaN when it fails) |
| StudentDialog.Gate | frontend/src/components/student/AddEditStudent.tsx:267-307 | the form goes through exactly when the photo is an image of at most 5 MiB, the form is complete and the id is free; otherwise the first failing check's errors |
| StudentDialog.PayloadFor | frontend/src/components/student/AddEditStudent.tsx:314-335 | the payload carries trimmed, valid fields, the chosen program's code, and `photo: ""` exactly when an edit removed the stored photo without a new file |
| StudentDialog.PayloadPassesSchema | frontend/src/components/student/AddEditStudent.tsx:321-348 | every payload the dialog sends passes the backend's student schema |
| StudentDialog.BodyPassesSchema | frontend/src/components/student/AddEditStudent.tsx:321-329 | a payload with valid, trimmed fields is a body the backend schema accepts |
| StudentDialog.Placement | frontend/src/components/student/AddEditStudent.tsx:380-389 | a refusal goes to the id field exactly when it mentions a clash or the id format, else it is general |
| StudentDialog.ServerErrors | frontend/src/components/student/AddEditStudent.tsx:380-389 | the server's message, verbatim, on the field its wording selects |
| StudentDialog.PhotoPhase | frontend/src/components/student/AddEditStudent.tsx:351-376 | with a file and a target id: upload first, then attach; if either throws, delete what was uploaded and show a general error |
| StudentDialog.Failure | frontend/src/components/student/AddEditStudent.tsx:366-376 | a failed photo step keeps its calls and shows a general error |
| StudentDialog.WriteCall | frontend/src/components/student/AddEditStudent.tsx:340-348 | an edit sends an update to the edited student's id and a new student is created; either way the payload is the form's trimmed payload, and only an update may carry `photo: ""` |
| StudentDialog.Submit | frontend/src/components/student/AddEditStudent.tsx:262-392 | nothing is sent unless the gate passes; the write comes first; a failed write is the only call; the dialog closes exactly when no error is left |
| StudentDialog.Save | frontend/src/components/student/AddEditStudent.tsx:340-392 | a failed write shows the server's error; a successful one goes on to the photo phase |
| StudentDialog.Finish | frontend/src/components/student/AddEditStudent.tsx:351-379 | after a successful write, close and refresh exactly when the photo phase left no error |
| StudentDialog.UploadFollowsWrite | frontend/src/components/student/AddEditStudent.tsx:340-376 | a photo is uploaded only as the second call, after a write that succeeded |
| StudentDialog.AttachFailureCleansUp | frontend/src/components/student/AddEditStudent.tsx:351-376 | an upload is followed by the call that attaches it; if that call fails, the uploaded object is deleted, the dialog stays open and shows a general error |
| StudentDialog.PhotoFollowsRenamedId | frontend/src/components/student/AddEditStudent.tsx:351-365 | the photo is attached to the id the server reports, so a renamed student gets it under the new id |
| StudentDialog.ConfirmedRemovalClearsColumn | frontend/src/components/student/AddEditStudent.tsx:243-259 | a confirmed removal while editing deletes the object now and also asks the server to clear the column on save |
| StudentDialog.NewFileCancelsRemoval | frontend/src/components/student/AddEditStudent.tsx:205-217 | picking a new file after a removal sends no `photo` clearing |
| StudentDialog.ConflictShownOnId | frontend/src/components/student/AddEditStudent.tsx:380-389 | the backend's id clash refusal is shown on the id field |
| StudentDialog.FormatShownOnId | frontend/src/components/student/AddEditStudent.tsx:380-389 | the backend's id format refusal is shown on the id field |
| StudentDialog.OtherRefusalsAreGeneral | frontend/src/components/student/AddEditStudent.tsx:380-389 | the backend's "program required" refusal is a general error |

## Left out

- Whitespace and letter case are ASCII only. Python's `strip`/`upper`/`lower` and JavaScript's `trim`/`toUpperCase`/`toLowerCase` also treat non-ASCII whitespace and letters.
- Text.Strip: the whitespace is the ASCII set JavaScript's `trim` removes. Python's `strip` also removes the separators `\x1c`-`\x1f`, so a field holding only such a character is blank to the backend but not to the model or the front end. The lemmas that relate the front-end schemas to the backend checks hold only for the modelled whitespace.
- Routes.ReadBody: a missing or unparsable body is read as `{}`, which is what `get_json() or {}` does in Flask before 2.1. Newer Flask refuses a request that is not JSON with 415 or 400 before the handler runs. The Flask version is not part of this model, so the older reading is modelled.
- Python's `\d` in the id pattern also matches non-ASCII decimal digits; the model accepts ASCII digits only.
- Python `int()` also accepts `_` digit separators and floats (it truncates `2.7`). Floats are not part of the value model, and strings with separators are treated as non-integers.
- `ILIKE` wildcards, database collation, and the order of `ORDER BY` ties are not modelled. Text is ordered by character code (`Store.TextLe`). The caller supplies the rows in the order the database would return them, and `ListKeepsOrder` shows that each listing keeps it.
- PortalSelect.Hover: whether a browser delivers `mouseenter` to a disabled option button is not modelled; the handler itself ignores `disabled`.
- Foreign-key behaviour when a college or program is deleted is not modelled; the DDL is not part of this model. A delete removes the one record.
- Database errors such as an `IntegrityError` or a rollback in the services' `except` branches are not modelled. The one failure path that is modelled is the listing's 500 for a negative `LIMIT`/`OFFSET`.
- Authentication, the Supabase client, the storage helper's internals, the login pages and the database setup/seed scripts are outside the core.
- Each route is modelled against its own service. No mismatch between route and service signatures is modelled.
- The backend student update ignores a `photo` field, while the dialog sends `photo: ""` and attaches photos with `{photo}`. The model follows each side as written and does not reconcile them.
- PortalSelect: the dropdown's position, its scroll-into-view, and its focus handling are not modelled. `updatePosition` depends on the layout.
- PortalSelect.OnKey: the arrow keys are ignored while the list is closed, as the component's handler does.
- PortalSelect.OnMouseDown: a missing DOM ref is not modelled. A press is classified only as on the button, on the list or elsewhere.
- PortalSelect.ArrowLoop: the loop is bounded by a fuel of one lap plus one. Past that the model reports a hang, which is exactly the all-disabled case.
- StudentDialog.ChooseCollege: a value `parseInt` cannot read becomes `None`, so NaN and null are conflated.
- Timers, debouncing of the search box, React effect scheduling, preview URLs and the `submitting` flags are not modelled. The dialogs are modelled as the order of their calls.
- StudentDialog.ConfirmRemoval: a failure of the immediate storage delete is ignored, as in the component. The model does not represent it.
- Percent-encoding of query values by `URLSearchParams` is not modelled. Query strings are modelled as decoded pairs.
- ListPages.Step: the per-page select's `parseInt` is not modelled. The new size arrives as a number.
- Pagination.RowOnOnePage: stated for a page size of at least 1, which the routes guarantee by clamping.
- StudentRoutes.ListIntended: the corrected search gives first and last name their own columns. `year_level` stays unfiltered, because the intended text match on a number is not evident from the code.

## Findings

| source | as written | input that shows it | evidently intended | confidence | as-written member | corrected member |
|---|---|---|---|---|---|---|
| backend/app/routes/programs.py:31-39 | the programs route asks the service for page 1 with its default size of 10 and returns only `data`, so the listing never shows more than ten programs and offers no way to reach the rest | a store with eleven programs: the eleventh is never listed | every matching program is listed | not executed | ProgramRoutes.ListKeepsTen | ProgramRoutes.ListEveryIsComplete |
| backend/app/routes/students.py:28-29 | the route whitelists `first_name`, `last_name` and `year_level`, but the service has no search clause for them, so such a search lists every student; the front end's `name` column is not whitelisted at all and becomes `all` | `search=Ana&search_by=first_name` lists a student named "Ben" | a first-name search lists only students whose first name contains the text | not executed | StudentRoutes.NameSearchListsEveryone | StudentRoutes.FirstNameListing |
