/** The database the services read and write, as three finite maps keyed by
    primary key, and the query vocabulary the listings share. */
module Store {
  import opened Common
  import opened Text

  datatype College = College(code: string, name: string)

  /** A program; `collegeId` is a nullable foreign key. */
  datatype Program = Program(collegeId: Option<int>, code: string, name: string)

  /** A student row; `photo` is the storage path of the uploaded picture. */
  datatype Student = Student(
    firstName: string,
    lastName: string,
    programId: Option<int>,
    yearLevel: int,
    gender: string,
    photo: Option<string>)

  datatype Db = Db(
    colleges: map<int, College>,
    programs: map<int, Program>,
    students: map<string, Student>)

  /** The `id -> code` rows the code-uniqueness query scans. */
  function CollegeCodes(db: Db): map<int, string> {
    map id | id in db.colleges :: db.colleges[id].code
  }

  function ProgramCodes(db: Db): map<int, string> {
    map id | id in db.programs :: db.programs[id].code
  }

  /** No two colleges share a code up to letter case. */
  predicate CollegeCodesDistinct(db: Db) {
    forall a, b :: a in db.colleges && b in db.colleges && a != b
      ==> Upper(db.colleges[a].code) != Upper(db.colleges[b].code)
  }

  /** No two programs share a code up to letter case. */
  predicate ProgramCodesDistinct(db: Db) {
    forall a, b :: a in db.programs && b in db.programs && a != b
      ==> Upper(db.programs[a].code) != Upper(db.programs[b].code)
  }

  /** `if not found` on the id the lookup returned: a row with id 0 reads as missing. */
  predicate CollegeFound(db: Db, id: int) {
    id in db.colleges && id != 0
  }

  /** The status a failed uniqueness check is reported with. */
  function UniquenessStatus(message: string): (s: int)
    ensures s == Conflict <==> Contains(Lower(message), "already exists")
    ensures s == Conflict || s == BadRequest
  {
    if Contains(Lower(message), "already exists") then Conflict else BadRequest
  }

  /** `column ILIKE '%search%'`, with the search text taken literally. */
  predicate ILike(value: string, search: string) {
    Contains(Lower(value), Lower(search))
  }

  /** `ORDER BY column ASC|DESC`, or no `ORDER BY` at all. */
  datatype Order<C> = Unordered | OrderBy(column: C, descending: bool)

  /** The rows that satisfy `keep`, in their original order. */
  function Filter<T>(rows: seq<T>, keep: T -> bool): (r: seq<T>)
    ensures |r| <= |rows|
    ensures forall i :: 0 <= i < |r| ==> keep(r[i])
    ensures multiset(r) <= multiset(rows)
    ensures forall i :: 0 <= i < |rows| && keep(rows[i]) ==> rows[i] in multiset(r)
  {
    if rows == [] then []
    else
      var rest := Filter(rows[1..], keep);
      FilterStep(rows, keep, rest);
      if keep(rows[0]) then [rows[0]] + rest else rest
  }

  /** One step of `Filter`: deciding the first row keeps the contract the
      rest of the rows already satisfy. */
  lemma FilterStep<T>(rows: seq<T>, keep: T -> bool, rest: seq<T>)
    requires rows != []
    requires |rest| <= |rows[1..]|
    requires forall i :: 0 <= i < |rest| ==> keep(rest[i])
    requires multiset(rest) <= multiset(rows[1..])
    requires forall i :: 0 <= i < |rows[1..]| && keep(rows[1..][i]) ==> rows[1..][i] in multiset(rest)
    ensures var r := if keep(rows[0]) then [rows[0]] + rest else rest;
      && |r| <= |rows|
      && (forall i :: 0 <= i < |r| ==> keep(r[i]))
      && multiset(r) <= multiset(rows)
      && (forall i :: 0 <= i < |rows| && keep(rows[i]) ==> rows[i] in multiset(r))
  {
    assert rows == [rows[0]] + rows[1..];
    var r := if keep(rows[0]) then [rows[0]] + rest else rest;
    forall i | 0 <= i < |rows| && keep(rows[i]) ensures rows[i] in multiset(r) {
      if i > 0 {
        assert rows[i] == rows[1..][i - 1];
      }
    }
    if keep(rows[0]) {
      assert multiset(r) == multiset{rows[0]} + multiset(rest);
      forall i | 0 <= i < |r| ensures keep(r[i]) {
        if i > 0 {
          assert r[i] == rest[i - 1];
        }
      }
    }
  }

  lemma {:induction false} FilterAll<T>(rows: seq<T>, keep: T -> bool)
    requires forall i :: 0 <= i < |rows| ==> keep(rows[i])
    ensures Filter(rows, keep) == rows
  {
    if rows != [] {
      FilterAll(rows[1..], keep);
      assert rows == [rows[0]] + rows[1..];
    }
  }

  /** Two filters that keep the same rows select the same rows. */
  lemma {:induction false} FilterAgrees<T>(rows: seq<T>, keep: T -> bool, keep': T -> bool)
    requires forall i :: 0 <= i < |rows| ==> keep(rows[i]) == keep'(rows[i])
    ensures Filter(rows, keep) == Filter(rows, keep')
  {
    if rows != [] {
      FilterAgrees(rows[1..], keep, keep');
    }
  }

  /** Text compared character by character, a prefix first. */
  predicate TextLe(a: string, b: string)
    decreases |a|
  {
    a == [] || (b != [] && (a[0] < b[0] || (a[0] == b[0] && TextLe(a[1..], b[1..]))))
  }

  /** The rows stand in an order `before` allows: each row may precede every
      later one. Ties may come in any order, as `ORDER BY` leaves them. */
  predicate OrderedBy<T>(rows: seq<T>, before: (T, T) -> bool) {
    forall i, j :: 0 <= i < j < |rows| ==> before(rows[i], rows[j])
  }

  /** The rows `Filter` keeps stay in the order they had. */
  lemma {:induction false} FilterKeepsOrder<T>(rows: seq<T>, keep: T -> bool, before: (T, T) -> bool)
    requires OrderedBy(rows, before)
    ensures OrderedBy(Filter(rows, keep), before)
  {
    if rows != [] {
      TailOrdered(rows, before);
      FilterKeepsOrder(rows[1..], keep, before);
      var rest := Filter(rows[1..], keep);
      if keep(rows[0]) {
        HeadPrecedesSubset(rows, rest, before);
        ConsOrdered(rows[0], rest, before);
      }
    }
  }

  lemma TailOrdered<T>(rows: seq<T>, before: (T, T) -> bool)
    requires rows != [] && OrderedBy(rows, before)
    ensures OrderedBy(rows[1..], before)
  {
    var tail := rows[1..];
    forall i, j | 0 <= i < j < |tail| ensures before(tail[i], tail[j]) {
      assert tail[i] == rows[i + 1] && tail[j] == rows[j + 1];
    }
  }

  /** The first row may precede every row drawn from the ones after it. */
  lemma HeadPrecedesSubset<T>(rows: seq<T>, rest: seq<T>, before: (T, T) -> bool)
    requires rows != [] && OrderedBy(rows, before)
    requires multiset(rest) <= multiset(rows[1..])
    ensures forall j :: 0 <= j < |rest| ==> before(rows[0], rest[j])
  {
    var tail := rows[1..];
    forall j | 0 <= j < |rest| ensures before(rows[0], rest[j]) {
      assert rest[j] in multiset(rest);
      assert rest[j] in tail;
      var k :| 0 <= k < |tail| && tail[k] == rest[j];
      assert rows[k + 1] == rest[j];
    }
  }

  lemma ConsOrdered<T>(x: T, rest: seq<T>, before: (T, T) -> bool)
    requires OrderedBy(rest, before)
    requires forall j :: 0 <= j < |rest| ==> before(x, rest[j])
    ensures OrderedBy([x] + rest, before)
  {
    var r := [x] + rest;
    forall i, j | 0 <= i < j < |r| ensures before(r[i], r[j]) {
      assert r[j] == rest[j - 1];
      if i > 0 {
        assert r[i] == rest[i - 1];
      }
    }
  }

  /** A window of ordered rows is ordered. */
  lemma SliceKeepsOrder<T>(rows: seq<T>, lo: int, hi: int, before: (T, T) -> bool)
    requires 0 <= lo <= hi <= |rows| && OrderedBy(rows, before)
    ensures OrderedBy(rows[lo..hi], before)
  {
    var w := rows[lo..hi];
    forall i, j | 0 <= i < j < |w| ensures before(w[i], w[j]) {
      assert w[i] == rows[lo + i] && w[j] == rows[lo + j];
    }
  }

  /** `[f(x) for x in rows]`. */
  function Map<T, U>(rows: seq<T>, f: T -> U): (r: seq<U>)
    ensures |r| == |rows|
    ensures forall i :: 0 <= i < |rows| ==> r[i] == f(rows[i])
  {
    if rows == [] then [] else [f(rows[0])] + Map(rows[1..], f)
  }

  /** Mapping the filtered rows yields the image of exactly the kept rows. */
  lemma MapOfFilter<T, U>(rows: seq<T>, keep: T -> bool, f: T -> U)
    ensures var r := Map(Filter(rows, keep), f);
      && (forall i :: 0 <= i < |r| ==> exists x :: x in rows && keep(x) && r[i] == f(x))
      && (forall x :: x in rows && keep(x) ==> f(x) in r)
  {
    MapOfFilterSound(rows, keep, f);
    MapOfFilterComplete(rows, keep, f);
  }

  lemma MapOfFilterSound<T, U>(rows: seq<T>, keep: T -> bool, f: T -> U)
    ensures var r := Map(Filter(rows, keep), f);
      forall i :: 0 <= i < |r| ==> exists x :: x in rows && keep(x) && r[i] == f(x)
  {
    var kept := Filter(rows, keep);
    var r := Map(kept, f);
    forall i | 0 <= i < |r|
      ensures exists x :: x in rows && keep(x) && r[i] == f(x)
    {
      var x := kept[i];
      assert x in multiset(kept);
      assert x in multiset(rows);
      assert x in rows && keep(x) && r[i] == f(x);
    }
  }

  lemma MapOfFilterComplete<T, U>(rows: seq<T>, keep: T -> bool, f: T -> U)
    ensures var r := Map(Filter(rows, keep), f);
      forall x :: x in rows && keep(x) ==> f(x) in r
  {
    var kept := Filter(rows, keep);
    var r := Map(kept, f);
    forall x | x in rows && keep(x)
      ensures f(x) in r
    {
      var k :| 0 <= k < |rows| && rows[k] == x;
      assert x in multiset(kept);
      var j :| 0 <= j < |kept| && kept[j] == x;
      assert r[j] == f(x);
    }
  }
}
