// Abstract views of the tables behind the handlers and of the statements the
// handlers run against them. The handlers themselves only see a statement's
// outcome (module Http); these functions say which outcome each statement has
// on a given table and what the table is afterwards.

module Tables {
  import opened Wrappers
  import opened Js
  import opened Http

  /** The range of PostgreSQL's `integer` type (int4). */
  predicate InInt4(i: int) {
    -0x8000_0000 <= i < 0x8000_0000
  }

  /**
   * The integer a statement parameter denotes when bound to an `integer`
   * column or cast: a number, or text that `Number` reads as an integer, and
   * in either case within int4's range. Anything else makes the statement
   * fail: malformed text with 22P02, a value out of range with 22003.
   */
  function AsSqlInt(v: Value): (r: Option<int>)
    ensures v.Number? && v.n.Int? ==> r == if InInt4(v.n.i) then Some(v.n.i) else None
    ensures r.Some? ==> InInt4(r.value)
    ensures r.Some? && v.Str? ==> StringToNumber(v.s) == Int(r.value)
    ensures v.Str? && HasNonSpace(v.s) && StringToNumber(v.s).Int? && InInt4(StringToNumber(v.s).i) ==>
      r == Some(StringToNumber(v.s).i)
  {
    match v
    case Number(Int(i)) => if InInt4(i) then Some(i) else None
    case Str(s) =>
      if HasNonSpace(s) && StringToNumber(s).Int? && InInt4(StringToNumber(s).i) then Some(StringToNumber(s).i)
      else None
    case _ => None
  }

  /** The bounds of LIMIT and OFFSET: a number, or text that `Number` reads as an integer. */
  function AsSqlBound(v: Value): (r: Option<int>)
    ensures v.Number? && v.n.Int? ==> r == Some(v.n.i)
    ensures r.Some? && v.Str? ==> StringToNumber(v.s) == Int(r.value)
  {
    match v
    case Number(Int(i)) => Some(i)
    case Str(s) => if HasNonSpace(s) && StringToNumber(s).Int? then Some(StringToNumber(s).i) else None
    case _ => None
  }

  /** PostgreSQL refuses an empty or all-blank integer literal, where `Number` would read 0. */
  predicate HasNonSpace(s: string) {
    exists k :: 0 <= k < |s| && !IsJsSpace(s[k])
  }

  // ---------------------------------------------------------------------
  // student_courses, with the student and course ids its foreign keys refer to

  datatype Enrollments = Enrollments(students: set<int>, courses: set<int>, pairs: set<(int, int)>)

  /** Every enrollment refers to an existing student and course. */
  ghost predicate ReferencesHold(e: Enrollments) {
    forall p :: p in e.pairs ==> p.0 in e.students && p.1 in e.courses
  }

  const UniqueViolation := "23505"
  const ForeignKeyViolation := "23503"

  /** `INSERT INTO student_courses (student_id, course_id) VALUES ($1, $2)` */
  function Enroll(e: Enrollments, s: int, c: int): (r: (DbOutcome, Enrollments))
    ensures (s, c) in e.pairs ==> r.0 == Failure(Thrown(Some(UniqueViolation), None))
    ensures (s, c) !in e.pairs && (s !in e.students || c !in e.courses) ==>
      r.0 == Failure(Thrown(Some(ForeignKeyViolation), None))
    ensures r.0.Result? <==> (s, c) !in e.pairs && s in e.students && c in e.courses
    ensures r.0.Result? ==> r.0.rowCount == Some(1) && r.1 == e.(pairs := e.pairs + {(s, c)})
    ensures r.0.Failure? ==> r.1 == e
    ensures ReferencesHold(e) ==> ReferencesHold(r.1)
    ensures (s, c) in r.1.pairs <==> (s, c) in e.pairs || r.0.Result?
  {
    if (s, c) in e.pairs then (Failure(Thrown(Some(UniqueViolation), None)), e)
    else if s !in e.students || c !in e.courses then (Failure(Thrown(Some(ForeignKeyViolation), None)), e)
    else (Result([], Some(1)), e.(pairs := e.pairs + {(s, c)}))
  }

  /** The enrollment insert as a statement over its parameters `[student_id, course_id]`. */
  function EnrollStatement(e: Enrollments): Db {
    (p: seq<Value>) =>
      if |p| == 2 && AsSqlInt(p[0]).Some? && AsSqlInt(p[1]).Some? then Enroll(e, AsSqlInt(p[0]).value, AsSqlInt(p[1]).value).0
      else Failure(PlainError)
  }

  /** The three answers of the CASE in the single-enrollment delete. */
  datatype DeleteStatus = Deleted | NotEnrolled | NoCourse

  function StatusName(st: DeleteStatus): string {
    match st
    case Deleted => "deleted"
    case NotEnrolled => "not_enrolled"
    case NoCourse => "no_course"
  }

  /**
   * `WITH deleted AS (DELETE ... WHERE student_id = $1 AND course_id = $2 RETURNING course_id)
   *  SELECT CASE WHEN <a row was deleted> THEN 'deleted' WHEN <the course exists> THEN 'not_enrolled'
   *  ELSE 'no_course' END`
   */
  function DeleteEnrollment(e: Enrollments, s: int, c: int): (r: (DeleteStatus, Enrollments))
    ensures r.0 == Deleted <==> (s, c) in e.pairs
    ensures r.0 == NotEnrolled <==> (s, c) !in e.pairs && c in e.courses
    ensures r.0 == NoCourse <==> (s, c) !in e.pairs && c !in e.courses
    ensures (s, c) !in r.1.pairs
    ensures r.1.pairs == e.pairs - {(s, c)}
    ensures r.1.students == e.students && r.1.courses == e.courses
  {
    var status := if (s, c) in e.pairs then Deleted else if c in e.courses then NotEnrolled else NoCourse;
    (status, e.(pairs := e.pairs - {(s, c)}))
  }

  /** The delete as a statement: always one row, with the status and the course id. */
  function DeleteEnrollmentStatement(e: Enrollments): Db {
    (p: seq<Value>) =>
      if |p| == 2 && AsSqlInt(p[0]).Some? && AsSqlInt(p[1]).Some? then
        var c := AsSqlInt(p[1]).value;
        var status := DeleteEnrollment(e, AsSqlInt(p[0]).value, c).0;
        Result([map["status" := Str(StatusName(status)), "course_id" := Number(Int(c))]], Some(1))
      else Failure(PlainError)
  }

  /** The enrollments of one student. */
  function EnrollmentsOf(e: Enrollments, s: int): set<(int, int)> {
    set p | p in e.pairs && p.0 == s
  }

  /** `DELETE FROM student_courses WHERE student_id = $1`: the number of rows removed, and the table after. */
  function DeleteAllEnrollments(e: Enrollments, s: int): (r: (nat, Enrollments))
    ensures r.0 == |EnrollmentsOf(e, s)|
    ensures forall c :: (s, c) !in r.1.pairs
    ensures forall p :: p in e.pairs && p.0 != s ==> p in r.1.pairs
    ensures r.1.pairs <= e.pairs
    ensures r.0 + |r.1.pairs| == |e.pairs|
  {
    var removed := EnrollmentsOf(e, s);
    var kept := e.pairs - removed;
    assert e.pairs == removed + kept && removed !! kept;
    (|removed|, e.(pairs := kept))
  }

  /** The delete-all as a statement over `[student_id]`. */
  function DeleteAllStatement(e: Enrollments): Db {
    (p: seq<Value>) =>
      if |p| == 1 && AsSqlInt(p[0]).Some? then Result([], Some(DeleteAllEnrollments(e, AsSqlInt(p[0]).value).0))
      else Failure(PlainError)
  }

  // ---------------------------------------------------------------------
  // programming_languages

  /** The table as a map from language_id to name. */
  type LanguageTable = map<int, string>

  function LanguageRow(id: int, name: string): Row {
    map["language_id" := Number(Int(id)), "name" := Str(name)]
  }

  /**
   * `DELETE FROM programming_languages WHERE language_id = $1`: the outcome, and
   * the table after. `used` holds the language ids that rows of `courses` still
   * reference; their foreign key (no action on delete) refuses to delete those.
   */
  function DeleteLanguageRow(t: LanguageTable, used: set<int>, id: int): (r: (DbOutcome, LanguageTable))
    ensures r.0.Failure? <==> id in t && id in used
    ensures r.0.Failure? ==> r.0.error == Thrown(Some(ForeignKeyViolation), None) && r.1 == t
    ensures r.0.Result? ==> r.0.rows == [] && r.0.rowCount == Some(if id in t then 1 else 0)
    ensures r.0.Result? ==> id !in r.1 && r.1.Keys == t.Keys - {id}
    ensures forall k :: k in r.1 ==> r.1[k] == t[k]
  {
    if id in t && id in used then (Failure(Thrown(Some(ForeignKeyViolation), None)), t)
    else (Result([], Some(if id in t then 1 else 0)), t - {id})
  }

  /** `UPDATE programming_languages SET name = $1 WHERE language_id = $2`: rowCount, and the table after. */
  function UpdateLanguageRow(t: LanguageTable, id: int, name: string): (r: (nat, LanguageTable))
    ensures r.0 == 0 <==> id !in t
    ensures r.1.Keys == t.Keys
    ensures id in t ==> r.1[id] == name
    ensures forall k :: k in t && k != id ==> r.1[k] == t[k]
  {
    if id in t then (1, t[id := name]) else (0, t)
  }

  /** `SELECT * FROM programming_languages WHERE language_id = $1` as a statement over `[id]`. */
  function SelectLanguageStatement(t: LanguageTable): Db {
    (p: seq<Value>) =>
      if |p| == 1 && AsSqlInt(p[0]).Some? then
        var id := AsSqlInt(p[0]).value;
        if id in t then Result([LanguageRow(id, t[id])], Some(1)) else Result([], Some(0))
      else Failure(PlainError)
  }

  /** The language delete as a statement over `[id]`. */
  function DeleteLanguageStatement(t: LanguageTable, used: set<int>): Db {
    (p: seq<Value>) =>
      if |p| == 1 && AsSqlInt(p[0]).Some? then DeleteLanguageRow(t, used, AsSqlInt(p[0]).value).0
      else Failure(PlainError)
  }

  /** The rename as a statement over `[name, id]`. */
  function UpdateLanguageStatement(t: LanguageTable): Db {
    (p: seq<Value>) =>
      if |p| == 2 && p[0].Str? && AsSqlInt(p[1]).Some? then
        Result([], Some(UpdateLanguageRow(t, AsSqlInt(p[1]).value, p[0].s).0))
      else Failure(PlainError)
  }

  /** `rows` is what `SELECT * FROM programming_languages` may return: every language once, in some order. */
  ghost predicate IsListing(t: LanguageTable, rows: seq<Row>) {
    && |rows| == |t|
    && (forall i :: 0 <= i < |rows| ==> exists id :: id in t && rows[i] == LanguageRow(id, t[id]))
    && (forall i, j :: 0 <= i < j < |rows| ==> rows[i] != rows[j])
  }

  // ---------------------------------------------------------------------
  // students

  /**
   * `SELECT ... FROM students WHERE is_active = TRUE LIMIT $1 OFFSET $2` over the
   * active rows in the order the database returns them.
   */
  function Page(active: seq<Row>, limit: nat, offset: nat): (r: seq<Row>)
    ensures |r| <= limit
    ensures offset < |active| ==> |r| == if offset + limit <= |active| then limit else |active| - offset
    ensures r == [] || offset + |r| <= |active|
    ensures forall i :: 0 <= i < |r| ==> r[i] == active[offset + i]
  {
    if offset >= |active| then []
    else if offset + limit <= |active| then active[offset..offset + limit]
    else active[offset..]
  }

  /** The page query as a statement over `[limit, offset]`; PostgreSQL refuses a negative bound. */
  function PageStatement(active: seq<Row>): Db {
    (p: seq<Value>) =>
      if |p| == 2 && AsSqlBound(p[0]).Some? && AsSqlBound(p[1]).Some? && AsSqlBound(p[0]).value >= 0 && AsSqlBound(p[1]).value >= 0 then
        var page := Page(active, AsSqlBound(p[0]).value, AsSqlBound(p[1]).value);
        Result(page, Some(|page|))
      else Failure(PlainError)
  }

  /** The page statement run with two integer bounds. */
  lemma PageStatementOnInts(active: seq<Row>, limit: nat, offset: nat)
    ensures PageStatement(active)([Number(Int(limit)), Number(Int(offset))]) ==
      Result(Page(active, limit, offset), Some(|Page(active, limit, offset)|))
  {
    var args := [Number(Int(limit)), Number(Int(offset))];
    assert AsSqlBound(args[0]) == Some(limit) && AsSqlBound(args[1]) == Some(offset);
  }

  /** The enrollment insert run with two integer ids. */
  lemma EnrollStatementOnInts(e: Enrollments, s: int, c: int)
    ensures EnrollStatement(e)([Number(Int(s)), Number(Int(c))]) ==
      if InInt4(s) && InInt4(c) then Enroll(e, s, c).0 else Failure(PlainError)
  {
    var args := [Number(Int(s)), Number(Int(c))];
    assert AsSqlInt(args[0]).Some? <==> InInt4(s);
    assert AsSqlInt(args[1]).Some? <==> InInt4(c);
  }

  /** The single-enrollment delete run with two integer ids. */
  lemma DeleteEnrollmentStatementOnInts(e: Enrollments, s: int, c: int)
    ensures DeleteEnrollmentStatement(e)([Number(Int(s)), Number(Int(c))]) ==
      if InInt4(s) && InInt4(c) then
        Result([map["status" := Str(StatusName(DeleteEnrollment(e, s, c).0)), "course_id" := Number(Int(c))]], Some(1))
      else Failure(PlainError)
  {
    var args := [Number(Int(s)), Number(Int(c))];
    assert AsSqlInt(args[0]).Some? <==> InInt4(s);
    assert AsSqlInt(args[1]).Some? <==> InInt4(c);
  }

  /** The delete-all run with an integer id. */
  lemma DeleteAllStatementOnInt(e: Enrollments, s: int)
    ensures DeleteAllStatement(e)([Number(Int(s))]) ==
      if InInt4(s) then Result([], Some(DeleteAllEnrollments(e, s).0)) else Failure(PlainError)
  {
    assert AsSqlInt(Number(Int(s))).Some? <==> InInt4(s);
  }

  /** The language lookup run with a text id PostgreSQL reads as an integer. */
  lemma SelectLanguageOnText(t: LanguageTable, raw: string)
    requires AsSqlInt(Str(raw)).Some?
    ensures var i := AsSqlInt(Str(raw)).value;
      SelectLanguageStatement(t)([Str(raw)]) == if i in t then Result([LanguageRow(i, t[i])], Some(1)) else Result([], Some(0))
  {
  }

  /** The language delete run with a text id. */
  lemma DeleteLanguageOnText(t: LanguageTable, used: set<int>, raw: string)
    requires AsSqlInt(Str(raw)).Some?
    ensures DeleteLanguageStatement(t, used)([Str(raw)]) == DeleteLanguageRow(t, used, AsSqlInt(Str(raw)).value).0
  {
  }

  /** The rename run with a text name and a text id. */
  lemma UpdateLanguageOnText(t: LanguageTable, raw: string, name: string)
    requires AsSqlInt(Str(raw)).Some?
    ensures UpdateLanguageStatement(t)([Str(name), Str(raw)]) ==
      Result([], Some(UpdateLanguageRow(t, AsSqlInt(Str(raw)).value, name).0))
  {
  }
}
