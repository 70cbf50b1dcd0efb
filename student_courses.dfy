// Enrollment handlers: a student (identified by the `authId` the
// authentication middleware put on the request) enrolls in a course, lists
// their courses, and drops one or all of them.

module StudentCourses {
  import opened Wrappers
  import opened Js
  import opened Http
  import opened Tables
  import VerifyToken

  const InvalidCourseId := "The 'course_id' is required and must be a valid ID."
  const NoStudentInSession := "Authentication failed: Student ID not found in session."
  const Enrolled := "Course enrollment successful."
  const AlreadyEnrolled := "The student is already enrolled in this course."
  const CourseMissing := "Enrollment error: The course with the provided ID does not exist."
  const EnrollFailed := "Internal server error while processing enrollment."
  const ViewNeedsAuth := "Authentication required to view courses."
  const ViewFailed := "Internal server error while retrieving courses."
  const ClearNeedsAuth := "Authentication required to clear enrollments."
  const NothingToClear := "No active enrollments found to remove."
  const ClearFailed := "Internal server error while clearing enrollments."
  const RemoveNeedsAuth := "Authentication required to remove courses."
  const InvalidRouteCourseId := "A valid course ID is required in the URL parameters."
  const Removed := "Course successfully removed from student enrollment."
  const NotEnrolledMessage := "Enrollment not found. The student is not enrolled in this course."
  const RemoveFailed := "Internal server error while processing disenrollment."

  /** `!courseId || typeof courseId !== "number" || courseId <= 0`, negated. */
  predicate ValidCourseId(v: Value)
    ensures ValidCourseId(v) <==> v.Number? && v.n.Int? && v.n.i > 0
  {
    Truthy(v) && TypeOf(v) == "number" && !(v.n.Int? && v.n.i <= 0)
  }

  /** `!course_id || isNaN(Number(course_id)) || Number(course_id) <= 0`, negated, for a present route parameter. */
  predicate ValidRouteCourseId(p: string)
    ensures ValidRouteCourseId(p) <==> p != "" && StringToNumber(p).Int? && StringToNumber(p).i > 0
  {
    Truthy(Str(p)) && !ToNumber(Str(p)).NaN? && !(ToNumber(Str(p)).Int? && ToNumber(Str(p)).i <= 0)
  }

  /** addCourseToStudent: the course id is checked before the session. */
  function AddCourseToStudent(authId: Value, body: Row, insert: Db): (out: Outcome)
    ensures !ValidCourseId(Get(body, "courseId")) ==> out == Outcome(Sent(400, Message(InvalidCourseId)), [])
    ensures ValidCourseId(Get(body, "courseId")) && !Truthy(authId) ==>
      out == Outcome(Sent(401, Message(NoStudentInSession)), [])
    ensures out.effects != [] <==> ValidCourseId(Get(body, "courseId")) && Truthy(authId)
    ensures out.effects != [] ==> out.effects == [Query([authId, Get(body, "courseId")])]
    ensures out.effects != [] ==>
      match insert([authId, Get(body, "courseId")])
      case Result(_, _) => out.reply == Sent(201, Message(Enrolled))
      case Failure(e) =>
        out.reply == if e.code == Some(UniqueViolation) then Sent(400, Message(AlreadyEnrolled))
                     else if e.code == Some(ForeignKeyViolation) then Sent(404, Message(CourseMissing))
                     else Sent(500, Message(EnrollFailed))
    ensures out.reply.Status() == 201 ==> insert([authId, Get(body, "courseId")]).Result?
  {
    var courseId := Get(body, "courseId");
    if !ValidCourseId(courseId) then Outcome(Sent(400, Message(InvalidCourseId)), [])
    else if !Truthy(authId) then Outcome(Sent(401, Message(NoStudentInSession)), [])
    else
      var effects := [Query([authId, courseId])];
      match insert([authId, courseId])
      case Result(_, _) => Outcome(Sent(201, Message(Enrolled)), effects)
      case Failure(e) =>
        if e.code == Some(UniqueViolation) then Outcome(Sent(400, Message(AlreadyEnrolled)), effects)
        else if e.code == Some(ForeignKeyViolation) then Outcome(Sent(404, Message(CourseMissing)), effects)
        else Outcome(Sent(500, Message(EnrollFailed)), effects)
  }

  /** getCoursesStudent: `{ courses: rows }` for the session's student. */
  function GetCoursesStudent(authId: Value, select: Db): (out: Outcome)
    ensures !Truthy(authId) ==> out == Outcome(Sent(401, Message(ViewNeedsAuth)), [])
    ensures Truthy(authId) ==> out.effects == [Query([authId])]
    ensures Truthy(authId) && select([authId]).Failure? ==> out.reply == Sent(500, Message(ViewFailed))
    ensures Truthy(authId) && select([authId]).Result? ==>
      out.reply == Sent(200, Json(Obj(map["courses" := RowsValue(select([authId]).rows)])))
  {
    if !Truthy(authId) then Outcome(Sent(401, Message(ViewNeedsAuth)), [])
    else
      match select([authId])
      case Failure(_) => Outcome(Sent(500, Message(ViewFailed)), [Query([authId])])
      case Result(rows, _) => Outcome(Sent(200, Json(Obj(map["courses" := RowsValue(rows)]))), [Query([authId])])
  }

  /** The message of deleteAllCoursesStudent for a reported rowCount. */
  function ClearedMessage(rowCount: Option<nat>): (m: string)
    ensures rowCount == None || rowCount == Some(0) <==> m == NothingToClear
  {
    if rowCount.None? || rowCount.value == 0 then NothingToClear
    else
      var m := "Successfully removed " + IntToString(rowCount.value) + " course enrollments.";
      assert m[0] != NothingToClear[0];
      m
  }

  /** `courses_removed_count`: the rowCount as reported, null included. */
  function CountValue(rowCount: Option<nat>): Value {
    if rowCount.Some? then Number(Int(rowCount.value)) else Null
  }

  /** deleteAllCoursesStudent: 200 with the number of enrollments removed, even when it is zero. */
  function DeleteAllCoursesStudent(authId: Value, delete: Db): (out: Outcome)
    ensures !Truthy(authId) ==> out == Outcome(Sent(401, Message(ClearNeedsAuth)), [])
    ensures Truthy(authId) ==> out.effects == [Query([authId])]
    ensures Truthy(authId) && delete([authId]).Failure? ==> out.reply == Sent(500, Message(ClearFailed))
    ensures Truthy(authId) && delete([authId]).Result? ==>
      out.reply == Sent(200, Json(Obj(map[
        "message" := Str(ClearedMessage(delete([authId]).rowCount)),
        "courses_removed_count" := CountValue(delete([authId]).rowCount)])))
  {
    if !Truthy(authId) then Outcome(Sent(401, Message(ClearNeedsAuth)), [])
    else
      match delete([authId])
      case Failure(_) => Outcome(Sent(500, Message(ClearFailed)), [Query([authId])])
      case Result(_, rowCount) =>
        var body := map["message" := Str(ClearedMessage(rowCount)), "courses_removed_count" := CountValue(rowCount)];
        Outcome(Sent(200, Json(Obj(body))), [Query([authId])])
  }

  /**
   * The answer deleteCourseStudent gives for the statement's rows: the first
   * row's status picks it; with no row, destructuring `rows[0]` throws and the
   * catch answers 500; a status outside the three known ones leaves the request
   * unanswered. `raw` is the route parameter as written.
   */
  function DropReply(rows: seq<Row>, raw: string): (r: Reply)
    ensures rows == [] ==> r == Sent(500, Message(RemoveFailed))
    ensures rows != [] && Get(rows[0], "status") == Str("deleted") ==>
      r == Sent(200, Json(Obj(map["message" := Str(Removed), "course_id" := Get(rows[0], "course_id")])))
    ensures rows != [] && Get(rows[0], "status") == Str("not_enrolled") ==>
      r == Sent(404, Json(Obj(map["message" := Str(NotEnrolledMessage), "course_id" := Get(rows[0], "course_id")])))
    ensures rows != [] && Get(rows[0], "status") == Str("no_course") ==>
      r == Sent(404, Message("The course with ID " + raw + " does not exist."))
    ensures r.Unsent? <==>
      rows != [] && Get(rows[0], "status") !in {Str("deleted"), Str("not_enrolled"), Str("no_course")}
  {
    if |rows| == 0 then Sent(500, Message(RemoveFailed))
    else
      var status := Get(rows[0], "status");
      var returned := Get(rows[0], "course_id");
      if StrictEquals(status, Str("deleted")) then
        Sent(200, Json(Obj(map["message" := Str(Removed), "course_id" := returned])))
      else if StrictEquals(status, Str("not_enrolled")) then
        Sent(404, Json(Obj(map["message" := Str(NotEnrolledMessage), "course_id" := returned])))
      else if StrictEquals(status, Str("no_course")) then
        Sent(404, Message("The course with ID " + ToStr(Str(raw)) + " does not exist."))
      else Unsent(200)
  }

  /** deleteCourseStudent: the session is checked before the course id. */
  function DeleteCourseStudent(authId: Value, params: map<string, string>, delete: Db): (out: Outcome)
    ensures !Truthy(authId) ==> out == Outcome(Sent(401, Message(RemoveNeedsAuth)), [])
    ensures Truthy(authId) && !("course_id" in params && ValidRouteCourseId(params["course_id"])) ==>
      out == Outcome(Sent(400, Message(InvalidRouteCourseId)), [])
    ensures out.effects != [] <==> Truthy(authId) && "course_id" in params && ValidRouteCourseId(params["course_id"])
    ensures out.effects != [] ==>
      out.effects == [Query([authId, Number(StringToNumber(params["course_id"]))])]
    ensures out.effects != [] ==>
      match delete([authId, Number(StringToNumber(params["course_id"]))])
      case Failure(_) => out.reply == Sent(500, Message(RemoveFailed))
      case Result(rows, _) => out.reply == DropReply(rows, params["course_id"])
  {
    if !Truthy(authId) then Outcome(Sent(401, Message(RemoveNeedsAuth)), [])
    else if "course_id" !in params || !ValidRouteCourseId(params["course_id"]) then
      Outcome(Sent(400, Message(InvalidRouteCourseId)), [])
    else
      var raw := params["course_id"];
      var args := [authId, Number(ToNumber(Str(raw)))];
      match delete(args)
      case Failure(_) => Outcome(Sent(500, Message(RemoveFailed)), [Query(args)])
      case Result(rows, _) => Outcome(DropReply(rows, raw), [Query(args)])
  }

  // ---------------------------------------------------------------------
  // The handlers against the student_courses table

  function CourseBody(c: int): Row { map["courseId" := Number(Int(c))] }

  function CourseParams(c: int): map<string, string> { map["course_id" := IntToString(c)] }

  /**
   * Enrolling answers 201 exactly when the pair is new and both ids exist;
   * a duplicate answers 400; a missing course or student answers 404. An id
   * outside int4's range makes the insert fail, and the catch answers 500.
   */
  lemma EnrollOnTable(e: Enrollments, s: int, c: int)
    requires s != 0 && c > 0
    ensures AddCourseToStudent(Number(Int(s)), CourseBody(c), EnrollStatement(e)).reply ==
      if !InInt4(s) || !InInt4(c) then Sent(500, Message(EnrollFailed))
      else if (s, c) in e.pairs then Sent(400, Message(AlreadyEnrolled))
      else if s !in e.students || c !in e.courses then Sent(404, Message(CourseMissing))
      else Sent(201, Message(Enrolled))
  {
    var r := Enroll(e, s, c);
    EnrollStatementOnInts(e, s, c);
    var out := AddCourseToStudent(Number(Int(s)), CourseBody(c), EnrollStatement(e));
    assert out.effects != [];
    if !InInt4(s) || !InInt4(c) {
    } else if (s, c) in e.pairs {
      assert r.0 == Failure(Thrown(Some(UniqueViolation), None));
    } else if s !in e.students || c !in e.courses {
      assert r.0 == Failure(Thrown(Some(ForeignKeyViolation), None));
    } else {
      assert r.0.Result?;
    }
  }

  /** Enrolling in the same course twice: the second request is refused with 400 and changes nothing. */
  lemma {:induction false} EnrollTwiceRefused(e: Enrollments, s: int, c: int)
    requires s != 0 && c > 0 && InInt4(s) && InInt4(c)
    requires s in e.students && c in e.courses && (s, c) !in e.pairs
    ensures AddCourseToStudent(Number(Int(s)), CourseBody(c), EnrollStatement(e)).reply == Sent(201, Message(Enrolled))
    ensures AddCourseToStudent(Number(Int(s)), CourseBody(c), EnrollStatement(Enroll(e, s, c).1)).reply ==
      Sent(400, Message(AlreadyEnrolled))
    ensures Enroll(Enroll(e, s, c).1, s, c).1 == Enroll(e, s, c).1
  {
    EnrollOnTable(e, s, c);
    EnrollOnTable(Enroll(e, s, c).1, s, c);
  }

  /**
   * Dropping a course by its route parameter `raw` (any text `Number` reads as
   * a positive integer c): 200 with c when the student was enrolled, 404 with
   * c when the course exists, and otherwise 404 naming the parameter as
   * written. An id outside int4's range makes the statement fail, and the
   * catch answers 500.
   */
  lemma {:induction false} DropCourseOnTable(e: Enrollments, s: int, raw: string)
    requires s != 0 && raw != "" && StringToNumber(raw).Int? && StringToNumber(raw).i > 0
    ensures var c := StringToNumber(raw).i;
      !(InInt4(s) && InInt4(c)) ==>
        DeleteCourseStudent(Number(Int(s)), map["course_id" := raw], DeleteEnrollmentStatement(e)).reply ==
          Sent(500, Message(RemoveFailed))
    ensures var c := StringToNumber(raw).i;
      InInt4(s) && InInt4(c) && (s, c) in e.pairs ==>
        DeleteCourseStudent(Number(Int(s)), map["course_id" := raw], DeleteEnrollmentStatement(e)).reply ==
          Sent(200, Json(Obj(map["message" := Str(Removed), "course_id" := Number(Int(c))])))
    ensures var c := StringToNumber(raw).i;
      InInt4(s) && InInt4(c) && (s, c) !in e.pairs && c in e.courses ==>
        DeleteCourseStudent(Number(Int(s)), map["course_id" := raw], DeleteEnrollmentStatement(e)).reply ==
          Sent(404, Json(Obj(map["message" := Str(NotEnrolledMessage), "course_id" := Number(Int(c))])))
    ensures var c := StringToNumber(raw).i;
      InInt4(s) && InInt4(c) && (s, c) !in e.pairs && c !in e.courses ==>
        DeleteCourseStudent(Number(Int(s)), map["course_id" := raw], DeleteEnrollmentStatement(e)).reply ==
          Sent(404, Message("The course with ID " + raw + " does not exist."))
  {
    var c := StringToNumber(raw).i;
    DropStatementRow(e, s, raw);
    if InInt4(s) && InInt4(c) {
      DropReplyOfStatus(DeleteEnrollment(e, s, c).0, c, raw);
    }
  }

  /** The answer for each of the three statuses the delete statement reports. */
  lemma DropReplyOfStatus(status: DeleteStatus, c: int, raw: string)
    ensures var r := DropReply([map["status" := Str(StatusName(status)), "course_id" := Number(Int(c))]], raw);
      match status
      case Deleted => r == Sent(200, Json(Obj(map["message" := Str(Removed), "course_id" := Number(Int(c))])))
      case NotEnrolled => r == Sent(404, Json(Obj(map["message" := Str(NotEnrolledMessage), "course_id" := Number(Int(c))])))
      case NoCourse => r == Sent(404, Message("The course with ID " + raw + " does not exist."))
  {
    var row := map["status" := Str(StatusName(status)), "course_id" := Number(Int(c))];
    assert Get(row, "status") == Str(StatusName(status));
    assert Get(row, "course_id") == Number(Int(c));
  }

  /** The delete statement yields the table's status row, and the handler answers from it. */
  lemma {:induction false} DropStatementRow(e: Enrollments, s: int, raw: string)
    requires s != 0 && raw != "" && StringToNumber(raw).Int? && StringToNumber(raw).i > 0
    ensures var c := StringToNumber(raw).i;
      DeleteCourseStudent(Number(Int(s)), map["course_id" := raw], DeleteEnrollmentStatement(e)).reply ==
        if InInt4(s) && InInt4(c) then
          DropReply([map["status" := Str(StatusName(DeleteEnrollment(e, s, c).0)), "course_id" := Number(Int(c))]], raw)
        else Sent(500, Message(RemoveFailed))
  {
    var c := StringToNumber(raw).i;
    var args := [Number(Int(s)), Number(Int(c))];
    var row := map["status" := Str(StatusName(DeleteEnrollment(e, s, c).0)), "course_id" := Number(Int(c))];
    DeleteEnrollmentStatementOnInts(e, s, c);
    var out := DeleteCourseStudent(Number(Int(s)), map["course_id" := raw], DeleteEnrollmentStatement(e));
    assert out.effects != [];
  }

  /** In particular for the decimal numeral of c. */
  lemma {:induction false} DropCourseByNumeral(e: Enrollments, s: int, c: int)
    requires s != 0 && c > 0
    ensures DeleteCourseStudent(Number(Int(s)), CourseParams(c), DeleteEnrollmentStatement(e)).reply.status ==
      if !(InInt4(s) && InInt4(c)) then 500 else if (s, c) in e.pairs then 200 else 404
  {
    StringToNumberOfIntToString(c);
    DropCourseOnTable(e, s, IntToString(c));
  }

  /**
   * Clearing all enrollments reports how many the student had; afterwards
   * dropping any course finds none. A student id outside int4's range fails
   * both statements with 500.
   */
  lemma {:induction false} ClearThenDrop(e: Enrollments, s: int, c: int)
    requires s != 0 && c > 0
    ensures DeleteAllCoursesStudent(Number(Int(s)), DeleteAllStatement(e)).reply ==
      if !InInt4(s) then Sent(500, Message(ClearFailed))
      else Sent(200, Json(Obj(map[
        "message" := Str(ClearedMessage(Some(|EnrollmentsOf(e, s)|))),
        "courses_removed_count" := Number(Int(|EnrollmentsOf(e, s)|))])))
    ensures DeleteCourseStudent(Number(Int(s)), CourseParams(c),
              DeleteEnrollmentStatement(DeleteAllEnrollments(e, s).1)).reply.status ==
      if InInt4(s) && InInt4(c) then 404 else 500
  {
    DeleteAllStatementOnInt(e, s);
    var out := DeleteAllCoursesStudent(Number(Int(s)), DeleteAllStatement(e));
    assert Truthy(Number(Int(s)));
    DropCourseByNumeral(DeleteAllEnrollments(e, s).1, s, c);
  }

  /**
   * Behind authenticateToken with decodedKey "student_id", an enrollment is
   * inserted for the student named in the token, never for one named in the
   * request.
   */
  lemma EnrollsTokenStudent(req: VerifyToken.Request, verify: VerifyToken.Verifier, body: Row, insert: Db)
    requires VerifyToken.AuthenticateToken("", "student_id", req, verify).Next?
    requires ValidCourseId(Get(body, "courseId"))
    ensures var fwd := VerifyToken.AuthenticateToken("", "student_id", req, verify).req;
      var claims := verify(VerifyToken.SessionCookie(req).s).value;
      Truthy(Get(claims, "student_id")) ==>
        AddCourseToStudent(Get(fwd.props, "authId"), body, insert).effects ==
          [Query([Get(claims, "student_id"), Get(body, "courseId")])]
  {
  }
}
