// Read-only student handlers: list every active student, list one page of
// them, and fetch one by id with its picture path turned into a public URL.

module Students {
  import opened Wrappers
  import opened Js
  import opened Http
  import opened Tables

  const NoUsers := "No users found."
  const InvalidPaging := "Invalid limit or offset values."
  const LimitTooLarge := "Limit cannot be greater than 20."
  const NoAccounts := "No accounts found."
  const StudentNotFound := "Student not found"

  /** The largest page getBatchStudents serves. */
  const MaxLimit := 20

  /** getStudents: 404 only when the driver reports a rowCount of exactly zero. */
  function GetStudents(select: Db): (out: Outcome)
    ensures out.effects == [Query([])]
    ensures select([]).Failure? ==> IsServerError(out.reply)
    ensures select([]).Result? && select([]).rowCount == Some(0) ==> out.reply == Sent(404, Text(NoUsers))
    ensures select([]).Result? && select([]).rowCount != Some(0) ==>
      out.reply == Sent(200, Json(RowsValue(select([]).rows)))
  {
    match select([])
    case Failure(_) => Outcome(Sent(500, Text("Internal Server Error")), [Query([])])
    case Result(rows, rowCount) =>
      if rowCount == Some(0) then Outcome(Sent(404, Text(NoUsers)), [Query([])])
      else Outcome(Sent(200, Json(RowsValue(rows))), [Query([])])
  }

  /** A query-string value, or the destructuring default when it is `undefined`. */
  function QueryOr(query: map<string, Value>, k: string, default: int): Value {
    if Get(query, k).Undefined? then Number(Int(default)) else Get(query, k)
  }

  /** `parseInt(String(v), 10)` of a query value (default applied). */
  function ParsedQuery(query: map<string, Value>, k: string, default: int): Num {
    ParseInt(ToStr(QueryOr(query, k, default)))
  }

  /** The first check: both numbers, the limit positive and the offset not negative. */
  predicate PagingValid(limit: Num, offset: Num) {
    limit.Int? && offset.Int? && limit.i > 0 && offset.i >= 0
  }

  /**
   * The checks and the page query of getBatchStudents once the limit and the
   * offset are read: the query runs only with a limit in [1, 20] and a
   * non-negative offset, both integers.
   */
  function BatchPage(limit: Num, offset: Num, select: Db): (out: Outcome)
    ensures out.effects != [] <==> PagingValid(limit, offset) && limit.i <= MaxLimit
    ensures out.effects != [] ==>
      && 1 <= limit.i <= MaxLimit && 0 <= offset.i
      && out.effects == [Query([Number(limit), Number(offset)])]
    ensures !PagingValid(limit, offset) ==> out == Outcome(Sent(400, Text(InvalidPaging)), [])
    ensures PagingValid(limit, offset) && limit.i > MaxLimit ==> out == Outcome(Sent(400, Text(LimitTooLarge)), [])
    ensures out.effects != [] ==>
      match select([Number(limit), Number(offset)])
      case Failure(_) => IsServerError(out.reply)
      case Result(rows, _) =>
        out.reply == if rows == [] then Sent(404, Text(NoAccounts)) else Sent(200, Json(RowsValue(rows)))
  {
    if !PagingValid(limit, offset) then Outcome(Sent(400, Text(InvalidPaging)), [])
    else if limit.i > MaxLimit then Outcome(Sent(400, Text(LimitTooLarge)), [])
    else
      var args := [Number(limit), Number(offset)];
      match select(args)
      case Failure(_) => Outcome(Sent(500, Text("Internal Server Error")), [Query(args)])
      case Result(rows, _) =>
        if |rows| == 0 then Outcome(Sent(404, Text(NoAccounts)), [Query(args)])
        else Outcome(Sent(200, Json(RowsValue(rows))), [Query(args)])
  }

  /** getBatchStudents: limit and offset read from the query string (5 and 0 when absent) the way `parseInt` reads them. */
  function GetBatchStudents(query: map<string, Value>, select: Db): Outcome {
    BatchPage(ParsedQuery(query, "limit", 5), ParsedQuery(query, "offset", 0), select)
  }

  /**
   * getStudentsById. The id goes to the statement unchecked; a found row is
   * sent with its picture turned into a URL, every other field as stored.
   */
  function GetStudentsById(params: map<string, string>, select: Db, origin: Origin): (out: Outcome)
    ensures out.effects == [Query([RouteParam(params, "id")])]
    ensures select([RouteParam(params, "id")]).Failure? ==> IsServerError(out.reply)
    ensures select([RouteParam(params, "id")]).Result? && select([RouteParam(params, "id")]).rows == [] ==>
      out.reply == Sent(404, Text(StudentNotFound))
    ensures select([RouteParam(params, "id")]).Result? && select([RouteParam(params, "id")]).rows != [] ==>
      var row := select([RouteParam(params, "id")]).rows[0];
      match WithPictureUrl(row, origin)
      case None => IsServerError(out.reply)
      case Some(student) =>
        && out.reply == Sent(200, Json(Obj(student)))
        && student.Keys == row.Keys
        && (forall k :: k in row && k != "profile_picture" ==> student[k] == row[k])
  {
    var id := RouteParam(params, "id");
    match select([id])
    case Failure(_) => Outcome(Sent(500, Text("Internal Server Error")), [Query([id])])
    case Result(rows, _) =>
      if |rows| == 0 then Outcome(Sent(404, Text(StudentNotFound)), [Query([id])])
      else match WithPictureUrl(rows[0], origin)
        case None => Outcome(Sent(500, Text("Internal Server Error")), [Query([id])])
        case Some(student) => Outcome(Sent(200, Json(Obj(student))), [Query([id])])
  }

  // ---------------------------------------------------------------------
  // Paging properties

  /** With no limit or offset in the query string the page is the first five rows. */
  lemma BatchDefaults(select: Db)
    ensures GetBatchStudents(map[], select).effects == [Query([Number(Int(5)), Number(Int(0))])]
  {
    ParseIntOfIntToString(5);
    ParseIntOfIntToString(0);
  }

  /** A limit given as text is read the way `parseInt` reads it. */
  lemma {:induction false} BatchReadsTextLimit(text: string, select: Db)
    requires ParseInt(text).Int? && 1 <= ParseInt(text).i <= MaxLimit
    ensures GetBatchStudents(map["limit" := Str(text)], select).effects ==
      [Query([Number(ParseInt(text)), Number(Int(0))])]
  {
    var q := map["limit" := Str(text)];
    assert ParsedQuery(q, "limit", 5) == ParseInt(text);
    ParseIntOfIntToString(0);
    assert ParsedQuery(q, "offset", 0) == Int(0);
    var out := GetBatchStudents(q, select);
    assert out.effects != [];
  }

  /** `parseInt` stops at the first non-digit, so the limit "7x" is read as 7 and accepted. */
  lemma BatchReadsLeadingDigits(select: Db)
    ensures GetBatchStudents(map["limit" := Str("7x")], select).effects == [Query([Number(Int(7)), Number(Int(0))])]
  {
    var seven, x := "7", "x";
    assert AllDigits(seven) && !IsDigit(x[0]);
    assert DigitsValue(seven) == 7 by { assert seven[..0] == []; }
    ParseIntDigitPrefix(seven, x);
    assert seven + x == "7x";
    BatchReadsTextLimit("7x", select);
  }

  /** A limit above twenty is refused whatever the offset, before the database is reached. */
  lemma {:induction false} BatchRefusesLargeLimit(n: int, select: Db)
    requires n > MaxLimit
    ensures GetBatchStudents(map["limit" := Number(Int(n))], select) == Outcome(Sent(400, Text(LimitTooLarge)), [])
  {
    ParseIntOfIntToString(n);
    ParseIntOfIntToString(0);
  }

  /**
   * Against the active rows, a valid request answers with the page
   * `active[offset..offset+limit]`: never more than `limit` rows, and 404
   * exactly when the offset is past the last row.
   */
  lemma {:induction false} BatchPageOnTable(active: seq<Row>, limit: int, offset: int)
    requires 1 <= limit <= MaxLimit && 0 <= offset
    ensures (GetBatchStudents(map["limit" := Number(Int(limit)), "offset" := Number(Int(offset))],
                              PageStatement(active)).reply.Status() == 404) <==> offset >= |active|
    ensures offset < |active| ==>
      GetBatchStudents(map["limit" := Number(Int(limit)), "offset" := Number(Int(offset))],
                       PageStatement(active)).reply == Sent(200, Json(RowsValue(Page(active, limit, offset))))
  {
    var q := map["limit" := Number(Int(limit)), "offset" := Number(Int(offset))];
    ParseIntOfIntToString(limit);
    assert ParsedQuery(q, "limit", 5) == Int(limit);
    ParseIntOfIntToString(offset);
    assert ParsedQuery(q, "offset", 0) == Int(offset);
    var page := Page(active, limit, offset);
    PageStatementOnInts(active, limit, offset);
    var out := GetBatchStudents(q, PageStatement(active));
    assert PagingValid(Int(limit), Int(offset));
    assert out.effects != [];
    if offset >= |active| {
      assert page == [];
      assert out.reply == Sent(404, Text(NoAccounts));
    } else {
      assert page != [];
      assert out.reply == Sent(200, Json(RowsValue(page)));
    }
  }

  /** The unpaged listing as a statement: every active row. */
  function AllRows(active: seq<Row>): Db {
    (p: seq<Value>) => Result(active, Some(|active|))
  }

  /** When at most five students are active, the default page and the full listing send the same rows. */
  lemma {:induction false} DefaultPageIsFullListing(active: seq<Row>)
    requires 0 < |active| <= 5
    ensures GetBatchStudents(map[], PageStatement(active)).reply == GetStudents(AllRows(active)).reply
  {
    ParseIntOfIntToString(5);
    assert ParsedQuery(map[], "limit", 5) == Int(5);
    ParseIntOfIntToString(0);
    assert ParsedQuery(map[], "offset", 0) == Int(0);
    assert Page(active, 5, 0) == active;
    PageStatementOnInts(active, 5, 0);
    var batch := GetBatchStudents(map[], PageStatement(active));
    assert PagingValid(Int(5), Int(0));
    assert batch.effects != [];
    assert batch.reply == Sent(200, Json(RowsValue(active)));
    assert AllRows(active)([]) == Result(active, Some(|active|));
    assert GetStudents(AllRows(active)).reply == Sent(200, Json(RowsValue(active)));
  }
}
