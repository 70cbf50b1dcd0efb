// What a request handler sees of its collaborators and what it produces:
// database outcomes, thrown errors, responses and the ordered trace of side
// effects a handler asks for.

module Http {
  import opened Wrappers
  import opened Js

  /** A database row, or any plain JSON object. */
  type Row = map<string, Value>

  /** A response body: `res.send(text)` or `res.json(value)` / `res.send(object)`. */
  datatype Body = Text(text: string) | Json(value: Value)

  /**
   * What reaches the client: a sent response, or a status that was set (or
   * left at its default of 200) while nothing was ever sent.
   */
  datatype Reply = Sent(status: nat, body: Body) | Unsent(status: nat) {
    function Status(): nat { match this case Sent(s, _) => s case Unsent(s) => s }
  }

  /** An exception caught by a handler; `code` and `constraint` are set by the PostgreSQL driver. */
  datatype Thrown = Thrown(code: Option<string>, constraint: Option<string>)

  /** An exception that carries no driver fields (a TypeError, a bcrypt argument error). */
  const PlainError := Thrown(None, None)

  /** The outcome of one `pool.query`: its rows and `rowCount` (which may be null), or an exception. */
  datatype DbOutcome = Result(rows: seq<Row>, rowCount: Option<nat>) | Failure(error: Thrown)

  /** One SQL statement, as a function from its bound parameters to its outcome. */
  type Db = seq<Value> -> DbOutcome

  /** The side effects a handler performs, in the order it performs them. */
  datatype Effect =
    | Query(params: seq<Value>)
    | HashPassword(plain: Value)
    | ComparePassword(plain: Value)
    | DeleteUpload(path: string)
    | SignToken(claims: Row)
    | SetCookie(name: string, value: string)

  datatype Outcome = Outcome(reply: Reply, effects: seq<Effect>)

  /** `req.params[k]`: a matched route parameter is a string; an absent one is `undefined`. */
  function RouteParam(params: map<string, string>, k: string): (v: Value)
    ensures k in params <==> v.Str?
    ensures k in params ==> v.s == params[k]
  {
    if k in params then Str(params[k]) else Undefined
  }

  /** `{ message: text }` */
  function Message(text: string): Body {
    Json(Obj(map["message" := Str(text)]))
  }

  /** A JSON array of rows. */
  function RowsValue(rows: seq<Row>): (v: Value)
    ensures v.Arr? && |v.elems| == |rows|
    ensures forall i :: 0 <= i < |rows| ==> v.elems[i] == Obj(rows[i])
  {
    Arr(seq(|rows|, i requires 0 <= i < |rows| => Obj(rows[i])))
  }

  predicate IsServerError(r: Reply) { r == Sent(500, Text("Internal Server Error")) }

  /** `req.protocol` and `req.get("host")`. */
  datatype Origin = Origin(protocol: string, host: Option<string>)

  /** `${req.protocol}://${req.get("host")}/`; an absent Host header prints as "undefined". */
  function OriginPrefix(o: Origin): string {
    o.protocol + "://" + (if o.host.Some? then o.host.value else "undefined") + "/"
  }

  /** The public URL of a stored upload path: the origin, then the path with every backslash turned into '/'. */
  function PictureUrl(o: Origin, path: string): (url: string)
    ensures |url| == |OriginPrefix(o)| + |path|
    ensures url[..|OriginPrefix(o)|] == OriginPrefix(o)
    ensures forall i :: 0 <= i < |path| ==>
      url[|OriginPrefix(o)| + i] == (if path[i] == '\\' then '/' else path[i])
    ensures forall i :: |OriginPrefix(o)| <= i < |url| ==> url[i] != '\\'
  {
    OriginPrefix(o) + ReplaceAllChar(path, '\\', '/')
  }

  /**
   * `if (row.profile_picture) row.profile_picture = url(row.profile_picture)`.
   * None: the picture is truthy but not a string, so `.replace` throws.
   */
  function WithPictureUrl(row: Row, o: Origin): (r: Option<Row>)
    ensures !Truthy(Get(row, "profile_picture")) ==> r == Some(row)
    ensures Truthy(Get(row, "profile_picture")) && Get(row, "profile_picture").Str? ==>
      r == Some(row["profile_picture" := Str(PictureUrl(o, Get(row, "profile_picture").s))])
    ensures r.None? <==> Truthy(Get(row, "profile_picture")) && !Get(row, "profile_picture").Str?
    ensures r.Some? ==> r.value.Keys == row.Keys
    ensures r.Some? ==> forall k :: k in row && k != "profile_picture" ==> r.value[k] == row[k]
  {
    var pic := Get(row, "profile_picture");
    if !Truthy(pic) then Some(row)
    else if pic.Str? then Some(row["profile_picture" := Str(PictureUrl(o, pic.s))])
    else None
  }
}
