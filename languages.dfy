// The programming-language catalogue handlers: add, list, fetch by id, rename
// and delete rows of `programming_languages`.

module Languages {
  import opened Wrappers
  import opened Js
  import opened Http
  import opened Tables

  const NameLanguageRequired := "Name language is required"
  const LanguageAdded := "Language added to the list"
  const IdRequired := "ID is required"
  const NameRequired := "Name is required"
  const LanguageNotFound := "Programming language not found"
  const LanguageUpdated := "Programming language successfully updated."
  const LanguageDeleted := "Language deleted successfully"

  /**
   * addLanguage. A missing or empty name is refused before the database is
   * reached. The insert is answered only when the driver reports a positive
   * rowCount; otherwise the request is left unanswered.
   */
  function AddLanguage(body: Row, insert: Db): (out: Outcome)
    ensures !Truthy(Get(body, "name")) ==> out == Outcome(Sent(400, Message(NameLanguageRequired)), [])
    ensures Truthy(Get(body, "name")) ==> out.effects == [Query([Get(body, "name")])]
    ensures out.reply == Sent(200, Text(LanguageAdded)) <==>
      (Truthy(Get(body, "name")) && insert([Get(body, "name")]).Result?
       && insert([Get(body, "name")]).rowCount.Some? && insert([Get(body, "name")]).rowCount.value > 0)
    ensures out.reply.Unsent? ==> out.reply.status == 200 && insert([Get(body, "name")]).Result?
    ensures Truthy(Get(body, "name")) && insert([Get(body, "name")]).Failure? ==> IsServerError(out.reply)
  {
    var name := Get(body, "name");
    if !Truthy(name) then Outcome(Sent(400, Message(NameLanguageRequired)), [])
    else
      var effects := [Query([name])];
      match insert([name])
      case Failure(_) => Outcome(Sent(500, Text("Internal Server Error")), effects)
      case Result(_, rowCount) =>
        if rowCount.Some? && rowCount.value > 0 then Outcome(Sent(200, Text(LanguageAdded)), effects)
        else Outcome(Unsent(200), effects)
  }

  /** getListLanguages: every row, 200 when there is at least one and 404 (with the empty array) otherwise. */
  function GetListLanguages(select: Db): (out: Outcome)
    ensures out.effects == [Query([])]
    ensures select([]).Failure? <==> IsServerError(out.reply)
    ensures select([]).Result? ==> out.reply.Sent? && out.reply.body == Json(RowsValue(select([]).rows))
    ensures select([]).Result? ==> (out.reply.status == 200 <==> |select([]).rows| > 0)
    ensures select([]).Result? ==> (out.reply.status == 404 <==> |select([]).rows| == 0)
  {
    match select([])
    case Failure(_) => Outcome(Sent(500, Text("Internal Server Error")), [Query([])])
    case Result(rows, _) =>
      Outcome(Sent(if |rows| > 0 then 200 else 404, Json(RowsValue(rows))), [Query([])])
  }

  /**
   * getLanguageById. A found row is sent; when none is found the status is set
   * to 404 but nothing is ever sent.
   */
  function GetLanguageById(params: map<string, string>, select: Db): (out: Outcome)
    ensures !Truthy(RouteParam(params, "id")) ==> out == Outcome(Sent(400, Message(IdRequired)), [])
    ensures Truthy(RouteParam(params, "id")) ==> out.effects == [Query([RouteParam(params, "id")])]
    ensures Truthy(RouteParam(params, "id")) ==>
      match select([RouteParam(params, "id")])
      case Failure(_) => IsServerError(out.reply)
      case Result(rows, _) =>
        (rows != [] ==> out.reply == Sent(200, Json(Obj(rows[0])))) && (rows == [] ==> out.reply == Unsent(404))
  {
    var id := RouteParam(params, "id");
    if !Truthy(id) then Outcome(Sent(400, Message(IdRequired)), [])
    else
      match select([id])
      case Failure(_) => Outcome(Sent(500, Text("Internal Server Error")), [Query([id])])
      case Result(rows, _) =>
        if |rows| > 0 then Outcome(Sent(200, Json(Obj(rows[0]))), [Query([id])])
        else Outcome(Unsent(404), [Query([id])])
  }

  /** updateNameLanguage: 404 only when the driver reports exactly zero rows changed. */
  function UpdateNameLanguage(params: map<string, string>, body: Row, update: Db): (out: Outcome)
    ensures !Truthy(Get(body, "name")) ==> out == Outcome(Sent(400, Text(NameRequired)), [])
    ensures Truthy(Get(body, "name")) ==>
      out.effects == [Query([Get(body, "name"), RouteParam(params, "id")])]
    ensures Truthy(Get(body, "name")) ==>
      match update([Get(body, "name"), RouteParam(params, "id")])
      case Failure(_) => IsServerError(out.reply)
      case Result(_, rowCount) =>
        out.reply == if rowCount == Some(0) then Sent(404, Text(LanguageNotFound)) else Sent(200, Text(LanguageUpdated))
  {
    var name := Get(body, "name");
    var id := RouteParam(params, "id");
    if !Truthy(name) then Outcome(Sent(400, Text(NameRequired)), [])
    else
      match update([name, id])
      case Failure(_) => Outcome(Sent(500, Text("Internal Server Error")), [Query([name, id])])
      case Result(_, rowCount) =>
        if rowCount == Some(0) then Outcome(Sent(404, Text(LanguageNotFound)), [Query([name, id])])
        else Outcome(Sent(200, Text(LanguageUpdated)), [Query([name, id])])
  }

  /** deleteLanguage: 200 when a positive rowCount is reported, 404 otherwise (a null rowCount included). */
  function DeleteLanguage(params: map<string, string>, delete: Db): (out: Outcome)
    ensures !Truthy(RouteParam(params, "id")) ==> out == Outcome(Sent(400, Message(IdRequired)), [])
    ensures Truthy(RouteParam(params, "id")) ==> out.effects == [Query([RouteParam(params, "id")])]
    ensures Truthy(RouteParam(params, "id")) ==>
      match delete([RouteParam(params, "id")])
      case Failure(_) => IsServerError(out.reply)
      case Result(_, rowCount) =>
        out.reply == if rowCount.Some? && rowCount.value > 0 then Sent(200, Text(LanguageDeleted))
                     else Sent(404, Text(LanguageNotFound))
  {
    var id := RouteParam(params, "id");
    if !Truthy(id) then Outcome(Sent(400, Message(IdRequired)), [])
    else
      match delete([id])
      case Failure(_) => Outcome(Sent(500, Text("Internal Server Error")), [Query([id])])
      case Result(_, rowCount) =>
        if rowCount.Some? && rowCount.value > 0 then Outcome(Sent(200, Text(LanguageDeleted)), [Query([id])])
        else Outcome(Sent(404, Text(LanguageNotFound)), [Query([id])])
  }

  // ---------------------------------------------------------------------
  // The handlers against the table

  /** The route parameters of `/:id`. */
  function IdParams(raw: string): map<string, string> {
    map["id" := raw]
  }

  /** Fetching by an id that PostgreSQL reads as the integer i finds exactly the languages in the table. */
  lemma {:induction false} GetLanguageByIdOnTable(t: LanguageTable, raw: string)
    requires AsSqlInt(Str(raw)).Some?
    ensures var i := AsSqlInt(Str(raw)).value;
      GetLanguageById(IdParams(raw), SelectLanguageStatement(t)).reply ==
        if i in t then Sent(200, Json(Obj(LanguageRow(i, t[i])))) else Unsent(404)
  {
    SelectLanguageOnText(t, raw);
    assert Truthy(RouteParam(IdParams(raw), "id"));
  }

  /**
   * Deleting answers 200 exactly for an existing language that no course uses.
   * A language a course still uses is kept, and the refusal reaches the catch
   * as a 500. After a delete that went through, deleting again answers 404.
   */
  lemma {:induction false} DeleteLanguageOnTable(t: LanguageTable, used: set<int>, raw: string)
    requires AsSqlInt(Str(raw)).Some?
    ensures var i := AsSqlInt(Str(raw)).value;
      DeleteLanguage(IdParams(raw), DeleteLanguageStatement(t, used)).reply ==
        if i in t && i in used then Sent(500, Text("Internal Server Error"))
        else if i in t then Sent(200, Text(LanguageDeleted))
        else Sent(404, Text(LanguageNotFound))
    ensures var i := AsSqlInt(Str(raw)).value;
      i in t && i in used ==> DeleteLanguageRow(t, used, i).1 == t
    ensures var i := AsSqlInt(Str(raw)).value;
      !(i in t && i in used) ==>
        DeleteLanguage(IdParams(raw), DeleteLanguageStatement(DeleteLanguageRow(t, used, i).1, used)).reply ==
          Sent(404, Text(LanguageNotFound))
  {
    var i := AsSqlInt(Str(raw)).value;
    assert Truthy(RouteParam(IdParams(raw), "id"));
    DeleteLanguageOnText(t, used, raw);
    if !(i in t && i in used) {
      DeleteLanguageOnText(DeleteLanguageRow(t, used, i).1, used, raw);
    }
  }

  /** Renaming answers 200 exactly when the language exists; afterwards fetching it returns the new name. */
  lemma {:induction false} RenameThenFetch(t: LanguageTable, raw: string, name: string)
    requires AsSqlInt(Str(raw)).Some? && name != ""
    ensures var i := AsSqlInt(Str(raw)).value;
      UpdateNameLanguage(IdParams(raw), map["name" := Str(name)], UpdateLanguageStatement(t)).reply ==
        if i in t then Sent(200, Text(LanguageUpdated)) else Sent(404, Text(LanguageNotFound))
    ensures var i := AsSqlInt(Str(raw)).value;
      i in t ==>
        GetLanguageById(IdParams(raw), SelectLanguageStatement(UpdateLanguageRow(t, i, name).1)).reply ==
          Sent(200, Json(Obj(LanguageRow(i, name))))
  {
    var i := AsSqlInt(Str(raw)).value;
    UpdateLanguageOnText(t, raw, name);
    GetLanguageByIdOnTable(UpdateLanguageRow(t, i, name).1, raw);
  }

  /**
   * An id PostgreSQL cannot read as an int4 (malformed text, or an integer
   * outside int4's range) fails the lookup, the rename and the delete alike,
   * and each catch answers 500.
   */
  lemma UnreadableIdFails(t: LanguageTable, used: set<int>, raw: string, name: string)
    requires raw != "" && AsSqlInt(Str(raw)).None? && name != ""
    ensures GetLanguageById(IdParams(raw), SelectLanguageStatement(t)).reply == Sent(500, Text("Internal Server Error"))
    ensures UpdateNameLanguage(IdParams(raw), map["name" := Str(name)], UpdateLanguageStatement(t)).reply ==
      Sent(500, Text("Internal Server Error"))
    ensures DeleteLanguage(IdParams(raw), DeleteLanguageStatement(t, used)).reply == Sent(500, Text("Internal Server Error"))
  {
    assert RouteParam(IdParams(raw), "id") == Str(raw);
  }

  /**
   * A listing answers 200 exactly when the table is non-empty; a listing taken
   * after a delete that went through never shows the deleted language.
   */
  lemma ListingOnTable(t: LanguageTable, used: set<int>, rows: seq<Row>, i: int)
    requires IsListing(DeleteLanguageRow(t, used, i).1, rows)
    ensures GetListLanguages((p: seq<Value>) => Result(rows, Some(|rows|))).reply.status == 200 <==>
      |DeleteLanguageRow(t, used, i).1| > 0
    ensures DeleteLanguageRow(t, used, i).0.Result? ==>
      forall k :: 0 <= k < |rows| ==> Get(rows[k], "language_id") != Number(Int(i))
  {
    var after := DeleteLanguageRow(t, used, i).1;
    if DeleteLanguageRow(t, used, i).0.Result? {
      forall k | 0 <= k < |rows|
        ensures Get(rows[k], "language_id") != Number(Int(i))
      {
        var id :| id in after && rows[k] == LanguageRow(id, after[id]);
        assert Get(rows[k], "language_id") == Number(Int(id));
      }
    }
  }
}
