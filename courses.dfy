// createCourse: validates the five course fields in order, checks the
// difficulty against the fixed list, and inserts the course with one
// positional parameter per field.

module Courses {
  import opened Wrappers
  import opened Js
  import opened Http
  import opened Tables

  /** The keys of `courseData`, in the order `for...in`, `Object.keys` and `Object.values` visit them. */
  const CourseKeys: seq<string> := ["title", "description", "difficulty", "price", "language_id"]

  const Difficulties: seq<string> := ["Beginner", "Easy", "Intermediate", "Advanced", "Expert"]

  const PriceNotNumber := "The price must be a number"
  const LanguageIdNotNumber := "The language_id must be a number"
  const CourseCreated := "Created new course."
  const LanguageMissing := "Error: 23503, Invalid language_id. The specified language does not exist."

  /** `xs.join(sep)` */
  function JoinWith(xs: seq<string>, sep: string): string {
    if xs == [] then "" else if |xs| == 1 then xs[0] else xs[0] + sep + JoinWith(xs[1..], sep)
  }

  function InvalidDifficulty(): string {
    "Invalid difficulty value. It must be one of: " + JoinWith(Difficulties, ", ")
  }

  function RequiredMessage(key: string): string {
    "The " + key + " value is required"
  }

  /** The three checks the loop makes on one key, in order: present (except the description), then typed. */
  function FieldError(body: Row, key: string): Option<string> {
    var v := Get(body, key);
    if key != "description" && !Truthy(v) then Some(RequiredMessage(key))
    else if key == "price" && TypeOf(v) != "number" then Some(PriceNotNumber)
    else if key == "language_id" && TypeOf(v) != "number" then Some(LanguageIdNotNumber)
    else None
  }

  /** The message for the first key that fails its checks, if any. */
  function FirstFieldError(body: Row, keys: seq<string>): Option<string> {
    if keys == [] then None
    else if FieldError(body, keys[0]).Some? then FieldError(body, keys[0])
    else FirstFieldError(body, keys[1..])
  }

  /** `courseDifficulty.includes(difficulty)` */
  predicate DifficultyListed(v: Value) {
    v.Str? && v.s in Difficulties
  }

  /** `Object.values(courseData)`: the five fields in key order, `undefined` for an absent one. */
  function CourseValues(body: Row): (vs: seq<Value>)
    ensures |vs| == |CourseKeys|
    ensures forall i :: 0 <= i < |CourseKeys| ==> vs[i] == Get(body, CourseKeys[i])
  {
    seq(|CourseKeys|, i requires 0 <= i < |CourseKeys| => Get(body, CourseKeys[i]))
  }

  /** The placeholders of the VALUES list: `$1 `, `$2 `, ... one per value. */
  function Placeholders(n: nat): (ps: seq<string>)
    ensures |ps| == n
    ensures forall i :: 0 <= i < n ==> |ps[i]| >= 2 && ps[i][0] == '$'
  {
    seq(n, i requires 0 <= i < n => "$" + IntToString(i + 1) + " ")
  }

  /**
   * createCourse. Every key is checked in order before the difficulty; the
   * insert runs only for a body that passes both. A reported rowCount of zero
   * reaches `res.send(501)`, which answers 501 with its standard reason text.
   */
  method CreateCourse(body: Row, insert: Db) returns (out: Outcome)
    ensures FirstFieldError(body, CourseKeys).Some? ==>
      out == Outcome(Sent(400, Text(FirstFieldError(body, CourseKeys).value)), [])
    ensures FirstFieldError(body, CourseKeys).None? && !DifficultyListed(Get(body, "difficulty")) ==>
      out == Outcome(Sent(400, Text(InvalidDifficulty())), [])
    ensures out.effects != [] <==>
      FirstFieldError(body, CourseKeys).None? && DifficultyListed(Get(body, "difficulty"))
    ensures out.effects != [] ==> out.effects == [Query(CourseValues(body))]
    ensures out.effects != [] ==>
      match insert(CourseValues(body))
      case Failure(e) =>
        out.reply == if e.code == Some(ForeignKeyViolation) then Sent(400, Message(LanguageMissing))
                     else Sent(500, Text("Internal Server Error"))
      case Result(_, rowCount) =>
        out.reply == if rowCount == Some(0) then Sent(501, Text("Not Implemented")) else Sent(200, Text(CourseCreated))
  {
    var i := 0;
    while i < |CourseKeys|
      invariant 0 <= i <= |CourseKeys|
      invariant FirstFieldError(body, CourseKeys) == FirstFieldError(body, CourseKeys[i..])
    {
      var key := CourseKeys[i];
      var v := Get(body, key);
      assert CourseKeys[i..][1..] == CourseKeys[i + 1..];
      if key != "description" && !Truthy(v) {
        return Outcome(Sent(400, Text(RequiredMessage(key))), []);
      }
      if key == "price" && TypeOf(v) != "number" {
        return Outcome(Sent(400, Text(PriceNotNumber)), []);
      }
      if key == "language_id" && TypeOf(v) != "number" {
        return Outcome(Sent(400, Text(LanguageIdNotNumber)), []);
      }
      i := i + 1;
    }
    if !DifficultyListed(Get(body, "difficulty")) {
      return Outcome(Sent(400, Text(InvalidDifficulty())), []);
    }
    var values := CourseValues(body);
    match insert(values) {
      case Failure(e) =>
        if e.code == Some(ForeignKeyViolation) {
          out := Outcome(Sent(400, Message(LanguageMissing)), [Query(values)]);
        } else {
          out := Outcome(Sent(500, Text("Internal Server Error")), [Query(values)]);
        }
      case Result(_, rowCount) =>
        if rowCount == Some(0) {
          out := Outcome(Sent(501, Text("Not Implemented")), [Query(values)]);
        } else {
          out := Outcome(Sent(200, Text(CourseCreated)), [Query(values)]);
        }
    }
  }

  // ---------------------------------------------------------------------
  // Properties of the field checks

  /** No message exactly when every key passes its checks. */
  lemma {:induction false} FirstFieldErrorNone(body: Row, keys: seq<string>)
    ensures FirstFieldError(body, keys).None? <==> forall i :: 0 <= i < |keys| ==> FieldError(body, keys[i]).None?
    decreases |keys|
  {
    if keys != [] {
      FirstFieldErrorNone(body, keys[1..]);
      assert forall i :: 1 <= i < |keys| ==> keys[i] == keys[1..][i - 1];
    }
  }

  /** A message is the one of the first failing key: every earlier key passed. */
  lemma {:induction false} FirstFieldErrorIsFirst(body: Row, keys: seq<string>)
    requires FirstFieldError(body, keys).Some?
    ensures exists i ::
              && 0 <= i < |keys|
              && FieldError(body, keys[i]) == FirstFieldError(body, keys)
              && (forall j :: 0 <= j < i ==> FieldError(body, keys[j]).None?)
    decreases |keys|
  {
    if FieldError(body, keys[0]).None? {
      FirstFieldErrorIsFirst(body, keys[1..]);
      var i :| 0 <= i < |keys[1..]| && FieldError(body, keys[1..][i]) == FirstFieldError(body, keys[1..])
        && forall j :: 0 <= j < i ==> FieldError(body, keys[1..][j]).None?;
      assert keys[i + 1] == keys[1..][i];
      assert forall j :: 1 <= j < i + 1 ==> keys[j] == keys[1..][j - 1];
    } else {
      assert FieldError(body, keys[0]) == FirstFieldError(body, keys);
    }
  }

  /** A course is accepted by the checks exactly when it has a title and a difficulty and two non-zero numbers. */
  lemma AcceptedFields(body: Row)
    ensures FirstFieldError(body, CourseKeys).None? <==>
      && Truthy(Get(body, "title"))
      && Truthy(Get(body, "difficulty"))
      && Get(body, "price").Number? && Truthy(Get(body, "price"))
      && Get(body, "language_id").Number? && Truthy(Get(body, "language_id"))
  {
    FirstFieldErrorNone(body, CourseKeys);
    assert FieldError(body, CourseKeys[0]).None? <==> Truthy(Get(body, "title"));
    assert FieldError(body, CourseKeys[1]).None?;
    assert FieldError(body, CourseKeys[2]).None? <==> Truthy(Get(body, "difficulty"));
    assert FieldError(body, CourseKeys[3]).None? <==> Get(body, "price").Number? && Truthy(Get(body, "price"));
    assert FieldError(body, CourseKeys[4]).None? <==>
      Get(body, "language_id").Number? && Truthy(Get(body, "language_id"));
  }

  /** With a title and a difficulty, the first three keys pass and the price is checked next. */
  lemma PastFirstThreeKeys(body: Row)
    requires Truthy(Get(body, "title")) && Truthy(Get(body, "difficulty"))
    ensures FirstFieldError(body, CourseKeys) == FirstFieldError(body, CourseKeys[3..])
  {
    var ks := CourseKeys;
    assert FieldError(body, ks[0]).None? && FieldError(body, ks[1]).None? && FieldError(body, ks[2]).None?;
    assert ks[1..][1..] == ks[2..] && ks[2..][1..] == ks[3..];
    assert FirstFieldError(body, ks) == FirstFieldError(body, ks[1..]);
    assert FirstFieldError(body, ks[1..]) == FirstFieldError(body, ks[2..]);
  }

  /** A price of 0 fails the presence check before its type is looked at: a free course cannot be created. */
  lemma ZeroPriceRefused(body: Row)
    requires Truthy(Get(body, "title")) && Truthy(Get(body, "difficulty"))
    requires Get(body, "price") == Number(Int(0))
    ensures FirstFieldError(body, CourseKeys) == Some(RequiredMessage("price"))
  {
    PastFirstThreeKeys(body);
  }

  /** A price sent as text is refused with the type message, even when it spells a number. */
  lemma TextPriceRefused(body: Row, text: string)
    requires Truthy(Get(body, "title")) && Truthy(Get(body, "difficulty"))
    requires text != "" && Get(body, "price") == Str(text)
    ensures FirstFieldError(body, CourseKeys) == Some(PriceNotNumber)
  {
    PastFirstThreeKeys(body);
  }

  /** The i-th placeholder names parameter i+1, so the VALUES list binds the fields in key order. */
  lemma {:induction false} PlaceholderNamesParameter(n: nat, i: nat)
    requires i < n
    ensures ParseInt(Placeholders(n)[i][1..]) == Int(i + 1)
  {
    var d := IntToString(i + 1);
    var p := Placeholders(n)[i];
    assert p == "$" + d + " ";
    assert p[1..] == d + " ";
    ParseIntDigitPrefix(d, " ");
  }

  /**
   * Each field lands in its own column. The column list is `Object.keys`, so
   * its i-th column is `CourseKeys[i]`. That column gets the i-th placeholder,
   * which names the parameter holding the body's field of the same key.
   */
  lemma PlaceholderBindsField(body: Row, i: nat)
    requires i < |CourseKeys|
    ensures var k := ParseInt(Placeholders(|CourseKeys|)[i][1..]);
      && k.Int? && 1 <= k.i <= |CourseValues(body)|
      && CourseValues(body)[k.i - 1] == Get(body, CourseKeys[i])
  {
    PlaceholderNamesParameter(|CourseKeys|, i);
  }

  // ---------------------------------------------------------------------
  // Against the catalogue of languages

  /** The course insert as a statement: its language_id must name an existing language. */
  function CourseInsertStatement(t: LanguageTable): Db {
    (p: seq<Value>) =>
      if |p| == |CourseKeys| && AsSqlInt(p[4]).Some? then
        if AsSqlInt(p[4]).value in t then Result([], Some(1)) else Failure(Thrown(Some(ForeignKeyViolation), None))
      else Failure(PlainError)
  }

  /**
   * A course that passes the checks is created exactly when its language
   * exists, and refused with 400 otherwise. A language_id outside int4's range
   * makes the insert fail, and the catch answers 500.
   */
  method CreateCourseOnCatalogue(t: LanguageTable, body: Row, l: int) returns (out: Outcome)
    requires FirstFieldError(body, CourseKeys).None? && DifficultyListed(Get(body, "difficulty"))
    requires Get(body, "language_id") == Number(Int(l))
    ensures out.reply ==
      if !InInt4(l) then Sent(500, Text("Internal Server Error"))
      else if l in t then Sent(200, Text(CourseCreated)) else Sent(400, Message(LanguageMissing))
  {
    var values := CourseValues(body);
    assert values[4] == Number(Int(l));
    assert AsSqlInt(values[4]) == if InInt4(l) then Some(l) else None;
    out := CreateCourse(body, CourseInsertStatement(t));
  }
}
