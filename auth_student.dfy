// The student account handlers: registration (with an optional uploaded
// picture that is removed whenever the registration fails), login (which
// signs the account into a token stored in a randomly numbered cookie) and
// password change.

module AuthStudent {
  import opened Wrappers
  import opened Js
  import opened Http
  import opened Tables
  import VerifyToken

  /** `bcrypt.hashSync` / `bcrypt.hash`: the hash, or None when it throws (a password that is not a string). */
  type Hasher = Value -> Option<string>

  /** `bcrypt.compareSync` / `bcrypt.compare` of a plain password with a stored hash; None when it throws. */
  type Comparer = (Value, Value) -> Option<bool>

  /** `jwt.sign(claims, SECRET_KEY, { expiresIn: "1h" })`; None when it throws. */
  type Signer = Row -> Option<string>

  // ---------------------------------------------------------------------
  // registerStudentAccount

  const RequiredFields: seq<string> := ["name", "surnames", "email", "password", "age", "passwordConfirm"]

  const PasswordsDiffer := "Password and confirm password do not match"
  const PasswordTooShort := "Password should be at least 6 characters long"
  const Registered := "Account registered successfully"
  const UnderAge := "You must be at least 18 years old to register."
  const EmailTaken := "This email is already in use by a student."
  const AgeConstraint := "chk_age_adult"

  function FieldRequired(field: string): string {
    "Error: The field '" + field + "' is required."
  }

  /** The first required field whose body value is falsy. */
  function MissingField(body: Row, fields: seq<string>): Option<string> {
    if fields == [] then None
    else if !Truthy(Get(body, fields[0])) then Some(fields[0])
    else MissingField(body, fields[1..])
  }

  /** `req.file?.path || null` */
  function ProfilePicture(upload: Option<string>): (v: Value)
    ensures Truthy(v) <==> upload.Some? && upload.value != ""
    ensures upload.Some? && upload.value != "" ==> v == Str(upload.value)
    ensures !(upload.Some? && upload.value != "") ==> v == Null
  {
    if upload.Some? && upload.value != "" then Str(upload.value) else Null
  }

  /** `errorImage(profile_picture)`: the upload is unlinked when there is one. */
  function Cleanup(upload: Option<string>): (es: seq<Effect>)
    ensures |es| <= 1
    ensures es != [] <==> Truthy(ProfilePicture(upload))
    ensures es != [] ==> es == [DeleteUpload(upload.value)]
  {
    if Truthy(ProfilePicture(upload)) then [DeleteUpload(upload.value)] else []
  }

  /**
   * `password?.length < 6`, in UTF-16 code units. Only a string has a length
   * here: a number or `true` reads `undefined`, and `undefined < 6` is false;
   * an array (a repeated form field) never gets this far, because two
   * distinct arrays are never `===`.
   */
  predicate ShortPassword(v: Value) {
    v.Str? && Utf16Length(v.s) < 6
  }

  /** The column list of the INSERT; placeholder `$i` fills the i-th column. */
  const StudentColumns: seq<string> :=
    ["profile_picture", "name", "surnames", "email", "password", "age", "nationality", "phone_number"]

  /**
   * The values of the INSERT. Each fills the column of the same name: the body
   * field, except the hash for `password` and the upload for `profile_picture`.
   */
  function InsertValues(body: Row, upload: Option<string>, hashed: string): (vs: seq<Value>)
    ensures |vs| == |StudentColumns|
    ensures forall i :: 0 <= i < |StudentColumns| ==>
      vs[i] == if StudentColumns[i] == "password" then Str(hashed)
               else if StudentColumns[i] == "profile_picture" then ProfilePicture(upload)
               else Get(body, StudentColumns[i])
  {
    [ProfilePicture(upload), Get(body, "name"), Get(body, "surnames"), Get(body, "email"), Str(hashed),
     Get(body, "age"), Get(body, "nationality"), Get(body, "phone_number")]
  }

  /** The catch block: the age constraint is recognised first, then a unique violation. */
  function RegisterErrorReply(e: Thrown): (r: Reply)
    ensures r.Sent? && r.body.Text?
    ensures r.status == 400 <==> e.constraint == Some(AgeConstraint) || e.code == Some(UniqueViolation)
    ensures r.status != 400 ==> IsServerError(r)
    // the constraint is looked at before the code, so each refusal has its own message
    ensures e.constraint == Some(AgeConstraint) ==> r == Sent(400, Text(UnderAge))
    ensures e.constraint != Some(AgeConstraint) && e.code == Some(UniqueViolation) ==> r == Sent(400, Text(EmailTaken))
  {
    if e.constraint == Some(AgeConstraint) then Sent(400, Text(UnderAge))
    else if e.code == Some(UniqueViolation) then Sent(400, Text(EmailTaken))
    else Sent(500, Text("Internal Server Error"))
  }

  /** The checks before hashing pass: every field present, both passwords identical, long enough. */
  predicate RegistrationValid(body: Row) {
    && MissingField(body, RequiredFields).None?
    && StrictEquals(Get(body, "password"), Get(body, "passwordConfirm"))
    && !ShortPassword(Get(body, "password"))
  }

  /**
   * registerStudentAccount. The password is hashed only for a body that passes
   * every check; every answer other than 201 unlinks the uploaded picture.
   */
  method RegisterStudentAccount(body: Row, upload: Option<string>, hash: Hasher, insert: Db) returns (out: Outcome)
    ensures MissingField(body, RequiredFields).Some? ==>
      out == Outcome(Sent(400, Text(FieldRequired(MissingField(body, RequiredFields).value))), Cleanup(upload))
    ensures MissingField(body, RequiredFields).None? && !StrictEquals(Get(body, "password"), Get(body, "passwordConfirm")) ==>
      out == Outcome(Sent(400, Text(PasswordsDiffer)), Cleanup(upload))
    ensures (MissingField(body, RequiredFields).None? && StrictEquals(Get(body, "password"), Get(body, "passwordConfirm"))
             && ShortPassword(Get(body, "password"))) ==>
      out == Outcome(Sent(400, Text(PasswordTooShort)), Cleanup(upload))
    ensures RegistrationValid(body) && hash(Get(body, "password")).None? ==>
      out == Outcome(Sent(500, Text("Internal Server Error")), [HashPassword(Get(body, "password"))] + Cleanup(upload))
    ensures RegistrationValid(body) && hash(Get(body, "password")).Some? ==>
      var values := InsertValues(body, upload, hash(Get(body, "password")).value);
      var steps := [HashPassword(Get(body, "password")), Query(values)];
      match insert(values)
      case Result(_, _) => out == Outcome(Sent(201, Text(Registered)), steps)
      case Failure(e) => out == Outcome(RegisterErrorReply(e), steps + Cleanup(upload))
    // the picture is kept exactly when the account is created
    ensures out.reply.Status() == 201 <==>
      RegistrationValid(body) && hash(Get(body, "password")).Some?
      && insert(InsertValues(body, upload, hash(Get(body, "password")).value)).Result?
    ensures out.reply.Status() != 201 ==>
      |out.effects| >= |Cleanup(upload)| && out.effects[|out.effects| - |Cleanup(upload)|..] == Cleanup(upload)
    ensures out.reply.Status() == 201 ==> forall k :: 0 <= k < |out.effects| ==> !out.effects[k].DeleteUpload?
  {
    var i := 0;
    while i < |RequiredFields|
      invariant 0 <= i <= |RequiredFields|
      invariant MissingField(body, RequiredFields) == MissingField(body, RequiredFields[i..])
    {
      var field := RequiredFields[i];
      assert RequiredFields[i..][1..] == RequiredFields[i + 1..];
      if !Truthy(Get(body, field)) {
        return Outcome(Sent(400, Text(FieldRequired(field))), Cleanup(upload));
      }
      i := i + 1;
    }
    var password := Get(body, "password");
    if !StrictEquals(password, Get(body, "passwordConfirm")) {
      return Outcome(Sent(400, Text(PasswordsDiffer)), Cleanup(upload));
    }
    if ShortPassword(password) {
      return Outcome(Sent(400, Text(PasswordTooShort)), Cleanup(upload));
    }
    var hashed := hash(password);
    if hashed.None? {
      return Outcome(Sent(500, Text("Internal Server Error")), [HashPassword(password)] + Cleanup(upload));
    }
    var values := InsertValues(body, upload, hashed.value);
    var steps := [HashPassword(password), Query(values)];
    match insert(values) {
      case Result(_, _) =>
        out := Outcome(Sent(201, Text(Registered)), steps);
      case Failure(e) =>
        out := Outcome(RegisterErrorReply(e), steps + Cleanup(upload));
    }
  }

  // ---------------------------------------------------------------------
  // loginStudentAccount

  const CredentialsRequired := "Email and password are required."
  const SecretMissing := "Server configuration error: 'SECRET KEY' not defined."
  const EmailNotFound := "Email not found"
  const BadCredentials := "Password or email invalid"
  const LoginFailed := "Error during login"

  /** `const { password, ...account } = student` */
  function WithoutPassword(student: Row): (account: Row)
    ensures account.Keys == student.Keys - {"password"}
    ensures forall k :: k in account ==> account[k] == student[k]
  {
    map k | k in student && k != "password" :: student[k]
  }

  /** `Math.floor(1000 + Math.random() * 9000)` for a draw r of `Math.random()`. */
  function RandomSuffix(r: real): (n: int)
    requires 0.0 <= r < 1.0
    ensures 1000 <= n <= 9999
  {
    (1000.0 + r * 9000.0).Floor
  }

  /** The name of the session cookie set by a login that drew r. */
  function LoginCookie(r: real): string
    requires 0.0 <= r < 1.0
  {
    VerifyToken.CookiePrefix + IntToString(RandomSuffix(r))
  }

  /** `!SECRET_KEY`: an unset or empty secret. */
  predicate SecretConfigured(secret: Option<string>) {
    secret.Some? && secret.value != ""
  }

  /**
   * loginStudentAccount. The account sent back and signed into the token is
   * the active student's row without its password, with the picture turned
   * into a URL; the token goes in the cookie `auth_token_<suffix>`.
   */
  function LoginStudentAccount(body: Row, secret: Option<string>, select: Db, compare: Comparer, sign: Signer,
                               origin: Origin, r: real): (out: Outcome)
    requires 0.0 <= r < 1.0
    ensures !Truthy(Get(body, "email")) || !Truthy(Get(body, "password")) ==>
      out == Outcome(Sent(400, Text(CredentialsRequired)), [])
    ensures Truthy(Get(body, "email")) && Truthy(Get(body, "password")) && !SecretConfigured(secret) ==>
      out == Outcome(Sent(500, Text(SecretMissing)), [])
    ensures out.effects != [] ==> out.effects[0] == Query([Get(body, "email")])
    ensures out.reply.Status() == 404 <==>
      out.effects != [] && select([Get(body, "email")]).Result? && select([Get(body, "email")]).rows == []
    ensures out.reply.Status() == 401 <==>
      out.effects != [] && select([Get(body, "email")]).Result? && select([Get(body, "email")]).rows != []
      && compare(Get(body, "password"), Get(select([Get(body, "email")]).rows[0], "password")) == Some(false)
    // a successful login: the password matched, and exactly the sent account was signed into the cookie
    ensures out.reply.Status() == 200 ==>
      && select([Get(body, "email")]).Result? && select([Get(body, "email")]).rows != []
      && compare(Get(body, "password"), Get(select([Get(body, "email")]).rows[0], "password")) == Some(true)
      && |out.effects| == 4
      && out.effects[1] == ComparePassword(Get(body, "password"))
      && out.effects[2].SignToken?
      && out.reply == Sent(200, Json(Obj(out.effects[2].claims)))
      && "password" !in out.effects[2].claims
      && WithPictureUrl(WithoutPassword(select([Get(body, "email")]).rows[0]), origin) == Some(out.effects[2].claims)
      && Get(select([Get(body, "email")]).rows[0], "student_id") == Get(out.effects[2].claims, "student_id")
      && sign(out.effects[2].claims).Some?
      && out.effects[3] == SetCookie(LoginCookie(r), sign(out.effects[2].claims).value)
    // path by path once the database is reached: every server error is the login failure, and each
    // outcome carries exactly the effects issued up to that point
    ensures Truthy(Get(body, "email")) && Truthy(Get(body, "password")) && SecretConfigured(secret) ==>
      var email := Get(body, "email");
      var password := Get(body, "password");
      var checked := [Query([email]), ComparePassword(password)];
      match select([email])
      case Failure(_) => out == Outcome(Sent(500, Text(LoginFailed)), [Query([email])])
      case Result(rows, _) =>
        if rows == [] then out == Outcome(Sent(404, Text(EmailNotFound)), [Query([email])])
        else
          match compare(password, Get(rows[0], "password"))
          case None => out == Outcome(Sent(500, Text(LoginFailed)), checked)
          case Some(false) => out == Outcome(Sent(401, Text(BadCredentials)), checked)
          case Some(true) =>
            match WithPictureUrl(WithoutPassword(rows[0]), origin)
            case None => out == Outcome(Sent(500, Text(LoginFailed)), checked)
            case Some(account) =>
              match sign(account)
              case None => out == Outcome(Sent(500, Text(LoginFailed)), checked + [SignToken(account)])
              case Some(token) =>
                out == Outcome(Sent(200, Json(Obj(account))),
                               checked + [SignToken(account), SetCookie(LoginCookie(r), token)])
    ensures out.reply.Status() in {200, 400, 401, 404, 500}
  {
    var email := Get(body, "email");
    var password := Get(body, "password");
    if !Truthy(email) || !Truthy(password) then Outcome(Sent(400, Text(CredentialsRequired)), [])
    else if !SecretConfigured(secret) then Outcome(Sent(500, Text(SecretMissing)), [])
    else
      var found := [Query([email])];
      match select([email])
      case Failure(_) => Outcome(Sent(500, Text(LoginFailed)), found)
      case Result(rows, _) =>
        if |rows| == 0 then Outcome(Sent(404, Text(EmailNotFound)), found)
        else
          var student := rows[0];
          var checked := found + [ComparePassword(password)];
          match compare(password, Get(student, "password"))
          case None => Outcome(Sent(500, Text(LoginFailed)), checked)
          case Some(false) => Outcome(Sent(401, Text(BadCredentials)), checked)
          case Some(true) =>
            match WithPictureUrl(WithoutPassword(student), origin)
            case None => Outcome(Sent(500, Text(LoginFailed)), checked)
            case Some(account) =>
              match sign(account)
              case None => Outcome(Sent(500, Text(LoginFailed)), checked + [SignToken(account)])
              case Some(token) =>
                Outcome(Sent(200, Json(Obj(account))), checked + [SignToken(account), SetCookie(LoginCookie(r), token)])
  }

  // ---------------------------------------------------------------------
  // changePasswordStudent

  const BothPasswordsRequired := "Both old password and new passwords are required."
  const SamePassword := "New password should be different than old password."
  const StudentMissing := "Student not found or is inactive."
  const WrongOldPassword := "Incorrect old password."
  const PasswordUpdated := "Password updated successfully."

  /** Both passwords are given and differ: the handler goes on to look the student up. */
  predicate ChangeRequested(body: Row) {
    && Truthy(Get(body, "newPassword")) && Truthy(Get(body, "password"))
    && !StrictEquals(Get(body, "password"), Get(body, "newPassword"))
  }

  /**
   * changePasswordStudent. The old password must match the active student's
   * stored hash; the new one is then hashed and written for the route's id.
   * The new password has no length rule here.
   */
  function ChangePasswordStudent(params: map<string, string>, body: Row, select: Db, compare: Comparer,
                                 hash: Hasher, update: Db): (out: Outcome)
    ensures !Truthy(Get(body, "newPassword")) || !Truthy(Get(body, "password")) ==>
      out == Outcome(Sent(400, Message(BothPasswordsRequired)), [])
    ensures (Truthy(Get(body, "newPassword")) && Truthy(Get(body, "password"))
             && StrictEquals(Get(body, "password"), Get(body, "newPassword"))) ==>
      out == Outcome(Sent(400, Message(SamePassword)), [])
    ensures out.effects != [] <==> ChangeRequested(body)
    ensures out.effects != [] ==> out.effects[0] == Query([RouteParam(params, "student_id")])
    ensures out.reply.Status() == 404 <==>
      out.effects != [] && select([RouteParam(params, "student_id")]).Result?
      && select([RouteParam(params, "student_id")]).rows == []
    // the lookup: a thrown error is 500, no active student is 404
    ensures ChangeRequested(body) ==>
      var id := RouteParam(params, "student_id");
      match select([id])
      case Failure(_) => out == Outcome(Sent(500, Text("Internal Server Error")), [Query([id])])
      case Result(rows, _) => rows == [] ==> out == Outcome(Sent(404, Text(StudentMissing)), [Query([id])])
    // the comparison: a wrong old password is 400, a failing bcrypt 500; only a match goes on to hashing
    ensures ChangeRequested(body) ==>
      var id := RouteParam(params, "student_id");
      var checked := [Query([id]), ComparePassword(Get(body, "password"))];
      select([id]).Result? && select([id]).rows != [] ==>
        match compare(Get(body, "password"), Get(select([id]).rows[0], "password"))
        case None => out == Outcome(Sent(500, Text("Internal Server Error")), checked)
        case Some(false) => out == Outcome(Sent(400, Text(WrongOldPassword)), checked)
        case Some(true) =>
          && |out.effects| >= 3 && out.effects[..3] == checked + [HashPassword(Get(body, "newPassword"))]
          && (out.reply.Status() != 200 ==> IsServerError(out.reply))
    // success: the old password matched the stored hash, and the new hash was written for the route's id
    ensures out.reply.Status() == 200 ==>
      && out.reply == Sent(200, Message(PasswordUpdated))
      && select([RouteParam(params, "student_id")]).Result? && select([RouteParam(params, "student_id")]).rows != []
      && compare(Get(body, "password"), Get(select([RouteParam(params, "student_id")]).rows[0], "password")) == Some(true)
      && hash(Get(body, "newPassword")).Some?
      && out.effects == [Query([RouteParam(params, "student_id")]), ComparePassword(Get(body, "password")),
                         HashPassword(Get(body, "newPassword")),
                         Query([Str(hash(Get(body, "newPassword")).value), RouteParam(params, "student_id")])]
      && update([Str(hash(Get(body, "newPassword")).value), RouteParam(params, "student_id")]).Result?
    ensures out.reply.Status() in {200, 400, 404, 500}
  {
    var studentId := RouteParam(params, "student_id");
    var password := Get(body, "password");
    var newPassword := Get(body, "newPassword");
    if !Truthy(newPassword) || !Truthy(password) then Outcome(Sent(400, Message(BothPasswordsRequired)), [])
    else if StrictEquals(password, newPassword) then Outcome(Sent(400, Message(SamePassword)), [])
    else
      var found := [Query([studentId])];
      match select([studentId])
      case Failure(_) => Outcome(Sent(500, Text("Internal Server Error")), found)
      case Result(rows, _) =>
        if |rows| == 0 then Outcome(Sent(404, Text(StudentMissing)), found)
        else
          var checked := found + [ComparePassword(password)];
          match compare(password, Get(rows[0], "password"))
          case None => Outcome(Sent(500, Text("Internal Server Error")), checked)
          case Some(false) => Outcome(Sent(400, Text(WrongOldPassword)), checked)
          case Some(true) =>
            var hashing := checked + [HashPassword(newPassword)];
            match hash(newPassword)
            case None => Outcome(Sent(500, Text("Internal Server Error")), hashing)
            case Some(h) =>
              var written := hashing + [Query([Str(h), studentId])];
              match update([Str(h), studentId])
              case Failure(_) => Outcome(Sent(500, Text("Internal Server Error")), written)
              case Result(_, _) => Outcome(Sent(200, Message(PasswordUpdated)), written)
  }

  // ---------------------------------------------------------------------
  // Properties

  /** No message exactly when every required field is truthy. */
  lemma {:induction false} MissingFieldNone(body: Row, fields: seq<string>)
    ensures MissingField(body, fields).None? <==> forall i :: 0 <= i < |fields| ==> Truthy(Get(body, fields[i]))
    decreases |fields|
  {
    if fields != [] {
      MissingFieldNone(body, fields[1..]);
      assert forall i :: 1 <= i < |fields| ==> fields[i] == fields[1..][i - 1];
    }
  }

  /** The field named is falsy and every field listed before it is truthy. */
  lemma {:induction false} MissingFieldIsFirst(body: Row, fields: seq<string>)
    requires MissingField(body, fields).Some?
    ensures exists i ::
              && 0 <= i < |fields|
              && fields[i] == MissingField(body, fields).value
              && !Truthy(Get(body, fields[i]))
              && (forall j :: 0 <= j < i ==> Truthy(Get(body, fields[j])))
    decreases |fields|
  {
    if Truthy(Get(body, fields[0])) {
      MissingFieldIsFirst(body, fields[1..]);
      var i :| 0 <= i < |fields[1..]| && fields[1..][i] == MissingField(body, fields[1..]).value
        && !Truthy(Get(body, fields[1..][i])) && (forall j :: 0 <= j < i ==> Truthy(Get(body, fields[1..][j])));
      assert fields[i + 1] == fields[1..][i];
      assert forall j :: 1 <= j < i + 1 ==> fields[j] == fields[1..][j - 1];
    } else {
      assert fields[0] == MissingField(body, fields).value;
    }
  }

  /** A registration that gets past the checks carries a string password at least six code units long. */
  lemma ValidRegistrationPassword(body: Row)
    requires RegistrationValid(body)
    requires Get(body, "password").Str?
    ensures Utf16Length(Get(body, "password").s) >= 6
    ensures Get(body, "passwordConfirm") == Get(body, "password")
  {
  }

  /** A password that is a number passes the length check, which only strings can fail. */
  lemma NumericPasswordSkipsLengthCheck(n: int)
    requires n != 0
    ensures Truthy(Number(Int(n))) && !ShortPassword(Number(Int(n)))
  {
  }

  /**
   * The length rule counts UTF-16 code units: six characters of the Basic
   * Multilingual Plane are needed, but three characters above U+FFFF (three
   * emoji, say) already pass.
   */
  lemma PasswordLengthInCodeUnits(s: string)
    ensures (forall i :: 0 <= i < |s| ==> s[i] as int <= 0xFFFF) ==> (ShortPassword(Str(s)) <==> |s| < 6)
    ensures (forall i :: 0 <= i < |s| ==> s[i] as int > 0xFFFF) ==> (ShortPassword(Str(s)) <==> |s| < 3)
  {
    if forall i :: 0 <= i < |s| ==> s[i] as int <= 0xFFFF {
      Utf16LengthOfBmp(s);
    }
    if forall i :: 0 <= i < |s| ==> s[i] as int > 0xFFFF {
      Utf16LengthOfAstral(s);
    }
  }

  /** The random suffix is always a four-digit numeral without a comma. */
  lemma {:induction false} FourDigitSuffix(r: real)
    requires 0.0 <= r < 1.0
    ensures |IntToString(RandomSuffix(r))| == 4
    ensures AllDigits(IntToString(RandomSuffix(r)))
    ensures forall i :: 0 <= i < 4 ==> IntToString(RandomSuffix(r))[i] != ','
  {
    var n := RandomSuffix(r);
    var s := IntToString(n);
    assert s == NatToDigits(n);
    assert NatToDigits(n) == NatToDigits(n / 10) + [DigitChar(n % 10)];
    assert NatToDigits(n / 10) == NatToDigits(n / 100) + [DigitChar((n / 10) % 10)];
    assert NatToDigits(n / 100) == NatToDigits(n / 1000) + [DigitChar((n / 100) % 10)];
    assert |NatToDigits(n / 1000)| == 1;
  }

  /**
   * The session round trip: the `end_token` header carrying the login's suffix
   * names exactly the cookie the login set, so a request that sends both back
   * with a token the verifier accepts is let through by authenticateToken, with
   * `authId` taken from the token's `student_id` claim.
   */
  lemma LoginSessionAuthenticates(r: real, token: string, claims: Row, req: VerifyToken.Request,
                                  verify: VerifyToken.Verifier)
    requires 0.0 <= r < 1.0
    requires "end_token" in req.headers && req.headers["end_token"] == IntToString(RandomSuffix(r))
    requires LoginCookie(r) in req.cookies && req.cookies[LoginCookie(r)] == token && token != ""
    requires verify(token) == Some(claims)
    ensures VerifyToken.CookieName(req.headers["end_token"]) == LoginCookie(r)
    ensures VerifyToken.AuthenticateToken("", "student_id", req, verify).Next?
    ensures Get(VerifyToken.AuthenticateToken("", "student_id", req, verify).req.props, "authId") ==
      Get(claims, "student_id")
  {
    FourDigitSuffix(r);
    VerifyToken.CookieNameVerbatim(IntToString(RandomSuffix(r)));
    assert VerifyToken.SessionCookie(req) == Str(token);
  }

  /** A one-character new password is accepted: unlike registration, the change has no length rule. */
  lemma NewPasswordHasNoLengthRule(params: map<string, string>, select: Db, compare: Comparer, hash: Hasher,
                                   update: Db, current: string, id: string)
    requires "student_id" in params && params["student_id"] == id
    requires current != "" && current != "x"
    requires select([Str(id)]).Result? && select([Str(id)]).rows != []
    requires compare(Str(current), Get(select([Str(id)]).rows[0], "password")) == Some(true)
    requires hash(Str("x")).Some? && update([Str(hash(Str("x")).value), Str(id)]).Result?
    ensures ChangePasswordStudent(params, map["password" := Str(current), "newPassword" := Str("x")],
                                  select, compare, hash, update).reply == Sent(200, Message(PasswordUpdated))
  {
    assert RouteParam(params, "student_id") == Str(id);
  }

  // ---------------------------------------------------------------------
  // Against the students table

  /** The age constraint's violation as PostgreSQL reports it (a check violation). */
  const AgeViolation := Thrown(Some("23514"), Some(AgeConstraint))

  /**
   * The student INSERT against the set of emails already registered: the
   * adult-age check is evaluated before the unique index on email.
   */
  function InsertStudentStatement(emails: set<string>): Db {
    (p: seq<Value>) =>
      if |p| == 8 && p[3].Str? && AsSqlInt(p[5]).Some? then
        if AsSqlInt(p[5]).value < 18 then Failure(AgeViolation)
        else if p[3].s in emails then Failure(Thrown(Some(UniqueViolation), None))
        else Result([], Some(1))
      else Failure(PlainError)
  }

  /** The student INSERT run with a text email: the age decides first, then the email. */
  lemma InsertStudentOutcome(emails: set<string>, values: seq<Value>, email: string)
    requires |values| == 8 && values[3] == Str(email)
    ensures InsertStudentStatement(emails)(values) ==
      if AsSqlInt(values[5]).None? then Failure(PlainError)
      else if AsSqlInt(values[5]).value < 18 then Failure(AgeViolation)
      else if email in emails then Failure(Thrown(Some(UniqueViolation), None))
      else Result([], Some(1))
  {
  }

  /**
   * A valid registration against the table: 201 exactly for an adult with a new
   * email. A taken email and an under-age student are told apart, an age that
   * is not an integer is a server error, and every refusal unlinks the upload.
   * The age usually arrives as form text, which PostgreSQL reads as an integer.
   */
  method RegisterOnTable(emails: set<string>, body: Row, upload: Option<string>, hash: Hasher, email: string)
    returns (out: Outcome)
    requires RegistrationValid(body) && hash(Get(body, "password")).Some?
    requires Get(body, "email") == Str(email)
    ensures AsSqlInt(Get(body, "age")).None? ==> out.reply == Sent(500, Text("Internal Server Error"))
    ensures AsSqlInt(Get(body, "age")).Some? && AsSqlInt(Get(body, "age")).value < 18 ==>
      out.reply == Sent(400, Text(UnderAge))
    ensures AsSqlInt(Get(body, "age")).Some? && AsSqlInt(Get(body, "age")).value >= 18 && email in emails ==>
      out.reply == Sent(400, Text(EmailTaken))
    ensures out.reply.Status() == 201 <==>
      AsSqlInt(Get(body, "age")).Some? && AsSqlInt(Get(body, "age")).value >= 18 && email !in emails
    ensures out.reply.Status() != 201 ==>
      |out.effects| >= |Cleanup(upload)| && out.effects[|out.effects| - |Cleanup(upload)|..] == Cleanup(upload)
  {
    var values := InsertValues(body, upload, hash(Get(body, "password")).value);
    assert StudentColumns[3] == "email" && StudentColumns[5] == "age";
    assert values[3] == Str(email) && values[5] == Get(body, "age");
    InsertStudentOutcome(emails, values, email);
    out := RegisterStudentAccount(body, upload, hash, InsertStudentStatement(emails));
    assert out.reply == match InsertStudentStatement(emails)(values)
      case Result(_, _) => Sent(201, Text(Registered))
      case Failure(e) => RegisterErrorReply(e);
  }

  // ---------------------------------------------------------------------
  // Against the stored password hashes

  /** The stored hash of every active student, by student_id. */
  type PasswordTable = map<int, string>

  /** `SELECT password FROM students WHERE student_id = $1 AND is_active = TRUE` */
  function SelectPasswordStatement(t: PasswordTable): Db {
    (p: seq<Value>) =>
      if |p| == 1 && AsSqlInt(p[0]).Some? then
        var id := AsSqlInt(p[0]).value;
        if id in t then Result([map["password" := Str(t[id])]], Some(1)) else Result([], Some(0))
      else Failure(PlainError)
  }

  /** `UPDATE students SET password = $1 WHERE student_id = $2 RETURNING student_id` */
  function UpdatePasswordStatement(t: PasswordTable): Db {
    (p: seq<Value>) =>
      if |p| == 2 && p[0].Str? && AsSqlInt(p[1]).Some? then
        var id := AsSqlInt(p[1]).value;
        if id in t then Result([map["student_id" := Number(Int(id))]], Some(1)) else Result([], Some(0))
      else Failure(PlainError)
  }

  /** The table after that UPDATE: only the student's hash changes. */
  function SetPassword(t: PasswordTable, id: int, h: string): (after: PasswordTable)
    ensures after.Keys == t.Keys
    ensures id in t ==> after[id] == h
    ensures forall j :: j in t && j != id ==> after[j] == t[j]
  {
    if id in t then t[id := h] else t
  }

  /** bcrypt's promise: a password compares equal to its own hash. */
  ghost predicate HashesMatch(hash: Hasher, compare: Comparer) {
    forall p :: hash(p).Some? ==> compare(p, Str(hash(p).value)) == Some(true)
  }

  /** The body of a request that changes the password `current` into `next`. */
  function ChangeBody(current: string, next: string): Row {
    map["password" := Str(current), "newPassword" := Str(next)]
  }

  lemma SelectPasswordOnText(t: PasswordTable, raw: string, id: int)
    requires AsSqlInt(Str(raw)) == Some(id)
    ensures SelectPasswordStatement(t)([Str(raw)]) ==
      if id in t then Result([map["password" := Str(t[id])]], Some(1)) else Result([], Some(0))
  {
  }

  lemma UpdatePasswordOnText(t: PasswordTable, h: string, raw: string, id: int)
    requires AsSqlInt(Str(raw)) == Some(id)
    ensures UpdatePasswordStatement(t)([Str(h), Str(raw)]).Result?
  {
  }

  /**
   * changePasswordStudent against the stored hashes: an unknown student is 404
   * with nothing compared; for a known one the change succeeds exactly when the
   * old password matches the stored hash and the new one can be hashed, and a
   * mismatch is refused with 400.
   */
  lemma ChangePasswordOnTable(t: PasswordTable, raw: string, id: int, current: string, next: string,
                              compare: Comparer, hash: Hasher)
    requires AsSqlInt(Str(raw)) == Some(id)
    requires current != "" && next != "" && current != next
    ensures var out := ChangePasswordStudent(map["student_id" := raw], ChangeBody(current, next),
                                             SelectPasswordStatement(t), compare, hash, UpdatePasswordStatement(t));
      && (id !in t ==> out == Outcome(Sent(404, Text(StudentMissing)), [Query([Str(raw)])]))
      && (id in t ==> (out.reply.Status() == 200 <==>
                        compare(Str(current), Str(t[id])) == Some(true) && hash(Str(next)).Some?))
      && (id in t && compare(Str(current), Str(t[id])) == Some(false) ==> out.reply == Sent(400, Text(WrongOldPassword)))
  {
    var params := map["student_id" := raw];
    var body := ChangeBody(current, next);
    assert RouteParam(params, "student_id") == Str(raw);
    assert Get(body, "password") == Str(current) && Get(body, "newPassword") == Str(next);
    assert ChangeRequested(body);
    SelectPasswordOnText(t, raw, id);
    var out := ChangePasswordStudent(params, body, SelectPasswordStatement(t), compare, hash, UpdatePasswordStatement(t));
    if id in t {
      var stored := map["password" := Str(t[id])];
      assert Get(stored, "password") == Str(t[id]);
      match compare(Str(current), Str(t[id])) {
        case None =>
        case Some(false) =>
        case Some(true) =>
          if hash(Str(next)).Some? {
            UpdatePasswordOnText(t, hash(Str(next)).value, raw, id);
          }
      }
    }
  }

  /**
   * After a successful change the new password is the one the stored hash
   * accepts, so changing it straight back succeeds as well.
   */
  lemma ChangeThenChangeBack(t: PasswordTable, raw: string, id: int, current: string, next: string,
                             compare: Comparer, hash: Hasher)
    requires AsSqlInt(Str(raw)) == Some(id) && id in t
    requires current != "" && next != "" && current != next
    requires HashesMatch(hash, compare)
    requires compare(Str(current), Str(t[id])) == Some(true)
    requires hash(Str(next)).Some? && hash(Str(current)).Some?
    ensures ChangePasswordStudent(map["student_id" := raw], ChangeBody(current, next),
                                  SelectPasswordStatement(t), compare, hash, UpdatePasswordStatement(t)).reply ==
      Sent(200, Message(PasswordUpdated))
    ensures var after := SetPassword(t, id, hash(Str(next)).value);
      ChangePasswordStudent(map["student_id" := raw], ChangeBody(next, current),
                            SelectPasswordStatement(after), compare, hash, UpdatePasswordStatement(after)).reply ==
        Sent(200, Message(PasswordUpdated))
  {
    ChangePasswordOnTable(t, raw, id, current, next, compare, hash);
    var after := SetPassword(t, id, hash(Str(next)).value);
    assert compare(Str(next), Str(after[id])) == Some(true);
    ChangePasswordOnTable(after, raw, id, next, current, compare, hash);
  }
}
