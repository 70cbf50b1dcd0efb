# Request-decision layer of students-school-node-ts, in Dafny

students-school-node-ts is an Express and PostgreSQL backend for a school.
Students register and log in. A student's session lives in a JWT cookie
named `auth_token_<four digits>`, and the client echoes those digits back in
an `end_token` header. Students then enroll in courses, which are written in
programming languages.

This project models the part of the backend that decides things:
- the three authorization middlewares;
- the validation and outcome mapping of every controller in the core.

Each handler is a function, or a method where the source loops, from abstract
inputs to an `Outcome`. An `Outcome` has two parts:
- the reply: a sent status and body, or a status set while nothing is sent;
- the ordered trace of side effects asked for: each SQL statement with its
  bound parameters, password hashing and comparison, token signing, the
  cookie set, and an uploaded file unlinked.

The collaborators become parameters:
- Every SQL statement is a function from its parameters to its outcome: rows
  and `rowCount`, or a thrown error carrying PostgreSQL's `code` and
  `constraint`.
- `jwt.verify`, `jwt.sign`, bcrypt and `Math.random` become oracles.

The JavaScript semantics the code relies on are written out in module `Js`:
- truthiness and `typeof`;
- `String(v)`, `Number(v)` and `parseInt(v, 10)`;
- `==` (IsLooselyEqual, section 7.2.14 of ECMA-262) and `===`;
- `replace` with a string pattern, and with a global one-character regex.

The module `Tables` gives abstract versions of the tables. Enrollments are a
set of (student, course) pairs plus the ids their foreign keys refer to.
Languages are a map from id to name. Active students are a sequence of rows.
For each statement, `Tables` says what it returns on a given table and what
the table is afterwards. Lemmas run the handlers against these statements:
- enrolling twice is refused;
- a dropped enrollment is gone;
- a deleted language is never listed;
- a renamed language is fetched under its new name.

A login's cookie is accepted by `authenticateToken` when the client echoes
its suffix in `end_token`.

Files, one module each (`Wrappers` shares `js.dfy`):

| file | module | source |
|---|---|---|
| js.dfy | Wrappers, Js | JavaScript value semantics |
| http.dfy | Http | requests, replies, effects, the picture URL |
| tables.dfy | Tables | the tables behind the statements |
| verify_token.dfy | VerifyToken | src/middlewares/verify-token.ts |
| auth_student.dfy | AuthStudent | src/controllers/auth/auth.student.controllers.ts |
| students.dfy | Students | src/controllers/students.controllers.ts |
| courses.dfy | Courses | src/controllers/courses.controllers.ts |
| student_courses.dfy | StudentCourses | src/controllers/student-courses.controllers.ts |
| languages.dfy | Languages | src/controllers/languages.controllers.ts |

## Model

| member | source | states |
|---|---|---|
| VerifyToken.CookieName | src/middlewares/verify-token.ts:25 | The cookie name is `auth_token_` followed by the header with only its first `", "` removed. A header without `", "` is used unchanged. |
| VerifyToken.VerifyJwt | src/middlewares/verify-token.ts:15-71 | The checks run in order: header missing gives 400, then cookie missing gives 400, then verification failure gives 403. `next` is called exactly for a verified token that passes the cross-check. A failed cross-check gives 401 in key and body mode and 403 in legacy mode. Only key mode writes `req[key]`. |
| VerifyToken.CopyToRefreshToken | src/middlewares/verify-token.ts:89 | `refreshToken` is readable exactly when the named cookie exists, and then holds its value. Every other cookie is unchanged. |
| VerifyToken.ExtractCodeTokenFromCookie | src/middlewares/verify-token.ts:73-95 | A missing header gives 400. Otherwise `next` is always called, with `refreshToken` copied from the named cookie. The name is never empty, so the warning branch is dead. |
| VerifyToken.OwnerMatches | src/middlewares/verify-token.ts:134-139 | The check passes exactly when the route parameter is present and spells `String(claim)`. |
| VerifyToken.AuthenticateToken | src/middlewares/verify-token.ts:98-158 | The checks run in order: header missing gives 400, then cookie missing gives 401, then verification failure gives 403. A failed ownership check gives 403. On `next`, `refreshToken` holds the token, and `authId` is `decoded[decodedKey]` when decodedKey is set. |
| VerifyToken.MissingHeaderIgnoresCookiesAndVerifier | src/middlewares/verify-token.ts:17-22 | Without `end_token`, all three middlewares decide the same for any cookies and any verifier. The same holds at lines 79-84 and 104-109. |
| VerifyToken.CookieNameVerbatim | src/middlewares/verify-token.ts:25 | A header without a comma names `auth_token_` + header. |
| VerifyToken.CookieNameRemovesOnlyFirstSeparator | src/middlewares/verify-token.ts:25 | `a, b, c` names `auth_token_ab, c`: later separators survive. |
| VerifyToken.LooseAndStrictOwnershipDiffer | src/middlewares/verify-token.ts:40 | For the claim 7 and the route parameter "07", verifyJWT(key) lets the request through, while authenticateToken(key) answers 403. |
| VerifyToken.AuthenticateWithoutOptionsAcceptsVerified | src/middlewares/verify-token.ts:130-150 | With neither paramKey nor decodedKey, every verified token is let through. |
| VerifyToken.LegacyCheckAcceptsTokenWithoutId | src/middlewares/verify-token.ts:52-57 | In legacy mode, on a route without `comapanyId`, a verified token with no `id` claim is let through (see Findings). |
| VerifyToken.VerifyJwtCorrected | src/middlewares/verify-token.ts:52-65 | This is the legacy check as intended. In legacy mode a verified token is let through exactly when a present `userId` or `comapanyId` parameter loosely equals its `id` claim, and that claim is then neither undefined nor null. Whatever the corrected check lets through, verifyJWT lets through unchanged; it only adds a 403 refusal. Key and body modes are unchanged. |
| VerifyToken.LegacyOwnerNeedsId | src/middlewares/verify-token.ts:55 | When a present route parameter loosely equals the claim, the claim is neither undefined nor null. |
| AuthStudent.ProfilePicture | src/controllers/auth/auth.student.controllers.ts:23 | The value is the upload's path when one exists, and null otherwise. |
| AuthStudent.Cleanup | src/controllers/auth/auth.student.controllers.ts:91-93 | `errorImage` requests exactly one unlink, of the upload's path, when there is an upload, and nothing otherwise. |
| AuthStudent.InsertValues | src/controllers/auth/auth.student.controllers.ts:60-83 | Against the INSERT's column list: the value at each column's position is the body field of the same name, except the hash for `password` and the upload (or null) for `profile_picture`. |
| AuthStudent.RegisterErrorReply | src/controllers/auth/auth.student.controllers.ts:96-108 | The `chk_age_adult` constraint gives 400 with the age message, whatever the code. Only then does code 23505 give 400 with the email message. Any other error gives 500. |
| AuthStudent.RegisterStudentAccount | src/controllers/auth/auth.student.controllers.ts:9-110 | Checks run in order: the first falsy required field, then the password mismatch, then a password under 6 UTF-16 code units, each giving 400. Hashing happens only after all three pass, then the insert. It answers 201 exactly when the insert succeeds. Every other outcome ends by unlinking the upload, and 201 never unlinks it. |
| AuthStudent.MissingFieldNone | src/controllers/auth/auth.student.controllers.ts:36-41 | The loop finds no missing field exactly when every required field is truthy. |
| AuthStudent.MissingFieldIsFirst | src/controllers/auth/auth.student.controllers.ts:36-41 | The field named is falsy, and every field listed before it is truthy. |
| AuthStudent.ValidRegistrationPassword | src/controllers/auth/auth.student.controllers.ts:44-54 | A string password that passes the checks is at least 6 UTF-16 code units long (`.length`) and equals its confirmation. |
| AuthStudent.NumericPasswordSkipsLengthCheck | src/controllers/auth/auth.student.controllers.ts:49 | A non-zero numeric password passes the presence and length checks. |
| AuthStudent.PasswordLengthInCodeUnits | src/controllers/auth/auth.student.controllers.ts:49 | For characters of the Basic Multilingual Plane the rule needs 6 characters. For characters above U+FFFF, such as emoji, 3 suffice, since each counts twice. |
| AuthStudent.RegisterOnTable | src/controllers/auth/auth.student.controllers.ts:85-108 | On the students table, a valid registration answers 201 exactly when PostgreSQL reads the age, given as a number or as form text, as an integer of at least 18, and the email is new. Under 18 gives the age message. A taken email gives the email message. An age that is not an integer in int4's range gives 500. A refusal unlinks the upload. |
| AuthStudent.SetPassword | src/controllers/auth/auth.student.controllers.ts:224-230 | The UPDATE changes only the named student's stored hash, which becomes the new one. |
| AuthStudent.ChangePasswordOnTable | src/controllers/auth/auth.student.controllers.ts:203-232 | Against the stored hashes, an unknown student gives 404 with nothing compared. For a known student, the change answers 200 exactly when the old password matches the stored hash and the new one can be hashed. A mismatch gives 400. |
| AuthStudent.ChangeThenChangeBack | src/controllers/auth/auth.student.controllers.ts:215-232 | A password compares equal to its own bcrypt hash. So after a successful change, the stored hash accepts the new password, and changing straight back also answers 200. |
| AuthStudent.WithoutPassword | src/controllers/auth/auth.student.controllers.ts:154 | The result has the row's keys minus `password`, each with its value. |
| AuthStudent.RandomSuffix | src/controllers/auth/auth.student.controllers.ts:166-168 | `Math.floor(1000 + r * 9000)` lies in [1000, 9999]. |
| AuthStudent.FourDigitSuffix | src/controllers/auth/auth.student.controllers.ts:166-170 | The suffix's numeral has four digits and no comma. |
| AuthStudent.LoginStudentAccount | src/controllers/auth/auth.student.controllers.ts:113-182 | Checks run in order: missing credentials give 400, then a missing secret gives 500, both before any query. No row gives 404; a wrong password gives 401. A 200 needs the password to match. The account sent and the account signed are the same: the row without `password`, with the picture rewritten. The token goes into cookie `auth_token_<suffix>`. Once the database is reached, every outcome is given path by path with the effects issued so far. A failed select, an unusable comparison, a picture URL that cannot be built and a failed signing each give 500 with the login-failure text. A matching password with a URL and a token gives exactly `200` with the account, and the effects are query, compare, sign, set cookie. |
| AuthStudent.LoginSessionAuthenticates | src/controllers/auth/auth.student.controllers.ts:170 | An `end_token` carrying the login's suffix names exactly the login's cookie. authenticateToken with decodedKey `student_id` then lets the request through, with `authId` set to the token's `student_id`. |
| AuthStudent.ChangePasswordStudent | src/controllers/auth/auth.student.controllers.ts:185-237 | Missing passwords give 400, and equal passwords give 400, both before any lookup. A failed lookup gives 500, and no active row gives 404. A wrong old password gives 400 and a failing comparison 500, both before hashing. After a match, any failure gives 500. A 200 means the old password matched and the new hash was written for the route's id. |
| AuthStudent.NewPasswordHasNoLengthRule | src/controllers/auth/auth.student.controllers.ts:220-232 | A one-character new password is accepted. |
| Students.GetStudents | src/controllers/students.controllers.ts:7-35 | A rowCount of exactly 0 gives 404. Any other result gives 200 with the rows, and a thrown error gives 500. |
| Students.BatchPage | src/controllers/students.controllers.ts:45-83 | A NaN value, limit <= 0 or offset < 0 gives 400. Only then does limit > 20 give its own 400. The query runs only with 1 <= limit <= 20 and offset >= 0. An empty page gives 404. |
| Students.BatchDefaults | src/controllers/students.controllers.ts:39 | With no limit or offset in the query string, the statement gets limit 5 and offset 0. |
| Students.BatchReadsTextLimit | src/controllers/students.controllers.ts:42-43 | A limit given as text is bound as `parseInt` reads it. |
| Students.BatchReadsLeadingDigits | src/controllers/students.controllers.ts:42-43 | The limit "7x" is accepted and bound as 7. |
| Students.BatchRefusesLargeLimit | src/controllers/students.controllers.ts:54-56 | A limit above 20 gives 400 without a query. |
| Students.BatchPageOnTable | src/controllers/students.controllers.ts:72-78 | Against the active rows, the reply is 404 exactly when the offset is past the end. Otherwise it is 200 with `active[offset..offset+limit]`. |
| Students.DefaultPageIsFullListing | src/controllers/students.controllers.ts:7-83 | With 1 to 5 active students, the default page and the full listing send the same reply. |
| Students.GetStudentsById | src/controllers/students.controllers.ts:86-120 | No row gives 404. A found row is sent with its picture rewritten and every other field unchanged. A truthy non-string picture throws, giving 500. |
| Http.PictureUrl | src/controllers/students.controllers.ts:110-112 | The URL is `protocol://host/` followed by the path with every backslash turned into `/`. No backslash is left after the prefix. |
| Http.WithPictureUrl | src/controllers/students.controllers.ts:109-113 | Only a truthy `profile_picture` is rewritten. Keys and every other field are kept. |
| Courses.CreateCourse | src/controllers/courses.controllers.ts:27-85 | Checks run in order: the first failing key's message, then the difficulty list, each giving 400 with no query. The insert binds the five fields in key order. Code 23503 gives 400 and any other error 500. rowCount 0 gives 501 (Not Implemented); any other result gives 200. |
| Courses.FirstFieldErrorNone | src/controllers/courses.controllers.ts:39-49 | There is no message exactly when every key passes its checks. |
| Courses.FirstFieldErrorIsFirst | src/controllers/courses.controllers.ts:39-49 | The message belongs to the first failing key, and every earlier key passes. |
| Courses.AcceptedFields | src/controllers/courses.controllers.ts:39-49 | The checks pass exactly for a truthy title and difficulty and a non-zero number for price and language_id. The description is optional. |
| Courses.PastFirstThreeKeys | src/controllers/courses.controllers.ts:39-42 | With a title and a difficulty, the first message can only come from price or language_id. |
| Courses.ZeroPriceRefused | src/controllers/courses.controllers.ts:40-41 | A price of 0 gets "The price value is required". |
| Courses.TextPriceRefused | src/controllers/courses.controllers.ts:43-44 | A price sent as non-empty text gets "The price must be a number". |
| Courses.Placeholders | src/controllers/courses.controllers.ts:63-65 | There is one `$`-placeholder per value. |
| Courses.PlaceholderNamesParameter | src/controllers/courses.controllers.ts:63-65 | Placeholder i reads as parameter i+1. |
| Courses.PlaceholderBindsField | src/controllers/courses.controllers.ts:61-68 | The column list is `Object.keys(courseData)`. Column i gets the placeholder naming parameter i+1, and `Object.values` puts the body's field of that key there. Each field lands in its own column. |
| Courses.CreateCourseOnCatalogue | src/controllers/courses.controllers.ts:68-81 | A course that passes the checks gets 200 exactly when its language exists, and 400 otherwise. A language_id outside int4's range gives 500. |
| StudentCourses.ValidCourseId | src/controllers/student-courses.controllers.ts:10 | courseId passes exactly when it is a number greater than 0. |
| StudentCourses.ValidRouteCourseId | src/controllers/student-courses.controllers.ts:144 | course_id passes exactly when it is non-empty and `Number` reads it as an integer greater than 0. That covers signed decimal text and `0b`, `0o` or `0x` literals. |
| StudentCourses.AddCourseToStudent | src/controllers/student-courses.controllers.ts:6-54 | A bad courseId gives 400 before a missing authId gives 401. The insert binds (authId, courseId). Success gives 201, code 23505 gives 400, code 23503 gives 404, and anything else 500. |
| StudentCourses.GetCoursesStudent | src/controllers/student-courses.controllers.ts:57-95 | A missing authId gives 401. Otherwise the reply is 200 with `{courses: rows}`, or 500. |
| StudentCourses.ClearedMessage | src/controllers/student-courses.controllers.ts:115-118 | The "nothing to remove" message is used exactly when rowCount is null or 0. |
| StudentCourses.DeleteAllCoursesStudent | src/controllers/student-courses.controllers.ts:98-130 | A missing authId gives 401. Otherwise the reply is always 200, with the message and `courses_removed_count` = rowCount. |
| StudentCourses.DropReply | src/controllers/student-courses.controllers.ts:167-184 | `deleted` gives 200, and `not_enrolled` gives 404 with the course id. `no_course` gives 404 naming the parameter as written. No row gives 500. Any other status leaves the request unanswered. |
| StudentCourses.DeleteCourseStudent | src/controllers/student-courses.controllers.ts:133-191 | A missing authId gives 401, then a bad course_id gives 400, both before the query. The query binds `Number(course_id)`. |
| StudentCourses.EnrollOnTable | src/controllers/student-courses.controllers.ts:28-47 | On the table, a duplicate pair gives 400. A missing student or course gives 404. Otherwise the reply is 201. An id outside int4's range gives 500. |
| StudentCourses.EnrollTwiceRefused | src/controllers/student-courses.controllers.ts:34-39 | The second identical enrollment gets 400 and leaves the table unchanged. |
| StudentCourses.DropCourseOnTable | src/controllers/student-courses.controllers.ts:151-184 | `deleted` holds exactly for an enrolled pair, then `not_enrolled` for an existing course, then `no_course`. These give 200, 404 and 404. An id outside int4's range gives 500 from the catch. |
| StudentCourses.DropStatementRow | src/controllers/student-courses.controllers.ts:151-167 | The handler answers from the one status row the statement returns. |
| StudentCourses.DropCourseByNumeral | src/controllers/student-courses.controllers.ts:166-181 | Dropping course c answers 200 exactly when the student was enrolled in c, 500 when an id is outside int4's range, and 404 otherwise. |
| StudentCourses.ClearThenDrop | src/controllers/student-courses.controllers.ts:108-123 | Clearing reports the student's enrollment count. Afterwards, dropping any course answers 404. A student id outside int4's range gives 500 to both. |
| StudentCourses.EnrollsTokenStudent | src/controllers/student-courses.controllers.ts:7 | Behind authenticateToken with decodedKey `student_id`, the insert binds the token's `student_id`. |
| Tables.Enroll | src/controllers/student-courses.controllers.ts:23-28 | A duplicate pair fails with 23505 and a missing id with 23503. Otherwise the pair is added with rowCount 1. Foreign keys stay valid. |
| Tables.DeleteEnrollment | src/controllers/student-courses.controllers.ts:151-163 | The CASE status follows the precedence above. Afterwards the pair is absent and nothing else changes. |
| Tables.DeleteAllEnrollments | src/controllers/student-courses.controllers.ts:108-113 | The count removed is the student's enrollment count. None of their enrollments remain, and every other enrollment stays. |
| Tables.DeleteLanguageRow | src/controllers/languages.controllers.ts:105-107 | A language that courses still reference is refused with 23503 and kept. Otherwise rowCount is 1 exactly for an existing id, that id is gone afterwards, and the other rows are unchanged. |
| Tables.UpdateLanguageRow | src/controllers/languages.controllers.ts:77-83 | rowCount is 0 exactly for a missing id. Only that row's name changes. |
| Tables.AsSqlInt | src/controllers/student-courses.controllers.ts:163 | A parameter bound to an `integer` column or cast is read exactly when it is a number or integer text within int4's range, -2^31..2^31-1. Text is read as `Number` reads it. Anything else fails the statement. |
| Tables.Page | src/controllers/students.controllers.ts:58-70 | `LIMIT/OFFSET` gives at most `limit` rows, the i-th being `active[offset+i]`. The page is empty exactly past the end. |
| Languages.AddLanguage | src/controllers/languages.controllers.ts:5-24 | A falsy name gives 400 before the insert. The reply is 200 exactly when rowCount > 0, a thrown error gives 500, and the request is otherwise unanswered. |
| Languages.GetListLanguages | src/controllers/languages.controllers.ts:27-40 | The rows are sent with 200 when there are any, and with 404 when there are none. A thrown error gives 500. |
| Languages.GetLanguageById | src/controllers/languages.controllers.ts:43-65 | A falsy id gives 400. A found row is sent with 200. No row sets 404 and sends nothing. |
| Languages.UpdateNameLanguage | src/controllers/languages.controllers.ts:68-94 | A falsy name gives 400 before the query. rowCount exactly 0 gives 404, anything else 200. |
| Languages.DeleteLanguage | src/controllers/languages.controllers.ts:97-119 | A falsy id gives 400. rowCount > 0 gives 200, and anything else (null included) 404. |
| Languages.GetLanguageByIdOnTable | src/controllers/languages.controllers.ts:51-60 | On the table, an existing id gives 200 with its row; otherwise 404 is set and nothing is sent. |
| Languages.DeleteLanguageOnTable | src/controllers/languages.controllers.ts:105-118 | On the table, deleting gives 200 exactly for an existing language no course uses. A language still in use is kept, and the request gets 500 from the catch. A missing id gives 404, and so does a second delete after one that went through. |
| Languages.RenameThenFetch | src/controllers/languages.controllers.ts:77-89 | Renaming gives 200 exactly for an existing id, and fetching it afterwards returns the new name. |
| Languages.UnreadableIdFails | src/controllers/languages.controllers.ts:43-119 | An id that PostgreSQL cannot read as an int4 (malformed, or out of range) gives 500 from the lookup, the rename and the delete alike. |
| Languages.ListingOnTable | src/controllers/languages.controllers.ts:29-35 | A listing taken after a delete that went through never shows the deleted id, and is 200 exactly when languages remain. |
| Js.ReplaceFirst | src/middlewares/verify-token.ts:25 | `replace` with a string pattern rewrites only the first occurrence. |
| Js.ReplaceAllChar | src/controllers/students.controllers.ts:112 | `replace(/\\/g, "/")` keeps the length and rewrites every backslash. |
| Js.ParseIntOfIntToString | src/controllers/students.controllers.ts:42-43 | `parseInt(String(i), 10)` is i. |
| Js.ParseIntDigitPrefix | src/controllers/students.controllers.ts:42-43 | `parseInt` reads the leading digits and stops at the first non-digit. |
| Js.Utf16Length | src/controllers/auth/auth.student.controllers.ts:49 | `.length` counts UTF-16 code units: at least one per character, and at most two. |
| Js.RadixLiteral | src/controllers/student-courses.controllers.ts:144 | `Number` reads an unsigned `0b`, `0o` or `0x` literal as the value of its digits in that base. |
| Js.StringToNumberOfIntToString | src/controllers/student-courses.controllers.ts:144 | `Number(String(i))` is i. |
| Js.LooseEqualsSymmetric | src/middlewares/verify-token.ts:55 | `==` is symmetric, so `userId == decoded.id` and its mirror agree. |
| Js.LooseEqualsUndefined | src/middlewares/verify-token.ts:55 | `undefined == v` holds exactly for undefined and null. |
| Js.LooseEqualsNumberNumeral | src/middlewares/verify-token.ts:40 | A number loosely equals its own decimal numeral. |
| Js.LeadingZeroNumeral | src/middlewares/verify-token.ts:40 | `7 == "07"` holds, while `"07" === String(7)` does not. |

## Left out

- bcrypt and jsonwebtoken are oracles. Hashing, comparison, signing and verification (expiry included) are not modelled. bcrypt throwing on a non-string password is an oracle answer of None. The one property of bcrypt that is used, that a password compares equal to its own hash, is a precondition of `AuthStudent.ChangeThenChangeBack`.
- Numbers are integers or NaN. Floating point and Infinity are left out. So are `Number` of exponent or fractional text, and `parseInt` of such text. Objects with their own `toString` are left out too.
- StudentCourses.ValidRouteCourseId: `Number("1e2")` is 100 and `Number("2.0")` is 2, and the source accepts both; the model reads NaN and answers 400. `Number("Infinity")` passes the source's check, and the query then fails with 500; the model answers 400.
- Module Tables approximates PostgreSQL's integer input: a number, or text that `Number` reads as an integer. Reading `0x`, `0o` and `0b` text follows PostgreSQL 16 and later. Both malformed input (22P02) and out-of-range input (22003) are a plain statement failure; no handler looks at those codes.
- The bigint range of LIMIT and OFFSET is not modelled. An offset of 2^63 or more fails there with 500, and the model pages past the end instead. Beyond 2^53 the source's `parseInt` has already lost precision, which the model leaves out with floating point.
- The schema is not part of this model. These are assumed:
  - the foreign keys of `student_courses` and `courses`, with no action on delete, so a language that courses reference cannot be deleted;
  - the unique email of `students`;
  - `integer` (int4) id columns (`student_id`, `course_id`, `language_id`) and an `integer` age column. An id or age outside -2^31..2^31-1 makes the statement fail with 22003, and the handlers' catches answer 500;
  - a CHECK constraint named `chk_age_adult` that PostgreSQL evaluates before the unique index;
  - listings in some fixed order.
- `Math.random` is a real `r` in [0, 1). The `Date` cookie expiry and the cookie flags chosen by `NODE_ENV` are not modelled; only the cookie's name and value are.
- `fs.unlink` in src/utils/functions.ts is an effect requested by the handler. Its callback and logging are not modelled.
- Console logging is not modelled.
- `req.body` is always a parsed object. An absent body would make destructuring throw before any check.
- Express 4 is assumed for `res.send(501)` at src/controllers/courses.controllers.ts:71. The call sends 501 with its reason text. The chained `.send` then throws, the catch's 500 cannot be sent, and the promise rejects with no handler. Under Node 15 and later, whose default for an unhandled rejection is to end the process, the server then exits. The model records the 501 that reaches the client and not the exit.
- The model follows the code in these places:
  - the new password of changePasswordStudent has no length rule;
  - the legacy route parameter is spelled `comapanyId`;
  - authenticateToken answers 401 for a missing cookie;
  - a wrong old password gives 400.
- src/middlewares/multer-config.ts is not part of this model (upload storage and file filtering). Its only output used here is the optional uploaded path.
- src/index.ts, src/db.ts, src/utils/config.ts and the route files are not part of this model; they are wiring. `SECRET_KEY` is a parameter of the login. src/routes/auth/auth.students.routes.ts:10 names `registerAccount`, which the controller does not export.
- Students.GetBatchStudents: the handler itself carries no contract of its own. It applies `Students.BatchPage` to `parseInt(String(v), 10)` of the query values, with 5 and 0 as defaults. The lemmas BatchDefaults, BatchReadsTextLimit, BatchReadsLeadingDigits, BatchRefusesLargeLimit, BatchPageOnTable and DefaultPageIsFullListing state its behaviour.
- The insert of addLanguage has no table model. Its outcome is a parameter of `Languages.AddLanguage`.

## Findings

| source | as written | input that shows it | evidently intended | confidence | as-written member | corrected member |
|---|---|---|---|---|---|---|
| src/middlewares/verify-token.ts:52-57 | The legacy check `userId == decoded?.id \|\| comapanyId == decoded?.id` compares possibly absent values with `==`. | The token from a login carries `student_id` and no `id`. On a route without `userId` and `comapanyId`, both sides are `undefined` and `undefined == undefined` holds, so any verified token is accepted. | Accept only a token whose `id` matches a route parameter that is present. | not executed | VerifyToken.LegacyCheckAcceptsTokenWithoutId | VerifyToken.VerifyJwtCorrected |
