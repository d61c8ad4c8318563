# School management API: a Dafny model of its core

The system is a school-management web application. An Express server on PostgreSQL exposes
these resources:

- users, who register and log in and get a JWT;
- courses, and the teachers assigned to them;
- the topics of each course;
- attendance marks;
- grades.

Route handlers sit behind an authorization gate: `verifyToken` decodes the bearer token, and
`hasRole` admits only one exact role. Two React pages filter, sort and paginate lists fetched
from the API.

This project models:

- the gate;
- the user controller (register, login, profile);
- the attendance, users, grades, courses, teachers and topics routers;
- the list logic of the Enrollments and Attendance pages.

## How the model is built

- **Tables.** Each database table is a sequence of rows that carry a serial id. It is a field of
  the `Db.Store` class, whose fields the handlers update in place. `Store.Valid` is the schema's
  own constraints: primary keys, and `UNIQUE (student_id, course_id, date)` on attendance.
- **Changing handlers.** A handler that changes the database is a method with a frame on exactly
  the tables it writes. Its `ensures` states the reply and the new state in every branch:
  forbidden, bad request, not found, success.
- **Read-only handlers.** A handler that only reads is a function whose result states its order
  and contents.
- **`ORDER BY`.** This is a stable sort (`Ordering.SortBy`) on a key of numbers, strings and
  NULLs; NULLs sort last in ascending order, as PostgreSQL does. PostgreSQL leaves the order of
  rows with equal keys unspecified; the model fixes one of the orders it permits, storage order.
- **Query parameters.** A text parameter bound to an integer column is read the way
  PostgreSQL's integer input reads it (`Pg.ParseInt4`), not with JavaScript's `Number`.
- **Joins.** An inner join for one row looks up the first row of the other table with the given
  id. Because ids are unique, this is exact.
- **External libraries.** `jwt.sign`, `jwt.verify`, `bcrypt.hash` and `bcrypt.compare` are
  function parameters. `JWT_SECRET` is an `Option<string>` parameter. The clock that fills
  `created_at` is a `now` parameter.
- **Request fields.** A field that is absent or null in a request body is `None`.
  `Js.Truthy`, `Js.Present` and `Js.ToNumber` give JavaScript's `!x` and `Number(x)` on them.

## Model

| member | source | states |
|---|---|---|
| Auth.ExtractToken | server/middleware/auth.ts:23-25 | a header without the "Bearer " prefix is taken whole as the token |
| Auth.BearerToken | server/middleware/auth.ts:23-25 | after "Bearer ", `split(" ")[1]` yields the token up to the next space or the end of the header |
| Auth.BearerRoundTrip | server/middleware/auth.ts:23-25 | the header `Bearer ${token}` yields the token back when the token has no space |
| Auth.BearerSplit | server/middleware/auth.ts:24 | splitting "Bearer " + rest on spaces gives "Bearer" followed by the fields of rest |
| Auth.Authenticate | server/middleware/auth.ts:15-38 | a missing or empty header is 401 "No token provided"; a missing secret, or a token `jwt.verify` rejects, is 403 "Invalid or expired token"; it proceeds exactly when the header is present, the secret is set and verification decodes the extracted token, and the caller is then the decoded payload; every refusal is 401 or 403 |
| Auth.RejectionsIndistinguishable | server/middleware/auth.ts:35-37 | any two present headers that are refused get the same status and message, so forged and expired tokens cannot be told apart |
| Auth.VerifyToken | server/middleware/auth.ts:15-38 | the middleware decides as `Authenticate`; on success it stores the decoded payload in `req.user`, and on refusal leaves `req.user` as it was |
| Auth.HasRole | server/middleware/auth.ts:41-53 | no user is 403 "Unauthorized"; another role is 403 "<role>s only"; it proceeds exactly when the role matches, with that user |
| Auth.IsAdmin | server/middleware/auth.ts:55 | it proceeds exactly for role "admin"; any other role gets 403 "admins only" |
| Auth.IsStudent | server/middleware/auth.ts:56 | it proceeds exactly for role "student"; any other role gets 403 "students only" |
| Auth.Guard | server/middleware/auth.ts:15-56 | `verifyToken` followed by an optional `hasRole` proceeds exactly when both do, with the decoded caller; a missing header is always 401 |
| Text.Split | server/middleware/auth.ts:24 | `split(" ")` gives at least one field, and no field contains a space |
| Text.JoinSplit | server/middleware/auth.ts:24 | joining the fields of a split with single spaces restores the string |
| Text.SplitJoin | server/middleware/auth.ts:24 | splitting a join of space-free fields restores the fields |
| Text.SplitField | server/middleware/auth.ts:24 | a space-free prefix extends the first field of what it precedes |
| Text.TrimStart | server/routes/users.ts:46 | it removes exactly the leading white space: a suffix of the input, with a white-space-free first character |
| Text.TrimEnd | server/routes/users.ts:46 | it removes exactly the trailing white space: a prefix of the input, with a white-space-free last character |
| Text.TrimEmptyIffBlank | server/routes/users.ts:46 | `s.trim() === ""` exactly when every character of `s` is white space |
| Js.ParseNumber | server/routes/attendance.ts:19 | `Number` of "" is 0, and of a run of digits is its decimal value; any other accepted string holds a digit |
| Js.ToNumber | server/routes/attendance.ts:19-26 | `Number(undefined)` is NaN, `Number(null)` is 0, and a number is itself |
| Pg.StripStart | server/routes/topics.ts:13-16 | it removes exactly the leading white space that integer input skips |
| Pg.StripEnd | server/routes/topics.ts:13-16 | it removes exactly the trailing white space that integer input skips |
| Pg.Signed | server/routes/topics.ts:13-16 | a run of digits reads as its decimal value; "", "+" and "-" are rejected |
| Pg.ParseInt4 | server/routes/topics.ts:13-16 | an accepted parameter is a 32-bit integer; a parameter with nothing but white space is rejected |
| Pg.BlankRejected | server/routes/topics.ts:13-16 | a parameter of white space only, the empty one included, is an input error |
| Pg.DigitsAccepted | server/routes/topics.ts:13-16 | a plain run of digits reads as its value when it fits in 32 bits, and is an out-of-range error otherwise |
| Pg.ShowNatRoundTrip | server/routes/topics.ts:13-16 | an id written in decimal reads back as that id |
| Js.ShowNat | client/src/pages/Attendance.tsx:97 | `String(n)` is a non-empty string of digits |
| Js.ShowNatValue | client/src/pages/Attendance.tsx:97 | the digits of `String(n)` read back as `n` |
| Js.ToNumberShowNat | client/src/pages/Attendance.tsx:97 | `Number(String(n)) === n`, so an id typed into the student filter matches that student |
| Ordering.StrLessIrreflexive | server/routes/users.ts:31 | no string sorts before itself |
| Ordering.StrLessTransitive | server/routes/users.ts:31 | string order is transitive |
| Ordering.StrLessTotal | server/routes/users.ts:31 | of two different strings, one sorts first |
| Ordering.KeyLessIrreflexive | server/routes/topics.ts:18 | no sort key, NULL included, comes before itself |
| Ordering.KeyLessTransitive | server/routes/topics.ts:18 | key order is transitive |
| Ordering.KeyLessTotal | server/routes/topics.ts:18 | key order is total |
| Ordering.NotLessTransitive | server/routes/topics.ts:18 | "not after" is transitive |
| Ordering.NotBeforeTransitive | server/routes/topics.ts:18 | in either direction, "not placed ahead" is transitive |
| Ordering.BeforeAsymmetric | server/routes/topics.ts:18 | two keys are never each placed ahead of the other |
| Ordering.Insert | server/routes/topics.ts:18 | inserting into a sorted list adds exactly that element and keeps it sorted |
| Ordering.InsertAhead | server/routes/topics.ts:18 | an element not placed behind the head of a sorted list may go first |
| Ordering.InsertBehind | server/routes/topics.ts:18 | a head that the inserted element is placed behind stays first |
| Ordering.SortBy | server/routes/courses.ts:15 | `ORDER BY key dir` is a permutation of its input, with no row placed ahead of one it precedes |
| Ordering.InsertStable | client/src/pages/Enrollments.tsx:81-98 | inserting an element keeps the order of the elements that tie on any one key, and puts the element ahead of its own ties |
| Ordering.SortByStable | client/src/pages/Enrollments.tsx:81-98 | the sort is stable: for every key, the elements with that key come out in the order they went in |
| Ordering.SameElements | server/routes/courses.ts:15 | reordering keeps every element on both sides |
| Seqs.Filter | client/src/pages/Enrollments.tsx:62 | `filter(p)` keeps exactly the elements satisfying `p`, and nothing else |
| Seqs.SubsequenceReflexive | client/src/pages/Enrollments.tsx:60-73 | a list is a subsequence of itself |
| Seqs.FilterIsSubsequence | client/src/pages/Enrollments.tsx:62 | a filter keeps the original order |
| Seqs.SubsequenceTransitive | client/src/pages/Enrollments.tsx:60-73 | a filter of a filter is still an order-preserving selection of the original |
| Seqs.FilterFilter | client/src/pages/Enrollments.tsx:65-71 | two filters in a row equal one filter by the conjunction |
| Seqs.FilterAll | client/src/pages/Enrollments.tsx:63 | a filter that admits everything returns the list unchanged |
| Seqs.FilterIf | client/src/pages/Attendance.tsx:91-104 | an optional filter stage is the list itself when inactive and `Filter(s, p)` when active; either way it keeps order |
| Seqs.FilterCount | client/src/pages/Attendance.tsx:91-104 | a filter keeps every copy of an element that passes and no copy of one that does not |
| Seqs.FilterAgree | client/src/pages/Attendance.tsx:91-104 | two conditions that agree on every element filter the list alike |
| Seqs.FilterThen | client/src/pages/Attendance.tsx:91-104 | filtering by `p` and then by `q` equals one filter by their conjunction |
| Seqs.FilterIfIsFilter | client/src/pages/Attendance.tsx:91-104 | an optional stage is one filter by "inactive, or `p`" |
| Seqs.FilterIfThen | client/src/pages/Attendance.tsx:91-104 | an optional stage after a filter is one filter by the conjunction of both conditions |
| Seqs.FilterMapInOrder | server/routes/courses.ts:12-14 | the join keeps order and multiplicity: position by position, its result is the image of the rows that join, in storage order |
| Seqs.FilterMap | server/routes/courses.ts:12-14 | an inner join gives the joined value of every row that joins, and every value it gives comes from a row that joins |
| Seqs.FilterDistinct | server/routes/attendance.ts:54-70 | a filter of a list with pairwise distinct keys keeps them distinct |
| Seqs.FilterMapDistinct | server/routes/attendance.ts:54-70 | a join whose views carry the key of their row keeps keys pairwise distinct |
| Seqs.PermutationKeepsDistinct | server/routes/attendance.ts:53-70 | reordering a list with pairwise distinct keys keeps them distinct |
| Paging.TotalPages | client/src/pages/Enrollments.tsx:101 | `Math.ceil(n / 5)` is the fewest pages of five that hold `n` items; it is 0 exactly for no items |
| Paging.SliceIndex | client/src/pages/Enrollments.tsx:102-105 | a non-negative bound is clamped to the length; a negative bound counts back from the end, and stops at 0 |
| Paging.Slice | client/src/pages/Enrollments.tsx:102-105 | `slice(start, end)` with `0 <= start <= end` is the clamped subrange, with at most `end - start` items |
| Paging.Page | client/src/pages/Enrollments.tsx:102-105 | a page holds at most five items, and is non-empty exactly when its number is below `totalPages` |
| Paging.Current | client/src/pages/Attendance.tsx:106-111 | `currentRecords` for page `currentPage` from 1 is page `currentPage - 1` counted from 0, with at most five records |
| Paging.PagesPrefix | client/src/pages/Enrollments.tsx:101-105 | the first `n` pages together are the first `5n` items |
| Paging.PagesCoverAll | client/src/pages/Enrollments.tsx:101-105 | pages 1 to `totalPages` show every item exactly once, in order |
| Tables.Insert | server/routes/grades.ts:46-50 | `INSERT ... RETURNING *` appends one row whose id is the serial's next value and keeps the primary key |
| Tables.FindId | server/routes/courses.ts:49-56 | a lookup by id returns a row with that id, and finds none exactly when no row has it |
| Tables.FindIdUnique | server/routes/courses.ts:49-56 | under the primary key, the row found is the one row with that id |
| Tables.SetId | server/routes/courses.ts:49-52 | `UPDATE ... WHERE id` rewrites only the rows with that id, keeps every other row and the length, and keeps the primary key |
| Tables.DeleteId | server/routes/courses.ts:69 | `DELETE ... WHERE id` keeps exactly the rows with another id |
| Tables.DeleteIdInOrder | server/routes/courses.ts:69 | deleting keeps the remaining rows in storage order |
| Tables.SetIdTwice | server/routes/grades.ts:61-64 | an idempotent update applied twice to one id stores what applying it once stores |
| Tables.DeleteIdKeyed | server/routes/courses.ts:69 | deleting keeps the primary key |
| Tables.DeleteIdCount | server/routes/courses.ts:69-73 | on a keyed table, deleting removes one row when the id exists and none otherwise |
| Db.Store.AddUser | server/controllers/users.ts:29-32 | inserting a users row appends it with the next serial id and keeps the constraints |
| Db.Store.AddStudent | server/controllers/users.ts:36-37 | inserting a students row appends it with the next serial id and keeps the constraints |
| Db.Store.AddTeacher | server/routes/teachers.ts:30-33 | inserting a teachers row appends it with the next serial id and keeps the constraints |
| AttendanceRoutes.TargetStudent | server/routes/attendance.ts:18-19 | a student's mark is always for the caller; otherwise it is `Number(student_id ?? 0)` |
| AttendanceRoutes.Validate | server/routes/attendance.ts:14-28 | a missing course_id, date or status is 400 "Missing required fields", checked first; then a zero or NaN target is "Student ID required"; then a NaN course id is "Invalid course ID"; it succeeds exactly when all three checks pass, and a student always marks their own id |
| AttendanceRoutes.KeyIndex | server/routes/attendance.ts:33 | it finds a row with the conflict key, and finds none exactly when no row has that key |
| AttendanceRoutes.Upsert | server/routes/attendance.ts:30-37 | `ON CONFLICT ... DO UPDATE SET status`: a new key appends a row with the next id; an existing key keeps the length and the row's id and overwrites its status; other rows stay; both constraints are kept, and the returned row is the only one with the key |
| AttendanceRoutes.ReplaceKeepsKeys | server/routes/attendance.ts:33-34 | overwriting a row in place, with the same id and key, keeps the primary key and the unique key |
| AttendanceRoutes.KeyIndexAppend | server/routes/attendance.ts:31-33 | an appended row with a new key is found at the end |
| AttendanceRoutes.UpsertIdempotent | server/routes/attendance.ts:30-37 | submitting the same mark twice leaves what submitting it once leaves |
| AttendanceRoutes.UpsertLastWins | server/routes/attendance.ts:30-37 | of two marks for one student, course and date, the later status wins and one row remains |
| AttendanceRoutes.Post | server/routes/attendance.ts:7-39 | a failed check answers 400 with its message and writes nothing; a valid body is upserted and answered 201 with the stored row |
| AttendanceRoutes.AdminJoin | server/routes/attendance.ts:55-58 | a mark joins exactly when its student's user row and its course exist, and carries the student's name |
| AttendanceRoutes.StudentJoin | server/routes/attendance.ts:64-67 | a mark joins exactly when it is the caller's and its course exists; it carries no name |
| AttendanceRoutes.AdminViews | server/routes/attendance.ts:54-60 | the join of the marks in storage order (a `FilterMap`, so order and multiplicity are those of the marks that join): every joining mark, and only views built from stored marks |
| AttendanceRoutes.StudentViews | server/routes/attendance.ts:63-70 | the join of the caller's marks in storage order (a `FilterMap`): every joining mark of the caller, and only those |
| AttendanceRoutes.AdminViewsDistinct | server/routes/attendance.ts:54-60 | under the UNIQUE constraint no two joined marks share student, course and date |
| AttendanceRoutes.StudentViewsDistinct | server/routes/attendance.ts:63-70 | under the UNIQUE constraint no two of the caller's joined marks share course and date |
| AttendanceRoutes.List | server/routes/attendance.ts:46-75 | another role is 403 "Forbidden"; an admin gets a permutation of the admin join and a student a permutation of their own marks' join, newest date first |
| AttendanceRoutes.OneMarkPerKey | server/routes/attendance.ts:30-75 | the GET lists at most one mark per student, course and date, so after a repeated POST for one key (UpsertLastWins) one mark is listed |
| UsersController.GenerateToken | server/controllers/users.ts:7-11 | it signs `{ id, role }` for one hour exactly when `JWT_SECRET` is set and non-empty |
| UsersController.AddProfile | server/controllers/users.ts:36-46 | a student gets a students row; a teacher with a specialty gets a teachers row; a teacher without one writes nothing and reports it |
| UsersController.RegisterUser | server/controllers/users.ts:14-54 | as written: a missing field, or an email already taken, is 400 with nothing written; a teacher without a specialty is 400 "Specialty required for teachers" after the users row was inserted; otherwise 201, with the account and its profile row and a session |
| UsersController.RegisterLeavesOrphan | server/controllers/users.ts:29-41 | on an empty database, a teacher registering without a specialty gets 400 and leaves one users row and no teachers row |
| UsersController.Rejection | server/controllers/users.ts:18-25 | it gives the first check a registration fails, in the source's order, and none exactly when the registration is accepted |
| UsersController.CreateAccount | server/controllers/users.ts:27-49 | an accepted registration inserts the account and its profile and answers 201 with the session |
| UsersController.RegisterUserAtomic | server/controllers/users.ts:14-54 | corrected: every 400 leaves the database unchanged, with the message of the first failed check; an accepted registration is `CreateAccount` |
| UsersController.FirstByEmail | server/controllers/users.ts:59-60 | `rows[0]` of the email lookup is a stored row with that email, and there is one exactly when the email is registered |
| UsersController.Login | server/controllers/users.ts:56-70 | an unknown email is 401 "Invalid credentials"; the same for a wrong password; bcrypt failing on a missing password, or a missing secret, is 500 "Error logging in"; success is 200 with a one-hour token for the account's id and role, and the account without its password |
| UsersController.LoginThenAuthenticate | server/controllers/users.ts:64-66 | the token a login hands out, sent back as `Bearer ${token}`, opens the gate as that account |
| UsersController.GetProfile | server/controllers/users.ts:72-83 | the caller's account without its password, or an empty body when there is none |
| UsersRoutes.Me | server/routes/users.ts:11-22 | the caller's account without its password, or 404 "Usuario no encontrado" exactly when no row has the caller's id |
| UsersRoutes.MeAgreesWithProfile | server/routes/users.ts:11-22 | GET /me and `getProfile` find the same account, and /me is 404 exactly when the profile is empty |
| UsersRoutes.PublicAll | server/routes/users.ts:30-31 | every account without its password, one for one |
| UsersRoutes.List | server/routes/users.ts:28-33 | a non-admin gets 403 "admins only"; an admin gets every account without its password, by name ascending |
| UsersRoutes.MergeFields | server/routes/users.ts:44-62 | each given field overwrites the stored one and an absent one keeps it; the password is rehashed only when given and not blank |
| UsersRoutes.MergeTwice | server/routes/users.ts:46-62 | two PUTs of the same patch store what the second alone would: without a new password exactly what one PUT stores; with one, the second salt's hash replaces the first |
| UsersRoutes.Update | server/routes/users.ts:39-69 | a non-admin gets 403; a missing id is 404 "Usuario no encontrado"; otherwise only that account changes, to the merged fields, and is answered without its password |
| UsersRoutes.Delete | server/routes/users.ts:76-80 | a non-admin gets 403; otherwise the account is removed if it exists, and the answer is "Usuario eliminado correctamente" either way |
| GradesRoutes.AdminJoin | server/routes/grades.ts:16-23 | a grade joins exactly when its student, that student's user and its course exist; the view carries the grade's columns, the student's name and the course title |
| GradesRoutes.OwnJoin | server/routes/grades.ts:25-31 | a grade joins exactly when its student's account is the caller's and its course exists; the view carries grade, grade_type, created_at and the course title, and no student or course ids |
| GradesRoutes.AdminViews | server/routes/grades.ts:16-23 | every joining grade, and only joined grades |
| GradesRoutes.OwnViews | server/routes/grades.ts:25-31 | every grade of the caller's student rows that joins, and only those |
| GradesRoutes.List | server/routes/grades.ts:7-36 | newest first; an admin gets the admin join and every other role gets its own grades |
| GradesRoutes.OwnGradesOnly | server/routes/grades.ts:28-30 | each grade a non-admin sees belongs to a student row whose user is the caller |
| GradesRoutes.Create | server/routes/grades.ts:43-51 | a non-admin gets 403; an admin always adds a new row, answered 201 |
| GradesRoutes.ReplaceIdempotent | server/routes/grades.ts:62-63 | a PUT keeps `created_at`, and repeating it changes nothing more |
| GradesRoutes.PutTwice | server/routes/grades.ts:57-68 | two identical PUTs to one grade leave the table as one PUT does |
| GradesRoutes.Update | server/routes/grades.ts:57-68 | a non-admin gets 403; a missing id is 404 "No encontrado"; otherwise only that row is rewritten, with the four given columns |
| GradesRoutes.Delete | server/routes/grades.ts:74-77 | a non-admin gets 403; otherwise the row is removed if present, and the answer is "Calificación eliminada" either way |
| CoursesRoutes.Join | server/routes/courses.ts:8-14 | a course joins exactly when its teacher_id is set, names a teacher and that teacher's user exists; the view carries the course's id, title, teacher_id and created_at, and that user's name and email |
| CoursesRoutes.Joined | server/routes/courses.ts:12-14 | every joining course, and only joined courses |
| CoursesRoutes.List | server/routes/courses.ts:7-17 | the joined courses, by id ascending |
| CoursesRoutes.HiddenFromJoined | server/routes/courses.ts:13 | a course that joins nothing has no view in the join |
| CoursesRoutes.UnassignedCourseHidden | server/routes/courses.ts:13 | a course without a teacher, or with an unknown one, is not listed |
| CoursesRoutes.Create | server/routes/courses.ts:24-37 | a non-admin gets 403; a missing title or teacher_id is 400 "title y teacher_id son requeridos" with nothing written; otherwise one course is added and returned with 200 |
| CoursesRoutes.Update | server/routes/courses.ts:44-58 | a non-admin gets 403; a missing id is 404 "Course not found"; otherwise only that course gets the new title and teacher |
| CoursesRoutes.Delete | server/routes/courses.ts:65-75 | a non-admin gets 403; a missing id is 404 "Course not found" and writes nothing; otherwise exactly that course is removed, and the other courses keep their order |
| TeachersRoutes.Join | server/routes/teachers.ts:10-12 | a teacher joins exactly when its user exists; the view carries the teacher's id, specialty and created_at, and the user's id, name, email, telefono and role |
| TeachersRoutes.Joined | server/routes/teachers.ts:10-12 | every joining teacher, and only joined teachers |
| TeachersRoutes.List | server/routes/teachers.ts:7-15 | the joined teachers, by teacher id ascending |
| TeachersRoutes.Create | server/routes/teachers.ts:22-35 | a non-admin gets 403; a missing user_id or specialty is 400 "user_id y specialty son requeridos"; otherwise one teacher is added and returned |
| TeachersRoutes.Update | server/routes/teachers.ts:42-56 | a non-admin gets 403; a missing id is 404 "Teacher not found"; otherwise only that teacher's specialty changes |
| TeachersRoutes.Delete | server/routes/teachers.ts:63-73 | a non-admin gets 403; a missing id is 404 "Teacher not found"; otherwise exactly that teacher is removed |
| TopicsRoutes.CourseFilter | server/routes/topics.ts:9-16 | an absent or empty `course_id` applies no filter; a present one filters exactly when PostgreSQL's integer input accepts it, and the filter is that 32-bit value; otherwise the query fails |
| TopicsRoutes.Select | server/routes/topics.ts:13-18 | `WHERE course_id = $1` then `ORDER BY course_id, order_index`: sorted, and a permutation of the topics of that course (of all topics without a filter), copies included |
| TopicsRoutes.BlankCourseFails | server/routes/topics.ts:13-22 | `?course_id=%20` and any other white-space-only value make the listing fail with 500 |
| TopicsRoutes.List | server/routes/topics.ts:7-24 | a rejected `course_id` is 500 "Error al obtener temas"; otherwise 200 with a permutation of the topics of the given course (of all topics when none is given), by course and then order_index |
| TopicsRoutes.DefaultOrder | server/routes/topics.ts:31 | `order_index \|\| 0` stores 0 for a missing or zero order_index and the value otherwise |
| TopicsRoutes.Create | server/routes/topics.ts:26-33 | any caller adds one topic, with order_index `\|\| 0`, and gets 201 with it |
| TopicsRoutes.Update | server/routes/topics.ts:39-47 | any caller; only that topic gets the three given columns, course and id kept; a missing id answers 200 with an empty body and writes nothing |
| TopicsRoutes.Delete | server/routes/topics.ts:53-57 | any caller; the topic is removed if present, and the answer is "Tema eliminado correctamente" either way |
| EnrollmentsPage.HandleSort | client/src/pages/Enrollments.tsx:50-57 | clicking the sorted column flips its direction; any other column starts ascending |
| EnrollmentsPage.HandleSortTwice | client/src/pages/Enrollments.tsx:50-57 | two clicks on the sorted column restore its direction |
| EnrollmentsPage.HandleSortNewColumn | client/src/pages/Enrollments.tsx:50-57 | a new column sorts ascending on the first click and descending on the second |
| EnrollmentsPage.Filtered | client/src/pages/Enrollments.tsx:59-74 | `filteredEnrollments` is `Filter(rows, Keep)`: in order and with every copy, exactly the rows passing the student's own-rows filter, the admin's student filter and the course filter |
| EnrollmentsPage.ChainIsKeep | client/src/pages/Enrollments.tsx:59-74 | the three optional stages in the page's order equal one filter by `Keep` |
| EnrollmentsPage.FindName | client/src/pages/Enrollments.tsx:86-92 | `find(...)?.name \|\| ""`: the name of the first row with that id, or "" when no row has it |
| EnrollmentsPage.Sorted | client/src/pages/Enrollments.tsx:76-99 | without a sort the rows are unchanged; otherwise they are the same rows, ordered by the column's value in the chosen direction |
| EnrollmentsPage.SortedStable | client/src/pages/Enrollments.tsx:81-98 | rows with the same value in the sorted column keep their filtered order, as the stable `Array.prototype.sort` keeps them |
| EnrollmentsPage.Paginated | client/src/pages/Enrollments.tsx:101-105 | `totalPages` is the fewest pages of five that hold the rows; page `currentPage` has at most five rows and is non-empty exactly when `currentPage <= totalPages` |
| AttendancePage.ChainIsKeep | client/src/pages/Attendance.tsx:90-104 | the three optional stages, in the page's order, are one filter by `Keep` |
| AttendancePage.FilterRecords | client/src/pages/Attendance.tsx:90-104 | `filteredAttendance` is `Filter(records, Keep)`: in order and with every copy, exactly the records passing the student's own-records filter, the student id filter and the date-prefix filter |

## Left out

- Routers outside the core are not part of this model: students, enrollments, dashboard and the auth router. So is the wiring in server/index.ts, which mounts the routers.
- AttendanceRoutes.Upsert: the attendance `date` is stored and compared as the submitted text. With a DATE column, "2024-5-1" and "2024-05-01" are one conflict key, and a text the database cannot read as a date makes the insert fail with 500. The model matches the database only for dates written canonically as `YYYY-MM-DD`, and `Validate` accepts any present string.
- Database failures are not modelled. In the source every handler's `catch` answers 500 when the query throws. Foreign-key violations are one case, along with dropped connections. The schema is not available, so foreign keys are not modelled at all.
- Request bodies come in typed. A PUT or POST field the model takes as `int` or `string` cannot be missing. The source would bind NULL for such a field and leave the constraint decision to the database. Path ids are integers; a non-numeric `:id` would make the query fail with 500.
- Within one handler, `await` points are treated as atomic. Two concurrent requests racing for the same attendance key, or for the same email, are not modelled.
- Library calls are parameters: `jwt.sign`, `jwt.verify`, `bcrypt.hash`, `bcrypt.compare` and `bcrypt.genSalt`. The model does not capture their cryptography, expiry times or salts.
- `created_at` comes from a `now` parameter and not from the database clock.
- `Js.ToNumber`: only covers optional white space, a sign and decimal digits. Hexadecimal and exponent forms are not modelled, and neither are fractions or `Infinity`.
- Ordering.StrLess: compares strings by code point. That is PostgreSQL's order only under the C collation. Linguistic collations such as en_US.UTF-8 or es_AR.UTF-8 differ: they put "ana" before "Bruno" and ignore spaces and punctuation at the first level. JavaScript's `<` compares UTF-16 code units, which agrees with code points below U+10000.
- UsersRoutes.List: the name order it promises is PostgreSQL's `ORDER BY name ASC` only when the database uses the C collation, for the reason on the line above.
- Pg.ParseInt4: reads decimal digits only. The underscores between digits and the `0x`, `0o` and `0b` prefixes that PostgreSQL 16 also accepts are not modelled. A `course_id` repeated in the query string arrives as an array, and that is not modelled either.
- EnrollmentsPage.SortValue: models only the two sortable columns, "student_id" and "course_id", the keys the table headers pass to `handleSort` (client/src/pages/Enrollments.tsx:214-215). Any other key gives all rows the same value. The source would read `a[key]` for such a key, but no header passes one.
- The React side is not modelled: rendering, the form handlers, session and local storage, and the fetches.
- The grades and topics routers are modelled as written. Whether server/index.ts mounts them is not part of this model.
- Three behaviours that may look surprising, modelled as the code has them:
  - an invalid or expired token answers 403, and expired tokens are not told apart;
  - PUT /users/:id is for admins only;
  - topics are ordered by course_id, then order_index.

## Findings

| source | as written | input that shows it | evidently intended | confidence | as-written member | corrected member |
|---|---|---|---|---|---|---|
| server/controllers/users.ts:29-41 | the users row is inserted before a teacher's specialty is checked, and the 400 for a missing specialty returns without undoing it | register `{ name, email, password, role: "teacher" }` without `specialty` on an empty database: 400 "Specialty required for teachers", and the users table now holds one account without a teachers row | every 400 leaves the database unchanged, so the specialty is checked before any insert | not executed | UsersController.RegisterLeavesOrphan | UsersController.RegisterUserAtomic |
