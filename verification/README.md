# School-records core, modelled in Dafny

This project models the deterministic core of a small command-line school-records
application. Administrators create users, courses and enrollments. Students list
the courses they are enrolled in. Everyone logs in through a loop that allows a
bounded number of attempts.

The model covers three parts of the program:

- **The record store** (`classes/database.py`, module `Database`). It holds three
  append-only collections: users, courses and enrollments. Each collection is the
  sequence of records its CSV file holds, in file order. The store offers
  first-match lookups, "is unique" scans, guarded appends, and the one-time seeding
  of a bootstrap administrator when the store is opened.
- **The records and roles** (`classes/course.py`, `classes/enrollment.py`,
  `classes/user.py`; modules `CourseRecord`, `EnrollmentRecord`, `UserRecord` and
  `Roles`). Each record has a row form: its attribute dictionary, keyed by the
  file's columns. Each record also has a display string. A user becomes an `Admin`
  or a `Student` account according to its role string. The administrator actions
  are `CreateUser`, `CreateCourse`, `CreateEnrollment` and the three enrollment
  queries. The student action is `GetEnrolledCourses`.
- **The helpers and login** (`utils/utilities.py`, module `Utilities`). This part
  holds the input validators and the password check. It also holds the login loop,
  modelled as a function over the sequence of (username, password) pairs typed at
  the prompts. The empty-field guards in front of the three administrator actions
  are modelled here too.

Python exceptions are values of `Errors.Error`, carrying the program's exact
messages. Every operation that can raise returns a `Result`.

Generated identifiers, clock readings, the SHA-256 digest and integer parsing are
parameters. `id` and `now` are the values the operation would draw. `hash` is any
deterministic function, and nothing assumes it is injective. `parse` is any partial
function from strings to integers.

Module `StoreInvariants` states the store-wide invariant `Consistent`. It has three
parts:

- usernames are unique;
- (user id, course id) pairs are unique among enrollments;
- the key fields that lookups compare are never empty.

Every administrator action behind its prompt guards preserves `Consistent`, given
non-empty generated ids. The lookups in the source compare their empty default
arguments literally:

- `read_user(username=u)` also matches a row whose id is empty;
- `query_enrollments(user_id=x)` also matches rows with an empty username or an
  empty course id.

The model keeps this literal behaviour. One consequence is at login: a stored row
with an empty id matches every username lookup. A typed username that no earlier
row holds, together with that row's password, logs in as that row's user. Under `Consistent`, each lookup
keys on its one argument only (`ReadUserByUsername`, `AttemptKeysOnUsername`,
`QueryByUserIdIsExact`, `EnrolledCoursesAreExact`).

When enrolling, the guard for an empty course id prints "Full name can not be empty".
That is a copy of the wrong message. The model keeps this wording
(`Utilities.EmptyEnrollCourseIdMessage`).

All files are verified together:

    dafny verify --resource-limit 2000000 --verification-time-limit 0 --warn-contradictory-assumptions *.dfy

## Model

| member | source | states |
|---|---|---|
| CourseRecord.ColumnsListed | classes/database.py:24-25 | the courses header lists each of its six columns exactly once |
| CourseRecord.ToRow | classes/database.py:24-25 | a course's attribute dictionary has exactly the courses-file columns as keys, so writing it neither fails nor leaves a column blank |
| CourseRecord.FromRow | classes/course.py:14-19 | a row builds a course exactly when its keys are the constructor's parameters, and that course's row is the row it came from |
| CourseRecord.RowRoundTrip | classes/course.py:14-19 | building a course from its own row gives back the same six field values |
| CourseRecord.Str | classes/course.py:28 | the display string starts with `Id <id>`, ends with `<description>)`, and adds 27 characters of labels to the three shown fields |
| CourseRecord.StrIgnoresBookkeeping | classes/course.py:28 | two courses with the same id, name and description display the same, whatever their creator and timestamps |
| EnrollmentRecord.ColumnsListed | classes/database.py:26-27 | the enrollments header lists each of its eight columns exactly once |
| EnrollmentRecord.ToRow | classes/database.py:26-27 | an enrollment's attribute dictionary has exactly the enrollments-file columns as keys |
| EnrollmentRecord.FromRow | classes/enrollment.py:16-23 | a row builds an enrollment exactly when its keys are the constructor's parameters, and that enrollment's row is the row it came from |
| EnrollmentRecord.RowRoundTrip | classes/enrollment.py:16-23 | building an enrollment from its own row gives back the same eight field values |
| EnrollmentRecord.Str | classes/enrollment.py:32 | the display string starts with `Id <id>`, ends with `<course name>)`, and adds 31 characters of labels to the three shown fields |
| EnrollmentRecord.StrIgnoresKeysAndBookkeeping | classes/enrollment.py:32 | the display string does not depend on user id, course id, creator or timestamps |
| UserRecord.ColumnsListed | classes/database.py:22-23 | the users header lists each of its eight columns exactly once |
| UserRecord.ToRow | classes/database.py:22-23 | a user's attribute dictionary has exactly the users-file columns as keys |
| UserRecord.FromRow | classes/user.py:22-29 | a row builds a user exactly when its keys are the constructor's parameters, and that user's row is the row it came from |
| UserRecord.RowRoundTrip | classes/user.py:22-29 | building a user from its own row gives back the same eight field values |
| UserRecord.Str | classes/user.py:38 | the display string starts with `Id <id>`, ends with `<username>)`, and adds 24 characters of labels |
| UserRecord.StrIgnoresSecrets | classes/user.py:38 | two users with the same id, name and username display the same, so the password digest, role, creator and timestamps never reach the display |
| UserRecord.ToAdminOrStudent | classes/user.py:50-57 | a role other than "student" or "admin" raises the invalid-role ValueError; "admin" gives an Admin, "student" a Student, and all eight fields are kept |
| UserRecord.ConversionIsStable | utils/utilities.py:101 | converting an already converted account's user again yields the same account |
| Database.Open | classes/database.py:44-89 | a missing users file yields exactly one user (username "admin", role "admin", creator "system", password the digest of "admin", both timestamps equal); a missing courses or enrollments file yields an empty collection; existing files are kept unchanged |
| Database.ScanFieldUnique | classes/database.py:121-127 | the scan says "unique" iff every row has the field and none holds the value; it says "taken" iff a row holds the value with every earlier row having the field; otherwise it raises KeyError |
| Database.IsFieldUnique | classes/database.py:106-127 | an unknown record type raises the ValueError; for a column, the result is false exactly when some stored row of that type holds the value; for a non-column, KeyError unless the file is empty |
| Database.UsernameScan | classes/database.py:195 | the username uniqueness scan is true exactly when no stored user has that username |
| Database.IsEnrollmentUnique | classes/database.py:140-146 | true iff no enrollment has both the user id and the course id; matching only one of them is no conflict |
| Database.ReadUsers | classes/database.py:157-163 | succeeds iff every stored role is valid, returning one account per row, in order, with the same fields and Admin exactly for role "admin" |
| Database.ReadUser | classes/database.py:176-183 | both arguments empty gives none; otherwise the result is the first row, in file order, whose id or username equals its argument (compared literally), converted by role, or none if no row matches |
| Database.WriteUser | classes/database.py:195-203 | fails with "username must be unique" iff the username is stored already; otherwise appends exactly that user, leaves courses and enrollments alone, and keeps usernames unique |
| Database.ReadCourses | classes/database.py:205-220 | one course per stored row, in file order, each the record its row builds |
| Database.ReadCourse | classes/database.py:233-237 | the first course, in file order, with that id, or none iff no course has it |
| Database.WriteCourse | classes/database.py:246-251 | appends the course with no uniqueness check and leaves the other collections alone |
| Database.ReadEnrollments | classes/database.py:253-268 | one enrollment per stored row, in file order, each the record its row builds |
| Database.ReadEnrollment | classes/database.py:280-284 | the first enrollment, in file order, with that id, or none iff no enrollment has it |
| Database.QueryEnrollments | classes/database.py:300-307 | exactly the enrollments whose user id OR username OR course id matches, each as often as it is stored; other rows are dropped |
| Database.WriteEnrollment | classes/database.py:319-327 | fails with "already enrolled" iff the (user id, course id) pair is stored; otherwise appends exactly that enrollment and keeps pairs unique |
| Scans.FilterCounts | classes/database.py:302-305 | a query keeps every stored copy of a matching row and no copy of any other row |
| Scans.FilterAppend | classes/database.py:302-305 | the rows a query keeps stay in file order: filtering a concatenation gives the concatenation of the filtered parts |
| Roles.CreateUser | classes/user.py:160-173 | an invalid role fails before anything is written; a taken username then fails; otherwise exactly one user is appended with the digest of the password, the admin's name as creator and equal timestamps |
| Roles.CreateCourse | classes/user.py:187-195 | the course gets the given name, description and id, the admin's name as creator and equal timestamps, and is appended |
| Roles.CreateEnrollment | classes/user.py:213-233 | the username must resolve to a Student first, then the course must exist, then the pair must be new; on success the enrollment copies user id, username, course id and course name and is appended |
| Roles.GetEnrollmentsByUser | classes/user.py:115 | every listed enrollment is stored and has the username (or an empty user id or course id, as the query compares literally); every stored enrollment with the username is listed |
| Roles.GetEnrollmentsByUserId | classes/user.py:128 | the same for a user id |
| Roles.GetEnrollmentsByCourseId | classes/user.py:141 | the same for a course id |
| Scans.CollectBound | classes/user.py:256-262 | collecting yields at most one value per element, so a student gets at most one course per enrollment |
| Scans.CollectSound | classes/user.py:256-262 | every value collected is what the reader yields on some element: every course returned is what some enrollment's course id reads back as |
| Scans.CollectComplete | classes/user.py:256-262 | every element the reader yields a value for contributes it: every enrollment whose course exists contributes that course |
| Scans.CollectAppend | classes/user.py:257-260 | courses are produced in enrollment order: collecting over a concatenation gives the concatenation of the collected parts |
| Roles.GetEnrolledCourses | classes/user.py:254-262 | no more courses than queried enrollments, each stored and named by a queried enrollment's course id, and every queried enrollment whose course exists contributes that course |
| Utilities.ValidateStringInput | utils/utilities.py:46 | true iff the input is non-empty |
| Utilities.ValidateMenuInput | utils/utilities.py:61-66 | true iff the input parses to an integer n with min <= n <= max; unparsable input and an empty range give false |
| Utilities.ComparePasswordToHash | utils/utilities.py:153-168 | true iff the digest of the password equals the stored digest |
| Utilities.PasswordMatchesOwnHash | utils/utilities.py:165-168 | a password always matches its own digest |
| Utilities.TryAttempt | utils/utilities.py:87-101 | empty fields are rejected without a lookup; a lookup that succeeds but does not accept (no row found by the literal lookup, or a wrong password) is rejected with the one shared message; it raises iff the lookup raises; acceptance iff the lookup finds a row and the digest matches, returning that row's user in its role |
| Utilities.LoginLoop | utils/utilities.py:79-104 | the loop never reads more than MAX_ATTEMPTS attempts |
| Utilities.LoopSucceeded | utils/utilities.py:81-101 | a successful loop accepted its last attempt read and rejected every earlier one |
| Utilities.LoopExhausted | utils/utilities.py:81-104 | the attempts-exceeded error is raised iff all MAX_ATTEMPTS attempts were read and rejected, and never before the last one |
| Utilities.LoopAcceptsFirstMatch | utils/utilities.py:87-101 | the loop returns at the first accepted attempt within the bound |
| Utilities.LoopRaisesFirst | utils/utilities.py:81-91 | the loop ends with an attempt's own error at the first attempt that raises, within the bound, having read exactly up to it |
| Utilities.LoopEndOfInput | utils/utilities.py:81-85 | the loop runs out of input iff fewer attempts than the bound were typed and all were rejected |
| Utilities.LoopReadsAtMostMaxAttempts | utils/utilities.py:81 | input after the fifth attempt does not affect the loop |
| Utilities.LoginFlow | utils/utilities.py:69-104 | at most five attempts are consumed; success means the last consumed attempt was accepted after all earlier ones were rejected; the attempts-exceeded error comes iff five attempts were read and all rejected, and only after the fifth |
| Utilities.BadCredentialsExhaustAttempts | utils/utilities.py:81-104 | five attempts in a row that each have an empty field, a username the lookup finds no row for, or a wrong password end in the attempts-exceeded error after reading exactly five |
| Utilities.LoginAcceptsFirstMatch | utils/utilities.py:87-101 | login returns the account of the first accepted attempt, having consumed exactly up to it |
| Utilities.LoginRaisesFirst | utils/utilities.py:79-91 | a lookup that raises (a stored row with an invalid role) ends login with that error at that attempt, after earlier rejections |
| Utilities.LoginEndOfInput | utils/utilities.py:81-85 | login ends at end of input iff fewer than five attempts were typed and every one was rejected |
| Utilities.LoginReadsAtMostMaxAttempts | utils/utilities.py:12 | login reads no more than MAX_ATTEMPTS = 5 attempts |
| Utilities.CreateNewUser | utils/utilities.py:345-358 | an empty username, full name or password (checked in that order) is refused before the store is called; otherwise the outcome is that of creating the user |
| Utilities.CreateNewCourse | utils/utilities.py:383-392 | an empty name or description (in that order) is refused before the store is called; otherwise the course is created |
| Utilities.EnrollUserToCourse | utils/utilities.py:414-423 | an empty username or course id (in that order) is refused before the store is called; otherwise the outcome is that of creating the enrollment |
| StoreInvariants.OpenedFreshIsConsistent | classes/database.py:72-89 | a store opened from no files, seeded with the bootstrap administrator, is consistent |
| StoreInvariants.CreateUserKeepsConsistent | classes/user.py:164-171 | creating a user with a non-empty id and username keeps the store consistent |
| StoreInvariants.CreateCourseKeepsConsistent | classes/user.py:187-193 | creating a course with a non-empty id keeps the store consistent |
| StoreInvariants.CreateEnrollmentKeepsConsistent | classes/user.py:213-231 | creating an enrollment keeps the store consistent |
| StoreInvariants.AdminActionsKeepConsistent | utils/utilities.py:345-423 | behind the prompt guards, each administrator action keeps a consistent store consistent |
| StoreInvariants.ReadUserByUsername | classes/database.py:176-183 | in a consistent store, a lookup by a non-empty username alone finds none iff the username is free, and otherwise that user in its role |
| StoreInvariants.AttemptKeysOnUsername | utils/utilities.py:87-101 | in a consistent store, a login attempt is accepted iff a stored user has the typed username, a valid role and the digest of the typed password, and the account returned has the typed username |
| StoreInvariants.ReadUserById | classes/database.py:176-183 | in a consistent store, a lookup by a non-empty id alone finds none iff no user has the id, and otherwise the first user with it |
| StoreInvariants.WriteUserThenRead | classes/database.py:195-203 | in a consistent store, a user with a valid role, a non-empty fresh id and a free non-empty username, once written, reads back by id and by username |
| StoreInvariants.WriteCourseThenRead | classes/database.py:233-251 | a course with a fresh id reads back, field for field, after it is written |
| StoreInvariants.WriteEnrollmentThenRead | classes/database.py:280-327 | an enrollment with a fresh id and pair reads back, field for field, after it is written |
| StoreInvariants.QueryByUserIdIsExact | classes/user.py:128 | in a consistent store the query by user id keeps exactly that user's enrollments, in order |
| StoreInvariants.QueryByUsernameIsExact | classes/user.py:115 | in a consistent store the query by username keeps exactly that username's enrollments, in order |
| StoreInvariants.QueryByCourseIdIsExact | classes/user.py:141 | in a consistent store the query by course id keeps exactly that course's enrollments, in order |
| StoreInvariants.EnrolledCoursesAreExact | classes/user.py:254-262 | in a consistent store a student's courses are the existing courses of exactly that student's enrollments, in order, at most one per enrollment, each named by one of them, and every one of them whose course exists contributes it |
| StoreInvariants.CoursesComeFromEnrollments | classes/user.py:257-260 | each course listed for a user's own enrollments is named by one of them |
| StoreInvariants.CreateEnrollmentTwiceFails | classes/user.py:225-231 | a second enrollment of the same student in the same course fails with the already-enrolled error |
| StoreInvariants.CreateEnrollmentNeedsStudent | classes/user.py:213-217 | in a consistent store, an unknown username or an administrator's username is rejected with the no-student error whether or not the course exists |
| StoreInvariants.ReadAllAfterWrite | classes/database.py:246-268 | reading all courses or enrollments after a write gives the old rows followed by the new one |
| StoreInvariants.QueryAfterWriteEnrollment | classes/database.py:300-327 | a written enrollment joins the end of exactly the queries it matches |

## Left out

- CSV encoding and file I/O: the model does not cover folder creation, open/append, header writing on an empty file, or quoting. Each file is its sequence of records, and a row is its column dictionary.
- Choosing a header by path substring: a new file gets its header, and the super administrator, according to whether its path contains "users" or "courses". The model assumes the default folder, where each file gets its own header.
- SHA-256 and hex encoding: these are a foreign library. The digest is the parameter `hash`, and the model does not assume it is injective.
- `uuid4()` and `datetime.now()`: their results are the parameters `id` and `now`. Ids are not claimed unique, because the store checks only usernames.
- Python `int()` parsing: the parameter `parse` stands for it, so whitespace, underscores and non-ASCII digits are not modelled.
- Screen reset, table printing, the `view_*` printers, `quit_program`, `input` and `getpass` are I/O only. Login reads its input as a sequence, and running out of input is `EOFError`.
- The generic "unknown error" print branches of the command-line actions are I/O only. The success messages they print are also left out.
- `Admin.get_all_users`, `get_all_courses` and `get_all_enrollments` only return `read_users`, `read_courses` and `read_enrollments`. Those reads are modelled as `ReadUsers`, `ReadCourses` and `ReadEnrollments`.
- The demo script `main.py` is not part of this model.
- Concurrent writers from two processes are not modelled. The store is sequential here.
