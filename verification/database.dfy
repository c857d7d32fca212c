/**
 * The record store: three append-only collections (users, courses,
 * enrollments), each read in file order by linear scan.  A collection is the
 * sequence of records its file holds; the CSV text itself is not modelled.
 */
module Database {
  import opened Wrappers
  import opened Errors
  import opened Scans
  import U = UserRecord
  import C = CourseRecord
  import E = EnrollmentRecord

  datatype Store = Store(users: seq<U.User>, courses: seq<C.Course>, enrollments: seq<E.Enrollment>)

  /** The files found when the store is opened; `None` is a file that does not exist. */
  datatype Files = Files(
    users: Option<seq<U.User>>,
    courses: Option<seq<C.Course>>,
    enrollments: Option<seq<E.Enrollment>>)

  // ---------------------------------------------------------------------------
  // Invariants the guarded writes keep

  predicate UsernamesUnique(users: seq<U.User>) {
    forall i, j :: 0 <= i < j < |users| ==> users[i].username != users[j].username
  }

  predicate PairsUnique(enrollments: seq<E.Enrollment>) {
    forall i, j :: 0 <= i < j < |enrollments| ==>
      !(enrollments[i].userId == enrollments[j].userId && enrollments[i].courseId == enrollments[j].courseId)
  }

  // ---------------------------------------------------------------------------
  // Opening the store

  /** The password the bootstrap administrator is created with. */
  const BootstrapPassword: string := "admin"

  /** The administrator seeded into a users file that did not exist. */
  function SuperAdmin(id: string, now: string, hash: string -> string): U.User {
    U.User(id, "super admin", "admin", hash(BootstrapPassword), "admin", "system", now, now)
  }

  /**
   * Opens the store: every missing file is created empty, and a missing users
   * file is created holding the bootstrap administrator only.  `id` and `now`
   * stand for the fresh identifier and the clock reading it is created with.
   */
  function Open(files: Files, id: string, now: string, hash: string -> string): (db: Store)
    ensures files.users.None? ==>
      && |db.users| == 1
      && db.users[0].id == id
      && db.users[0].username == "admin"
      && db.users[0].role == "admin"
      && db.users[0].creator == "system"
      && db.users[0].password == hash("admin")
      && db.users[0].createdAt == db.users[0].updatedAt == now
    ensures files.users.Some? ==> db.users == files.users.value
    ensures files.courses.Some? ==> db.courses == files.courses.value
    ensures files.courses.None? ==> db.courses == []
    ensures files.enrollments.Some? ==> db.enrollments == files.enrollments.value
    ensures files.enrollments.None? ==> db.enrollments == []
  {
    Store(
      files.users.GetOr([SuperAdmin(id, now, hash)]),
      files.courses.GetOr([]),
      files.enrollments.GetOr([]))
  }

  // ---------------------------------------------------------------------------
  // Uniqueness scans

  /** The record types the store knows, by the names its callers use. */
  const RecordTypes: seq<string> := ["user", "course", "enrollment"]

  /** The rows of the file holding `recordType`, as the dictionaries a reader yields. */
  function Rows(db: Store, recordType: string): seq<map<string, string>>
    requires recordType in RecordTypes
  {
    if recordType == "user" then
      seq(|db.users|, i requires 0 <= i < |db.users| => U.ToRow(db.users[i]))
    else if recordType == "course" then
      seq(|db.courses|, i requires 0 <= i < |db.courses| => C.ToRow(db.courses[i]))
    else
      seq(|db.enrollments|, i requires 0 <= i < |db.enrollments| => E.ToRow(db.enrollments[i]))
  }

  /** The columns of the file holding `recordType`. */
  function ColumnsOf(recordType: string): set<string>
    requires recordType in RecordTypes
  {
    if recordType == "user" then U.ColumnSet
    else if recordType == "course" then C.ColumnSet
    else E.ColumnSet
  }

  /**
   * Scans `rows` in order for one whose `field` equals `value`.  Looking up a
   * field a row does not have raises a KeyError at that row.
   */
  function ScanFieldUnique(rows: seq<map<string, string>>, field: string, value: string): (r: Result<bool, Error>)
    ensures r == Success(true) <==>
      forall i :: 0 <= i < |rows| ==> field in rows[i] && rows[i][field] != value
    ensures r == Success(false) <==>
      exists i :: 0 <= i < |rows| && field in rows[i] && rows[i][field] == value
                  && forall j :: 0 <= j < i ==> field in rows[j]
    ensures r.Failure? ==> r.error == KeyError(field)
  {
    if |rows| == 0 then Success(true)
    else if field !in rows[0] then Failure(KeyError(field))
    else if rows[0][field] == value then Success(false)
    else
      var r := ScanFieldUnique(rows[1..], field, value);
      assert forall i :: 1 <= i < |rows| ==> rows[i] == rows[1..][i - 1];
      assert r == Success(false) ==>
        exists i :: 0 <= i < |rows| && field in rows[i] && rows[i][field] == value
                    && forall j :: 0 <= j < i ==> field in rows[j]
      by {
        if r == Success(false) {
          var i :| 0 <= i < |rows[1..]| && field in rows[1..][i] && rows[1..][i][field] == value
                   && forall j :: 0 <= j < i ==> field in rows[1..][j];
          assert field in rows[i + 1] && rows[i + 1][field] == value;
        }
      }
      r
  }

  /** Some row of `recordType` has `value` in column `field`. */
  predicate FieldTaken(db: Store, recordType: string, field: string, value: string)
    requires recordType in RecordTypes
    requires field in ColumnsOf(recordType)
  {
    exists i :: 0 <= i < |Rows(db, recordType)| && Rows(db, recordType)[i][field] == value
  }

  /**
   * Whether no stored record of `recordType` has `value` in column `field`.
   * An unknown record type raises a ValueError; a field that is not a column
   * raises a KeyError as soon as there is a row to look it up in.
   */
  function IsFieldUnique(db: Store, recordType: string, field: string, value: string): (r: Result<bool, Error>)
    ensures recordType !in RecordTypes ==> r == Failure(ValueError(InvalidRecordTypeMessage))
    ensures recordType in RecordTypes && field in ColumnsOf(recordType) ==>
      r == Success(!FieldTaken(db, recordType, field, value))
    ensures recordType in RecordTypes && field !in ColumnsOf(recordType) ==>
      r == if |Rows(db, recordType)| == 0 then Success(true) else Failure(KeyError(field))
  {
    if recordType !in RecordTypes then Failure(ValueError(InvalidRecordTypeMessage))
    else
      var rows := Rows(db, recordType);
      assert forall i :: 0 <= i < |rows| ==> rows[i].Keys == ColumnsOf(recordType);
      ScanFieldUnique(rows, field, value)
  }

  /** A username is taken exactly when the uniqueness scan on the username column says so. */
  lemma UsernameScan(db: Store, username: string)
    ensures IsFieldUnique(db, "user", "username", username) ==
      Success(forall i :: 0 <= i < |db.users| ==> db.users[i].username != username)
  {
    var rows := Rows(db, "user");
    assert forall i :: 0 <= i < |db.users| ==> rows[i]["username"] == db.users[i].username;
  }

  /** The enrollment predicate that detects an existing (user, course) pair. */
  function SamePair(userId: string, courseId: string): E.Enrollment -> bool {
    (e: E.Enrollment) => e.userId == userId && e.courseId == courseId
  }

  /**
   * Whether no enrollment has both this user id and this course id; sharing
   * only one of the two is no conflict.
   */
  function IsEnrollmentUnique(db: Store, userId: string, courseId: string): (r: bool)
    ensures r <==> forall i :: 0 <= i < |db.enrollments| ==>
      !(db.enrollments[i].userId == userId && db.enrollments[i].courseId == courseId)
  {
    FirstMatch(db.enrollments, SamePair(userId, courseId)).None?
  }

  // ---------------------------------------------------------------------------
  // Users

  /** Every stored user in its role; one row with an unknown role makes the whole read fail. */
  function ReadUsers(db: Store): (r: Result<seq<U.Account>, Error>)
    ensures r.Success? <==> forall i :: 0 <= i < |db.users| ==> U.IsValidRole(db.users[i].role)
    ensures r.Success? ==> |r.value| == |db.users|
    ensures r.Success? ==> forall i :: 0 <= i < |db.users| ==>
      r.value[i].user == db.users[i] && (r.value[i].Admin? <==> db.users[i].role == "admin")
    ensures r.Failure? ==> r.error == ValueError(InvalidRoleMessage)
  {
    ConvertAll(db.users)
  }

  function ConvertAll(users: seq<U.User>): (r: Result<seq<U.Account>, Error>)
    ensures r.Success? <==> forall i :: 0 <= i < |users| ==> U.IsValidRole(users[i].role)
    ensures r.Success? ==> |r.value| == |users|
    ensures r.Success? ==> forall i :: 0 <= i < |users| ==>
      r.value[i].user == users[i] && (r.value[i].Admin? <==> users[i].role == "admin")
    ensures r.Failure? ==> r.error == ValueError(InvalidRoleMessage)
  {
    if |users| == 0 then Success([])
    else
      var first :- U.ToAdminOrStudent(users[0]);
      var rest :- ConvertAll(users[1..]);
      assert forall i :: 1 <= i < |users| ==> users[i] == users[1..][i - 1];
      Success([first] + rest)
  }

  /** The user lookup matches on the id OR the username, each compared literally. */
  function MatchesUser(id: string, username: string): U.User -> bool {
    (u: U.User) => u.id == id || u.username == username
  }

  /**
   * Reads the first user, in file order, whose id equals `id` or whose
   * username equals `username`, in its role.  Both arguments empty means no
   * lookup at all; otherwise an empty argument is still compared literally.
   */
  function ReadUser(db: Store, id: string, username: string): (r: Result<Option<U.Account>, Error>)
    ensures id == "" && username == "" ==> r == Success(None)
    ensures r == Success(None) <==>
      (id == "" && username == "") ||
      forall i :: 0 <= i < |db.users| ==> !(db.users[i].id == id || db.users[i].username == username)
    ensures !(id == "" && username == "") ==> forall i :: FirstAt(db.users, MatchesUser(id, username), i) ==>
      && (r.Failure? <==> !U.IsValidRole(db.users[i].role))
      && (r.Failure? ==> r.error == ValueError(InvalidRoleMessage))
      && (r.Success? ==> r.value.Some? && r.value.value == U.ToAdminOrStudent(db.users[i]).value)
  {
    if id == "" && username == "" then Success(None)
    else
      match FirstIndex(db.users, MatchesUser(id, username))
      case None => Success(None)
      case Some(i) =>
        FirstAtUnique(db.users, MatchesUser(id, username), i);
        var account :- U.ToAdminOrStudent(db.users[i]);
        Success(Some(account))
  }

  /** Some stored user already has `username`. */
  predicate UsernameTaken(db: Store, username: string) {
    exists i :: 0 <= i < |db.users| && db.users[i].username == username
  }

  /**
   * Appends `user` to the users file unless its username is already taken,
   * in which case nothing is written and a ValueError is raised.
   */
  function WriteUser(db: Store, user: U.User): (r: Result<Store, Error>)
    ensures r.Failure? <==> UsernameTaken(db, user.username)
    ensures r.Failure? ==> r.error == ValueError(UsernameNotUniqueMessage)
    ensures r.Success? ==> r.value == db.(users := db.users + [user])
    ensures r.Success? && UsernamesUnique(db.users) ==> UsernamesUnique(r.value.users)
  {
    UsernameScan(db, user.username);
    match IsFieldUnique(db, "user", "username", user.username)
    case Success(unique) =>
      if !unique then Failure(ValueError(UsernameNotUniqueMessage))
      else Success(db.(users := db.users + [user]))
    case Failure(e) => Failure(e)
  }

  // ---------------------------------------------------------------------------
  // Courses

  /** Every row of the courses file, in order, each built into its course. */
  function ReadCourses(db: Store): (r: seq<C.Course>)
    ensures |r| == |db.courses|
    ensures forall i :: 0 <= i < |r| ==> C.FromRow(C.ToRow(db.courses[i])) == Some(r[i])
  {
    db.courses
  }

  function HasCourseId(id: string): C.Course -> bool {
    (c: C.Course) => c.id == id
  }

  /** The first course, in file order, whose id equals `id`. */
  function ReadCourse(db: Store, id: string): (r: Option<C.Course>)
    ensures r.None? <==> forall i :: 0 <= i < |db.courses| ==> db.courses[i].id != id
    ensures r.Some? ==> exists i :: FirstAt(db.courses, HasCourseId(id), i) && db.courses[i] == r.value
    ensures r.Some? ==> r.value.id == id && r.value in db.courses
  {
    FirstMatch(db.courses, HasCourseId(id))
  }

  /** Appends `course` to the courses file; there is no uniqueness check. */
  function WriteCourse(db: Store, course: C.Course): (r: Store)
    ensures r.courses == db.courses + [course]
    ensures r.users == db.users && r.enrollments == db.enrollments
  {
    db.(courses := db.courses + [course])
  }

  // ---------------------------------------------------------------------------
  // Enrollments

  /** Every row of the enrollments file, in order, each built into its enrollment. */
  function ReadEnrollments(db: Store): (r: seq<E.Enrollment>)
    ensures |r| == |db.enrollments|
    ensures forall i :: 0 <= i < |r| ==> E.FromRow(E.ToRow(db.enrollments[i])) == Some(r[i])
  {
    db.enrollments
  }

  function HasEnrollmentId(id: string): E.Enrollment -> bool {
    (e: E.Enrollment) => e.id == id
  }

  /** The first enrollment, in file order, whose id equals `id`. */
  function ReadEnrollment(db: Store, id: string): (r: Option<E.Enrollment>)
    ensures r.None? <==> forall i :: 0 <= i < |db.enrollments| ==> db.enrollments[i].id != id
    ensures r.Some? ==> exists i :: FirstAt(db.enrollments, HasEnrollmentId(id), i) && db.enrollments[i] == r.value
    ensures r.Some? ==> r.value.id == id && r.value in db.enrollments
  {
    FirstMatch(db.enrollments, HasEnrollmentId(id))
  }

  /** The query keeps a row when ANY of the three fields matches, each compared literally. */
  function MatchesQuery(userId: string, username: string, courseId: string): E.Enrollment -> bool {
    (e: E.Enrollment) => e.userId == userId || e.username == username || e.courseId == courseId
  }

  /**
   * The enrollments, in file order, whose user id equals `userId` OR whose
   * username equals `username` OR whose course id equals `courseId`.
   */
  function QueryEnrollments(db: Store, userId: string, username: string, courseId: string): (r: seq<E.Enrollment>)
    ensures forall k :: 0 <= k < |r| ==>
      r[k] in db.enrollments && (r[k].userId == userId || r[k].username == username || r[k].courseId == courseId)
    ensures forall k :: 0 <= k < |db.enrollments| && MatchesQuery(userId, username, courseId)(db.enrollments[k]) ==>
      db.enrollments[k] in r
    ensures forall e :: multiset(r)[e] == (if MatchesQuery(userId, username, courseId)(e) then multiset(db.enrollments)[e] else 0)
  {
    FilterCounts(db.enrollments, MatchesQuery(userId, username, courseId));
    Filter(db.enrollments, MatchesQuery(userId, username, courseId))
  }

  /**
   * Appends `enrollment` unless an enrollment with the same user id and
   * course id exists, in which case nothing is written and a ValueError is raised.
   */
  function WriteEnrollment(db: Store, enrollment: E.Enrollment): (r: Result<Store, Error>)
    ensures r.Failure? <==> exists i :: 0 <= i < |db.enrollments| && SamePair(enrollment.userId, enrollment.courseId)(db.enrollments[i])
    ensures r.Failure? ==> r.error == ValueError(AlreadyEnrolledMessage)
    ensures r.Success? ==> r.value == db.(enrollments := db.enrollments + [enrollment])
    ensures r.Success? && PairsUnique(db.enrollments) ==> PairsUnique(r.value.enrollments)
  {
    if !IsEnrollmentUnique(db, enrollment.userId, enrollment.courseId) then
      Failure(ValueError(AlreadyEnrolledMessage))
    else
      Success(db.(enrollments := db.enrollments + [enrollment]))
  }
}
