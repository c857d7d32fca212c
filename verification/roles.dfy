/**
 * What an administrator and a student can do with the record store.  An
 * operation that belongs to one role takes that role's account; the fresh
 * identifier, the clock reading and the password digest are parameters.
 */
module Roles {
  import opened Wrappers
  import opened Errors
  import opened Scans
  import opened Database
  import U = UserRecord
  import C = CourseRecord
  import E = EnrollmentRecord

  // ---------------------------------------------------------------------------
  // Administrator actions

  /**
   * Creates a user with the given role, storing the digest of the password and
   * the acting administrator's name as creator.  An invalid role is rejected
   * before anything is written; a taken username is rejected by the store.
   */
  function CreateUser(
    db: Store, admin: U.Account, name: string, username: string, password: string, role: string,
    id: string, now: string, hash: string -> string): (r: Result<(Store, U.User), Error>)
    requires admin.Admin?
    ensures !U.IsValidRole(role) ==> r == Failure(ValueError(InvalidRoleMessage))
    ensures U.IsValidRole(role) && UsernameTaken(db, username) ==> r == Failure(ValueError(UsernameNotUniqueMessage))
    ensures r.Success? <==> U.IsValidRole(role) && !UsernameTaken(db, username)
    ensures r.Success? ==>
      var (db', user) := r.value;
      && db' == db.(users := db.users + [user])
      && user.id == id && user.name == name && user.username == username && user.role == role
      && user.password == hash(password)
      && user.creator == admin.user.name
      && user.createdAt == user.updatedAt == now
  {
    if !U.IsValidRole(role) then Failure(ValueError(InvalidRoleMessage))
    else
      var user := U.User(id, name, username, hash(password), role, admin.user.name, now, now);
      var db' :- WriteUser(db, user);
      Success((db', user))
  }

  /** Creates a course with the acting administrator's name as creator; it cannot fail. */
  function CreateCourse(db: Store, admin: U.Account, name: string, description: string, id: string, now: string)
    : (r: (Store, C.Course))
    requires admin.Admin?
    ensures r.1 == C.Course(id, name, description, admin.user.name, now, now)
    ensures r.0.courses == db.courses + [r.1]
    ensures r.0.users == db.users && r.0.enrollments == db.enrollments
  {
    var course := C.Course(id, name, description, admin.user.name, now, now);
    (WriteCourse(db, course), course)
  }

  /** Looking `username` up, as enrolling does, finds a user whose role is student. */
  predicate ResolvesToStudent(db: Store, username: string) {
    var found := ReadUser(db, "", username);
    found.Success? && found.value.Some? && found.value.value.Student?
  }

  /**
   * Enrolls the student with `username` in the course with id `courseId`.
   * The checks come in order: the username must resolve to a student, then
   * the course must exist, then the pair must not be enrolled already.
   */
  function CreateEnrollment(db: Store, admin: U.Account, username: string, courseId: string, id: string, now: string)
    : (r: Result<(Store, E.Enrollment), Error>)
    requires admin.Admin?
    ensures ReadUser(db, "", username).Failure? ==> r == Failure(ReadUser(db, "", username).error)
    ensures ReadUser(db, "", username).Success? && !ResolvesToStudent(db, username) ==>
      r == Failure(ValueError(NoStudentMessage))
    ensures ResolvesToStudent(db, username) && ReadCourse(db, courseId).None? ==>
      r == Failure(ValueError(NoCourseMessage))
    ensures ResolvesToStudent(db, username) && ReadCourse(db, courseId).Some? ==>
      var student := ReadUser(db, "", username).value.value.user;
      var course := ReadCourse(db, courseId).value;
      && (r.Failure? <==> !IsEnrollmentUnique(db, student.id, course.id))
      && (r.Failure? ==> r.error == ValueError(AlreadyEnrolledMessage))
      && (r.Success? ==>
            && r.value.1 == E.Enrollment(id, student.id, student.username, course.id, course.name,
                                         admin.user.name, now, now)
            && r.value.0 == db.(enrollments := db.enrollments + [r.value.1]))
  {
    var found :- ReadUser(db, "", username);
    if found.None? || !found.value.Student? then Failure(ValueError(NoStudentMessage))
    else
      var student := found.value.user;
      match ReadCourse(db, courseId)
      case None => Failure(ValueError(NoCourseMessage))
      case Some(course) =>
        var enrollment := E.Enrollment(id, student.id, student.username, course.id, course.name,
                                       admin.user.name, now, now);
        var db' :- WriteEnrollment(db, enrollment);
        Success((db', enrollment))
  }

  /** The enrollments listed for `username` (the other two query fields are left empty). */
  function GetEnrollmentsByUser(db: Store, username: string): (r: seq<E.Enrollment>)
    ensures forall k :: 0 <= k < |r| ==>
      r[k] in db.enrollments && (r[k].username == username || r[k].userId == "" || r[k].courseId == "")
    ensures forall k :: 0 <= k < |db.enrollments| && db.enrollments[k].username == username ==> db.enrollments[k] in r
  {
    QueryEnrollments(db, "", username, "")
  }

  /** The enrollments listed for `userId` (the other two query fields are left empty). */
  function GetEnrollmentsByUserId(db: Store, userId: string): (r: seq<E.Enrollment>)
    ensures forall k :: 0 <= k < |r| ==>
      r[k] in db.enrollments && (r[k].userId == userId || r[k].username == "" || r[k].courseId == "")
    ensures forall k :: 0 <= k < |db.enrollments| && db.enrollments[k].userId == userId ==> db.enrollments[k] in r
  {
    QueryEnrollments(db, userId, "", "")
  }

  /** The enrollments listed for `courseId` (the other two query fields are left empty). */
  function GetEnrollmentsByCourseId(db: Store, courseId: string): (r: seq<E.Enrollment>)
    ensures forall k :: 0 <= k < |r| ==>
      r[k] in db.enrollments && (r[k].courseId == courseId || r[k].userId == "" || r[k].username == "")
    ensures forall k :: 0 <= k < |db.enrollments| && db.enrollments[k].courseId == courseId ==> db.enrollments[k] in r
  {
    QueryEnrollments(db, "", "", courseId)
  }

  // ---------------------------------------------------------------------------
  // Student actions

  /** The course an enrollment's course id reads back as, if there is one. */
  function CourseOf(db: Store): E.Enrollment -> Option<C.Course> {
    (e: E.Enrollment) => ReadCourse(db, e.courseId)
  }

  /** For each enrollment in order, the course its course id reads back as, when there is one. */
  function CoursesOf(db: Store, enrollments: seq<E.Enrollment>): seq<C.Course> {
    Collect(enrollments, CourseOf(db))
  }

  /** The courses of the enrollments the store lists for this student's id. */
  function GetEnrolledCourses(db: Store, student: U.Account): (r: seq<C.Course>)
    requires student.Student?
    ensures |r| <= |QueryEnrollments(db, student.user.id, "", "")|
    ensures forall k :: 0 <= k < |r| ==>
      && r[k] in db.courses
      && exists e :: e in db.enrollments && MatchesQuery(student.user.id, "", "")(e) && r[k].id == e.courseId
    ensures var q := QueryEnrollments(db, student.user.id, "", "");
      forall j :: 0 <= j < |q| && ReadCourse(db, q[j].courseId).Some? ==> ReadCourse(db, q[j].courseId).value in r
  {
    var enrollments := QueryEnrollments(db, student.user.id, "", "");
    CollectBound(enrollments, CourseOf(db));
    CollectSound(enrollments, CourseOf(db));
    CollectComplete(enrollments, CourseOf(db));
    CoursesOf(db, enrollments)
  }
}
