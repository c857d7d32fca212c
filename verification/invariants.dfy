/**
 * Store-wide invariants the administrator actions preserve, and the lookup
 * guarantees they buy.  The lookups compare empty arguments literally (a
 * lookup by username alone also matches a row with an empty id, a query by
 * user id alone also matches a row with an empty username or course id); under
 * `Consistent` no such row exists, so each lookup keys on its one argument.
 */
module StoreInvariants {
  import opened Wrappers
  import opened Errors
  import opened Scans
  import opened Database
  import opened Roles
  import opened Utilities
  import U = UserRecord
  import C = CourseRecord
  import E = EnrollmentRecord

  /** The key fields the lookups compare are never empty. */
  predicate KeysNonEmpty(db: Store) {
    && (forall i :: 0 <= i < |db.users| ==> db.users[i].id != [] && db.users[i].username != [])
    && (forall i :: 0 <= i < |db.courses| ==> db.courses[i].id != [])
    && (forall i :: 0 <= i < |db.enrollments| ==>
          db.enrollments[i].userId != [] && db.enrollments[i].username != [] && db.enrollments[i].courseId != [])
  }

  predicate Consistent(db: Store) {
    UsernamesUnique(db.users) && PairsUnique(db.enrollments) && KeysNonEmpty(db)
  }

  // ---------------------------------------------------------------------------
  // Preservation

  /** A store opened from no files at all is consistent (identifiers are never empty). */
  lemma OpenedFreshIsConsistent(id: string, now: string, hash: string -> string)
    requires id != []
    ensures Consistent(Open(Files(None, None, None), id, now, hash))
  {
  }

  lemma CreateUserKeepsConsistent(
    db: Store, admin: U.Account, name: string, username: string, password: string, role: string,
    id: string, now: string, hash: string -> string)
    requires admin.Admin? && Consistent(db)
    requires id != [] && username != []
    ensures var r := CreateUser(db, admin, name, username, password, role, id, now, hash);
      r.Success? ==> Consistent(r.value.0)
  {
  }

  lemma CreateCourseKeepsConsistent(db: Store, admin: U.Account, name: string, description: string, id: string, now: string)
    requires admin.Admin? && Consistent(db)
    requires id != []
    ensures Consistent(CreateCourse(db, admin, name, description, id, now).0)
  {
  }

  /** A lookup by a non-empty username alone, in a consistent store, finds the user with that username. */
  lemma ReadUserByUsername(db: Store, username: string)
    requires Consistent(db) && username != []
    ensures ReadUser(db, "", username) == Success(None) <==> !UsernameTaken(db, username)
    ensures forall i :: 0 <= i < |db.users| && db.users[i].username == username ==>
      && (ReadUser(db, "", username).Success? <==> U.IsValidRole(db.users[i].role))
      && (ReadUser(db, "", username).Success? ==>
            ReadUser(db, "", username) == Success(Some(U.ToAdminOrStudent(db.users[i]).value)))
  {
    forall i | 0 <= i < |db.users| && db.users[i].username == username
      ensures FirstAt(db.users, MatchesUser("", username), i)
    {
      forall j | 0 <= j < i ensures !MatchesUser("", username)(db.users[j]) {
        assert db.users[j].username != db.users[i].username;
      }
    }
  }

  /**
   * In a consistent store a login attempt is accepted exactly when a stored user
   * has the typed username, a valid role and the digest of the typed password,
   * and it is that user who is returned.
   */
  lemma AttemptKeysOnUsername(db: Store, a: Attempt, hash: string -> string)
    requires Consistent(db)
    ensures TryAttempt(db, a, hash).Accepted? <==>
      && a.password != []
      && exists i :: 0 <= i < |db.users| && db.users[i].username == a.username
                     && U.IsValidRole(db.users[i].role) && hash(a.password) == db.users[i].password
    ensures TryAttempt(db, a, hash).Accepted? ==> TryAttempt(db, a, hash).account.user.username == a.username
  {
    if a.username != [] {
      ReadUserByUsername(db, a.username);
    }
  }

  /** A lookup by a non-empty id alone, in a consistent store, finds the first user with that id. */
  lemma ReadUserById(db: Store, id: string)
    requires Consistent(db) && id != []
    ensures ReadUser(db, id, "") == Success(None) <==> forall i :: 0 <= i < |db.users| ==> db.users[i].id != id
    ensures forall i :: FirstAt(db.users, HasUserId(id), i) ==>
      && (ReadUser(db, id, "").Success? <==> U.IsValidRole(db.users[i].role))
      && (ReadUser(db, id, "").Success? ==>
            ReadUser(db, id, "") == Success(Some(U.ToAdminOrStudent(db.users[i]).value)))
  {
    forall i | FirstAt(db.users, HasUserId(id), i)
      ensures FirstAt(db.users, MatchesUser(id, ""), i)
    {
    }
  }

  function HasUserId(id: string): U.User -> bool {
    (u: U.User) => u.id == id
  }

  /**
   * A user with a fresh id and a free username, written to a consistent store,
   * reads back by id and by username.
   */
  lemma WriteUserThenRead(db: Store, user: U.User)
    requires Consistent(db)
    requires user.id != [] && user.username != [] && U.IsValidRole(user.role)
    requires !UsernameTaken(db, user.username)
    requires forall i :: 0 <= i < |db.users| ==> db.users[i].id != user.id
    ensures WriteUser(db, user).Success?
    ensures var db' := WriteUser(db, user).value;
      && ReadUser(db', user.id, "") == Success(Some(U.ToAdminOrStudent(user).value))
      && ReadUser(db', "", user.username) == Success(Some(U.ToAdminOrStudent(user).value))
  {
    var db' := WriteUser(db, user).value;
    var n := |db.users|;
    assert db'.users[n] == user;
    assert Consistent(db');
    assert FirstAt(db'.users, HasUserId(user.id), n);
    ReadUserById(db', user.id);
    ReadUserByUsername(db', user.username);
  }

  /** A course whose id is new reads back, field for field, after it is written. */
  lemma WriteCourseThenRead(db: Store, course: C.Course)
    requires forall i :: 0 <= i < |db.courses| ==> db.courses[i].id != course.id
    ensures ReadCourse(WriteCourse(db, course), course.id) == Some(course)
    ensures C.FromRow(C.ToRow(course)) == Some(course)
  {
    var db' := WriteCourse(db, course);
    FirstMatchAt(db'.courses, HasCourseId(course.id), |db.courses|);
    C.RowRoundTrip(course);
  }

  /** An enrollment whose id and pair are new reads back, field for field, after it is written. */
  lemma WriteEnrollmentThenRead(db: Store, enrollment: E.Enrollment)
    requires forall i :: 0 <= i < |db.enrollments| ==> db.enrollments[i].id != enrollment.id
    requires IsEnrollmentUnique(db, enrollment.userId, enrollment.courseId)
    ensures WriteEnrollment(db, enrollment).Success?
    ensures ReadEnrollment(WriteEnrollment(db, enrollment).value, enrollment.id) == Some(enrollment)
    ensures E.FromRow(E.ToRow(enrollment)) == Some(enrollment)
  {
    var db' := WriteEnrollment(db, enrollment).value;
    FirstMatchAt(db'.enrollments, HasEnrollmentId(enrollment.id), |db.enrollments|);
    E.RowRoundTrip(enrollment);
  }

  lemma CreateEnrollmentKeepsConsistent(db: Store, admin: U.Account, username: string, courseId: string, id: string, now: string)
    requires admin.Admin? && Consistent(db)
    ensures var r := CreateEnrollment(db, admin, username, courseId, id, now);
      r.Success? ==> Consistent(r.value.0)
  {
    var r := CreateEnrollment(db, admin, username, courseId, id, now);
    if username != [] {
      ReadUserByUsername(db, username);
    }
    if r.Success? {
      var i :| 0 <= i < |db.users| && db.users[i].username == username;
      var course := ReadCourse(db, courseId).value;
      assert course in db.courses;
      assert r.value.1.userId == db.users[i].id && r.value.1.username == username;
    }
  }

  /** Guarded by the prompts, every administrator action keeps a consistent store consistent. */
  lemma AdminActionsKeepConsistent(
    db: Store, admin: U.Account, role: string, username: string, fullName: string, password: string,
    courseName: string, description: string, courseId: string,
    id: string, now: string, hash: string -> string)
    requires admin.Admin? && Consistent(db)
    requires id != []
    ensures var r := CreateNewUser(db, admin, role, username, fullName, password, id, now, hash);
      r.Done? ==> Consistent(r.db)
    ensures var r := CreateNewCourse(db, admin, courseName, description, id, now);
      r.Done? ==> Consistent(r.db)
    ensures var r := EnrollUserToCourse(db, admin, username, courseId, id, now);
      r.Done? ==> Consistent(r.db)
  {
    if username != [] {
      CreateUserKeepsConsistent(db, admin, fullName, username, password, role, id, now, hash);
    }
    CreateCourseKeepsConsistent(db, admin, courseName, description, id, now);
    CreateEnrollmentKeepsConsistent(db, admin, username, courseId, id, now);
  }

  // ---------------------------------------------------------------------------
  // Lookups in a consistent store

  function ByUserId(userId: string): E.Enrollment -> bool {
    (e: E.Enrollment) => e.userId == userId
  }

  function ByUsername(username: string): E.Enrollment -> bool {
    (e: E.Enrollment) => e.username == username
  }

  function ByCourseId(courseId: string): E.Enrollment -> bool {
    (e: E.Enrollment) => e.courseId == courseId
  }

  /** In a consistent store the query by user id keeps exactly that user's rows, in order. */
  lemma QueryByUserIdIsExact(db: Store, userId: string)
    requires KeysNonEmpty(db)
    ensures GetEnrollmentsByUserId(db, userId) == Filter(db.enrollments, ByUserId(userId))
  {
    forall k | 0 <= k < |db.enrollments|
      ensures MatchesQuery(userId, "", "")(db.enrollments[k]) == ByUserId(userId)(db.enrollments[k])
    {
    }
    FilterCongruent(db.enrollments, MatchesQuery(userId, "", ""), ByUserId(userId));
  }

  /** In a consistent store the query by username keeps exactly that username's rows, in order. */
  lemma QueryByUsernameIsExact(db: Store, username: string)
    requires KeysNonEmpty(db)
    ensures GetEnrollmentsByUser(db, username) == Filter(db.enrollments, ByUsername(username))
  {
    forall k | 0 <= k < |db.enrollments|
      ensures MatchesQuery("", username, "")(db.enrollments[k]) == ByUsername(username)(db.enrollments[k])
    {
    }
    FilterCongruent(db.enrollments, MatchesQuery("", username, ""), ByUsername(username));
  }

  /** In a consistent store the query by course id keeps exactly that course's rows, in order. */
  lemma QueryByCourseIdIsExact(db: Store, courseId: string)
    requires KeysNonEmpty(db)
    ensures GetEnrollmentsByCourseId(db, courseId) == Filter(db.enrollments, ByCourseId(courseId))
  {
    forall k | 0 <= k < |db.enrollments|
      ensures MatchesQuery("", "", courseId)(db.enrollments[k]) == ByCourseId(courseId)(db.enrollments[k])
    {
    }
    FilterCongruent(db.enrollments, MatchesQuery("", "", courseId), ByCourseId(courseId));
  }

  /**
   * In a consistent store a student's courses are, in enrollment order, the
   * existing courses of exactly that student's enrollments.
   */
  lemma EnrolledCoursesAreExact(db: Store, student: U.Account)
    requires KeysNonEmpty(db) && student.Student?
    ensures GetEnrolledCourses(db, student) == CoursesOf(db, Filter(db.enrollments, ByUserId(student.user.id)))
    ensures |GetEnrolledCourses(db, student)| <= |Filter(db.enrollments, ByUserId(student.user.id))|
    ensures forall k :: 0 <= k < |GetEnrolledCourses(db, student)| ==>
      exists e :: e in db.enrollments && e.userId == student.user.id && e.courseId == GetEnrolledCourses(db, student)[k].id
    ensures var mine := Filter(db.enrollments, ByUserId(student.user.id));
      forall j :: 0 <= j < |mine| && ReadCourse(db, mine[j].courseId).Some? ==>
        ReadCourse(db, mine[j].courseId).value in GetEnrolledCourses(db, student)
  {
    QueryByUserIdIsExact(db, student.user.id);
    var mine := Filter(db.enrollments, ByUserId(student.user.id));
    assert GetEnrolledCourses(db, student) == CoursesOf(db, mine);
    CollectBound(mine, CourseOf(db));
    CollectComplete(mine, CourseOf(db));
    CoursesComeFromEnrollments(db, mine, student.user.id);
  }

  /** Every course read for a user's own enrollments is named by one of them. */
  lemma CoursesComeFromEnrollments(db: Store, mine: seq<E.Enrollment>, userId: string)
    requires forall j :: 0 <= j < |mine| ==> mine[j] in db.enrollments && mine[j].userId == userId
    ensures forall k :: 0 <= k < |CoursesOf(db, mine)| ==>
      exists e :: e in db.enrollments && e.userId == userId && e.courseId == CoursesOf(db, mine)[k].id
  {
    var r := CoursesOf(db, mine);
    CollectSound(mine, CourseOf(db));
    forall k | 0 <= k < |r|
      ensures exists e :: e in db.enrollments && e.userId == userId && e.courseId == r[k].id
    {
      var j :| 0 <= j < |mine| && CourseOf(db)(mine[j]) == Some(r[k]);
      assert r[k].id == mine[j].courseId;
    }
  }

  /** Enrolling the same student in the same course a second time fails. */
  lemma CreateEnrollmentTwiceFails(
    db: Store, admin: U.Account, username: string, courseId: string,
    id: string, now: string, id': string, now': string)
    requires admin.Admin?
    requires CreateEnrollment(db, admin, username, courseId, id, now).Success?
    ensures var db' := CreateEnrollment(db, admin, username, courseId, id, now).value.0;
      CreateEnrollment(db', admin, username, courseId, id', now') == Failure(ValueError(AlreadyEnrolledMessage))
  {
    var (db', e) := CreateEnrollment(db, admin, username, courseId, id, now).value;
    assert db'.users == db.users && db'.courses == db.courses;
    assert ReadUser(db', "", username) == ReadUser(db, "", username);
    assert ReadCourse(db', courseId) == ReadCourse(db, courseId);
    assert db'.enrollments[|db.enrollments|] == e;
  }

  /**
   * In a consistent store, enrolling an unknown username or an administrator's
   * username fails with the no-student error whether or not the course exists.
   */
  lemma CreateEnrollmentNeedsStudent(db: Store, admin: U.Account, username: string, courseId: string, id: string, now: string)
    requires admin.Admin? && Consistent(db)
    requires !UsernameTaken(db, username) ||
             exists i :: 0 <= i < |db.users| && db.users[i].username == username && db.users[i].role == "admin"
    ensures CreateEnrollment(db, admin, username, courseId, id, now) == Failure(ValueError(NoStudentMessage))
  {
    if username == [] {
      assert ReadUser(db, "", username) == Success(None);
    } else {
      ReadUserByUsername(db, username);
    }
  }

  // ---------------------------------------------------------------------------
  // Append-only reads

  /** Reading every course or enrollment after a write shows the old rows followed by the new one. */
  lemma ReadAllAfterWrite(db: Store, course: C.Course, enrollment: E.Enrollment)
    ensures ReadCourses(WriteCourse(db, course)) == ReadCourses(db) + [course]
    ensures WriteEnrollment(db, enrollment).Success? ==>
      ReadEnrollments(WriteEnrollment(db, enrollment).value) == ReadEnrollments(db) + [enrollment]
  {
  }

  /** A written enrollment joins the end of every query it matches and no other. */
  lemma QueryAfterWriteEnrollment(db: Store, enrollment: E.Enrollment, userId: string, username: string, courseId: string)
    requires WriteEnrollment(db, enrollment).Success?
    ensures var db' := WriteEnrollment(db, enrollment).value;
      QueryEnrollments(db', userId, username, courseId) ==
        QueryEnrollments(db, userId, username, courseId) +
        (if MatchesQuery(userId, username, courseId)(enrollment) then [enrollment] else [])
  {
    var db' := WriteEnrollment(db, enrollment).value;
    FilterAppend(db.enrollments, [enrollment], MatchesQuery(userId, username, courseId));
    assert Filter([enrollment], MatchesQuery(userId, username, courseId)) ==
      (if MatchesQuery(userId, username, courseId)(enrollment) then [enrollment] else []);
  }
}
