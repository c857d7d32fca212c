/**
 * The helpers under the command-line layer: input validators, the password
 * check, the bounded login loop and the empty-field guards in front of the
 * administrator actions.  The digest is the parameter `hash`, a deterministic
 * function about which nothing else is assumed (in particular not that it is
 * injective); integer parsing is the partial function `parse`.
 */
module Utilities {
  import opened Wrappers
  import opened Errors
  import opened Database
  import opened Roles
  import U = UserRecord
  import C = CourseRecord
  import E = EnrollmentRecord

  // ---------------------------------------------------------------------------
  // Validators and the password check

  /** A string input is valid when it is not empty. */
  function ValidateStringInput(s: string): (r: bool)
    ensures r <==> s != []
  {
    |s| > 0
  }

  /** A menu choice is valid when it parses as an integer within `[min, max]`. */
  function ValidateMenuInput(input: string, min: int, max: int, parse: string -> Option<int>): (r: bool)
    ensures r <==> exists n :: parse(input) == Some(n) && min <= n <= max
    ensures parse(input).None? ==> !r
    ensures max < min ==> !r
  {
    match parse(input)
    case None => false
    case Some(n) => min <= n <= max
  }

  /** Whether the digest of `password` is the stored digest. */
  function ComparePasswordToHash(password: string, hashed: string, hash: string -> string): (r: bool)
    ensures r <==> hash(password) == hashed
  {
    var digest := hash(password);
    digest == hashed
  }

  /** A password always matches its own digest, whatever the digest function. */
  lemma PasswordMatchesOwnHash(password: string, hash: string -> string)
    ensures ComparePasswordToHash(password, hash(password), hash)
  {
  }

  // ---------------------------------------------------------------------------
  // Login

  const MaxAttempts: nat := 5

  const EmptyCredentialsMessage: string := "username and password can not be empty."
  const InvalidCredentialsMessage: string := "Invalid username or password"

  /** One username/password pair as typed at the prompts. */
  datatype Attempt = Attempt(username: string, password: string)

  /** How one attempt ends: rejected with a message, accepted, or raising. */
  datatype AttemptOutcome = Rejected(message: string) | Accepted(account: U.Account) | Raised(error: Error)

  /**
   * One pass of the login loop body.  Empty fields are rejected without a
   * lookup; an unknown username and a wrong password are rejected with the
   * same message.
   */
  function TryAttempt(db: Store, a: Attempt, hash: string -> string): (r: AttemptOutcome)
    ensures a.username == [] || a.password == [] ==> r == Rejected(EmptyCredentialsMessage)
    ensures r.Rejected? && a.username != [] && a.password != [] ==> r.message == InvalidCredentialsMessage
    ensures r.Raised? ==> r.error == ValueError(InvalidRoleMessage)
    ensures r.Raised? <==> a.username != [] && a.password != [] && ReadUser(db, "", a.username).Failure?
    ensures a.username != [] && a.password != [] && ReadUser(db, "", a.username).Success? && !r.Accepted? ==>
      r == Rejected(InvalidCredentialsMessage)
    ensures r.Accepted? <==>
      && a.username != [] && a.password != []
      && ReadUser(db, "", a.username).Success?
      && ReadUser(db, "", a.username).value.Some?
      && hash(a.password) == ReadUser(db, "", a.username).value.value.user.password
    ensures r.Accepted? ==> r.account == ReadUser(db, "", a.username).value.value
  {
    if !ValidateStringInput(a.username) || !ValidateStringInput(a.password) then
      Rejected(EmptyCredentialsMessage)
    else
      match ReadUser(db, "", a.username)
      case Failure(e) => Raised(e)
      case Success(None) => Rejected(InvalidCredentialsMessage)
      case Success(Some(account)) =>
        if !ComparePasswordToHash(a.password, account.user.password, hash) then
          Rejected(InvalidCredentialsMessage)
        else
          match U.ToAdminOrStudent(account.user)
          case Success(converted) => Accepted(converted)
          case Failure(e) => Raised(e)
  }

  /** The result of the login loop and how many attempts it read. */
  datatype Login = Login(outcome: Result<U.Account, Error>, consumed: nat)

  /**
   * The login loop from attempt number `count` on, with `check` deciding each
   * attempt.  Every attempt read counts, including one with an empty field;
   * running out of input while prompting raises an end-of-file error.
   */
  function LoginLoop(attempts: seq<Attempt>, count: nat, check: Attempt -> AttemptOutcome): (r: Login)
    requires count <= MaxAttempts
    ensures count <= r.consumed <= MaxAttempts
    decreases MaxAttempts - count
  {
    if count == MaxAttempts then Login(Failure(MaxAttemptsExceededError(MaxAttemptsMessage)), count)
    else if count >= |attempts| then Login(Failure(EOFError), count)
    else
      match check(attempts[count])
      case Rejected(_) => LoginLoop(attempts, count + 1, check)
      case Accepted(account) => Login(Success(account), count + 1)
      case Raised(e) => Login(Failure(e), count + 1)
  }

  /** Attempts `from` up to `to` were all rejected. */
  ghost predicate AllRejected(attempts: seq<Attempt>, from: nat, to: nat, check: Attempt -> AttemptOutcome)
    requires from <= to <= |attempts|
  {
    forall j :: from <= j < to ==> check(attempts[j]).Rejected?
  }

  /** A successful login accepted its last attempt after rejecting all earlier ones. */
  lemma {:induction false} LoopSucceeded(attempts: seq<Attempt>, count: nat, check: Attempt -> AttemptOutcome)
    requires count <= MaxAttempts
    ensures var r := LoginLoop(attempts, count, check);
      r.outcome.Success? ==>
        && count < r.consumed <= |attempts|
        && check(attempts[r.consumed - 1]) == Accepted(r.outcome.value)
        && AllRejected(attempts, count, r.consumed - 1, check)
    decreases MaxAttempts - count
  {
    if count < MaxAttempts && count < |attempts| && check(attempts[count]).Rejected? {
      LoopSucceeded(attempts, count + 1, check);
    }
  }

  /**
   * The loop gives up with the attempts-exceeded error exactly when every
   * attempt up to the bound was read and rejected, and then it has read all of them.
   */
  lemma {:induction false} LoopExhausted(attempts: seq<Attempt>, count: nat, check: Attempt -> AttemptOutcome)
    requires count <= MaxAttempts && count <= |attempts|
    requires forall a :: check(a).Raised? ==> check(a).error.ValueError?
    ensures var r := LoginLoop(attempts, count, check);
      r.outcome == Failure(MaxAttemptsExceededError(MaxAttemptsMessage)) <==>
        MaxAttempts <= |attempts| && AllRejected(attempts, count, MaxAttempts, check)
    ensures var r := LoginLoop(attempts, count, check);
      r.outcome == Failure(MaxAttemptsExceededError(MaxAttemptsMessage)) ==> r.consumed == MaxAttempts
    decreases MaxAttempts - count
  {
    if count < MaxAttempts && count < |attempts| {
      var outcome := check(attempts[count]);
      if outcome.Rejected? {
        LoopExhausted(attempts, count + 1, check);
      } else if outcome.Raised? {
        assert outcome.error.ValueError?;
      }
    }
  }

  /** The loop succeeds at the first accepted attempt when it lies within the bound. */
  lemma {:induction false} LoopAcceptsFirstMatch(attempts: seq<Attempt>, count: nat, i: nat, check: Attempt -> AttemptOutcome)
    requires count <= i < MaxAttempts && i < |attempts|
    requires AllRejected(attempts, count, i, check)
    requires check(attempts[i]).Accepted?
    ensures LoginLoop(attempts, count, check) == Login(Success(check(attempts[i]).account), i + 1)
    decreases i - count
  {
    if count < i {
      LoopAcceptsFirstMatch(attempts, count + 1, i, check);
    }
  }

  /** The loop ends with an attempt's error at the first attempt that raises, when it lies within the bound. */
  lemma {:induction false} LoopRaisesFirst(attempts: seq<Attempt>, count: nat, i: nat, check: Attempt -> AttemptOutcome)
    requires count <= i < MaxAttempts && i < |attempts|
    requires AllRejected(attempts, count, i, check)
    requires check(attempts[i]).Raised?
    ensures LoginLoop(attempts, count, check) == Login(Failure(check(attempts[i]).error), i + 1)
    decreases i - count
  {
    if count < i {
      LoopRaisesFirst(attempts, count + 1, i, check);
    }
  }

  /**
   * The loop runs out of input exactly when fewer attempts than the bound were
   * typed and every one of them was rejected.
   */
  lemma {:induction false} LoopEndOfInput(attempts: seq<Attempt>, count: nat, check: Attempt -> AttemptOutcome)
    requires count <= MaxAttempts && count <= |attempts|
    requires forall a :: check(a).Raised? ==> check(a).error.ValueError?
    ensures var r := LoginLoop(attempts, count, check);
      r.outcome == Failure(EOFError) <==>
        |attempts| < MaxAttempts && AllRejected(attempts, count, |attempts|, check)
    decreases MaxAttempts - count
  {
    if count < MaxAttempts && count < |attempts| {
      var outcome := check(attempts[count]);
      if outcome.Rejected? {
        LoopEndOfInput(attempts, count + 1, check);
      } else if outcome.Raised? {
        assert outcome.error.ValueError?;
      }
    }
  }

  /** Nothing typed after the last attempt the loop may read changes its result. */
  lemma {:induction false} LoopReadsAtMostMaxAttempts(attempts: seq<Attempt>, count: nat, check: Attempt -> AttemptOutcome)
    requires count <= MaxAttempts <= |attempts|
    ensures LoginLoop(attempts, count, check) == LoginLoop(attempts[..MaxAttempts], count, check)
    decreases MaxAttempts - count
  {
    if count < MaxAttempts {
      LoopReadsAtMostMaxAttempts(attempts, count + 1, check);
    }
  }

  /** The attempt check of the login loop against store `db`. */
  function CheckAgainst(db: Store, hash: string -> string): Attempt -> AttemptOutcome {
    a => TryAttempt(db, a, hash)
  }

  /**
   * Prompts for credentials at most `MaxAttempts` times and returns the first
   * user whose credentials match, in its role.  `attempts` is what is typed at
   * the prompts, in order.
   */
  function LoginFlow(db: Store, attempts: seq<Attempt>, hash: string -> string): (r: Login)
    ensures r.consumed <= MaxAttempts
    ensures r.outcome.Success? ==>
      && 0 < r.consumed <= |attempts|
      && TryAttempt(db, attempts[r.consumed - 1], hash) == Accepted(r.outcome.value)
      && forall j :: 0 <= j < r.consumed - 1 ==> TryAttempt(db, attempts[j], hash).Rejected?
    ensures r.outcome == Failure(MaxAttemptsExceededError(MaxAttemptsMessage)) <==>
      && MaxAttempts <= |attempts|
      && forall j :: 0 <= j < MaxAttempts ==> TryAttempt(db, attempts[j], hash).Rejected?
    ensures r.outcome == Failure(MaxAttemptsExceededError(MaxAttemptsMessage)) ==> r.consumed == MaxAttempts
  {
    var check := CheckAgainst(db, hash);
    LoopSucceeded(attempts, 0, check);
    LoopExhausted(attempts, 0, check);
    LoginLoop(attempts, 0, check)
  }

  /** Login returns the account of the first accepted attempt when it comes within the bound. */
  lemma LoginAcceptsFirstMatch(db: Store, attempts: seq<Attempt>, i: nat, hash: string -> string)
    requires i < MaxAttempts && i < |attempts|
    requires forall j :: 0 <= j < i ==> TryAttempt(db, attempts[j], hash).Rejected?
    requires TryAttempt(db, attempts[i], hash).Accepted?
    ensures LoginFlow(db, attempts, hash) == Login(Success(TryAttempt(db, attempts[i], hash).account), i + 1)
  {
    LoopAcceptsFirstMatch(attempts, 0, i, CheckAgainst(db, hash));
  }

  /**
   * An attempt that cannot log in without raising: a field is empty, or the
   * username is unknown, or the password's digest is not the stored one.
   */
  ghost predicate BadCredentials(db: Store, a: Attempt, hash: string -> string) {
    || a.username == [] || a.password == []
    || (&& ReadUser(db, "", a.username).Success?
        && (|| ReadUser(db, "", a.username).value.None?
            || hash(a.password) != ReadUser(db, "", a.username).value.value.user.password))
  }

  /** Five bad attempts in a row end in the attempts-exceeded error, having read all five. */
  lemma BadCredentialsExhaustAttempts(db: Store, attempts: seq<Attempt>, hash: string -> string)
    requires MaxAttempts <= |attempts|
    requires forall j :: 0 <= j < MaxAttempts ==> BadCredentials(db, attempts[j], hash)
    ensures LoginFlow(db, attempts, hash) == Login(Failure(MaxAttemptsExceededError(MaxAttemptsMessage)), MaxAttempts)
  {
    forall j | 0 <= j < MaxAttempts
      ensures TryAttempt(db, attempts[j], hash).Rejected?
    {
      assert BadCredentials(db, attempts[j], hash);
    }
  }

  /**
   * A lookup that raises ends login with that error at that attempt, when
   * every earlier attempt was rejected.
   */
  lemma LoginRaisesFirst(db: Store, attempts: seq<Attempt>, i: nat, hash: string -> string)
    requires i < MaxAttempts && i < |attempts|
    requires forall j :: 0 <= j < i ==> TryAttempt(db, attempts[j], hash).Rejected?
    requires TryAttempt(db, attempts[i], hash).Raised?
    ensures LoginFlow(db, attempts, hash) == Login(Failure(TryAttempt(db, attempts[i], hash).error), i + 1)
  {
    LoopRaisesFirst(attempts, 0, i, CheckAgainst(db, hash));
  }

  /**
   * Login ends at end of input exactly when fewer than `MaxAttempts` attempts
   * were typed and all of them were rejected.
   */
  lemma LoginEndOfInput(db: Store, attempts: seq<Attempt>, hash: string -> string)
    ensures LoginFlow(db, attempts, hash).outcome == Failure(EOFError) <==>
      && |attempts| < MaxAttempts
      && forall j :: 0 <= j < |attempts| ==> TryAttempt(db, attempts[j], hash).Rejected?
  {
    LoopEndOfInput(attempts, 0, CheckAgainst(db, hash));
  }

  /** Login reads at most `MaxAttempts` attempts: later input does not matter. */
  lemma LoginReadsAtMostMaxAttempts(db: Store, attempts: seq<Attempt>, hash: string -> string)
    requires MaxAttempts <= |attempts|
    ensures LoginFlow(db, attempts, hash) == LoginFlow(db, attempts[..MaxAttempts], hash)
  {
    LoopReadsAtMostMaxAttempts(attempts, 0, CheckAgainst(db, hash));
  }

  // ---------------------------------------------------------------------------
  // Guards in front of the administrator actions

  /** What an administrator action at the prompt ends in. */
  datatype CliOutcome<T> =
      /** An empty field was refused with this message; the store was not called. */
    | Refused(message: string)
      /** The action raised; the store is as it was. */
    | Failed(error: Error)
      /** The action wrote `record`, giving store `db`. */
    | Done(db: Store, record: T)

  const EmptyUsernameMessage: string := "\nUsername can not be empty."
  const EmptyFullNameMessage: string := "\nFull name can not be empty."
  const EmptyPasswordMessage: string := "\nPassword can not be empty."
  const EmptyCourseNameMessage: string := "\nCourse name can not be empty."
  const EmptyCourseDescriptionMessage: string := "\nCourse description can not be empty."
  const EmptyEnrollUsernameMessage: string := "\nUsername can not be empty"
  /** The message printed for an empty course id when enrolling, as the program words it. */
  const EmptyEnrollCourseIdMessage: string := "\nFull name can not be empty"

  /** Creates a user of `role` from the three prompted fields, refusing any empty one first. */
  function CreateNewUser(
    db: Store, admin: U.Account, role: string, username: string, fullName: string, password: string,
    id: string, now: string, hash: string -> string): (r: CliOutcome<U.User>)
    requires admin.Admin?
    ensures username == [] ==> r == Refused(EmptyUsernameMessage)
    ensures username != [] && fullName == [] ==> r == Refused(EmptyFullNameMessage)
    ensures username != [] && fullName != [] && password == [] ==> r == Refused(EmptyPasswordMessage)
    ensures r.Refused? <==> username == [] || fullName == [] || password == []
    ensures !r.Refused? ==>
      var created := CreateUser(db, admin, fullName, username, password, role, id, now, hash);
      (r.Done? <==> created.Success?) && (r.Done? ==> (r.db, r.record) == created.value)
        && (r.Failed? ==> r.error == created.error)
  {
    if !ValidateStringInput(username) then Refused(EmptyUsernameMessage)
    else if !ValidateStringInput(fullName) then Refused(EmptyFullNameMessage)
    else if !ValidateStringInput(password) then Refused(EmptyPasswordMessage)
    else
      match CreateUser(db, admin, fullName, username, password, role, id, now, hash)
      case Success((db', user)) => Done(db', user)
      case Failure(e) => Failed(e)
  }

  /** Creates a course from the two prompted fields, refusing any empty one first. */
  function CreateNewCourse(db: Store, admin: U.Account, name: string, description: string, id: string, now: string)
    : (r: CliOutcome<C.Course>)
    requires admin.Admin?
    ensures name == [] ==> r == Refused(EmptyCourseNameMessage)
    ensures name != [] && description == [] ==> r == Refused(EmptyCourseDescriptionMessage)
    ensures r.Refused? <==> name == [] || description == []
    ensures !r.Refused? ==> r == Done(CreateCourse(db, admin, name, description, id, now).0,
                                      CreateCourse(db, admin, name, description, id, now).1)
  {
    if !ValidateStringInput(name) then Refused(EmptyCourseNameMessage)
    else if !ValidateStringInput(description) then Refused(EmptyCourseDescriptionMessage)
    else
      var (db', course) := CreateCourse(db, admin, name, description, id, now);
      Done(db', course)
  }

  /** Enrolls a user in a course from the two prompted fields, refusing any empty one first. */
  function EnrollUserToCourse(db: Store, admin: U.Account, username: string, courseId: string, id: string, now: string)
    : (r: CliOutcome<E.Enrollment>)
    requires admin.Admin?
    ensures username == [] ==> r == Refused(EmptyEnrollUsernameMessage)
    ensures username != [] && courseId == [] ==> r == Refused(EmptyEnrollCourseIdMessage)
    ensures r.Refused? <==> username == [] || courseId == []
    ensures !r.Refused? ==>
      var enrolled := CreateEnrollment(db, admin, username, courseId, id, now);
      (r.Done? <==> enrolled.Success?) && (r.Done? ==> (r.db, r.record) == enrolled.value)
        && (r.Failed? ==> r.error == enrolled.error)
  {
    if !ValidateStringInput(username) then Refused(EmptyEnrollUsernameMessage)
    else if !ValidateStringInput(courseId) then Refused(EmptyEnrollCourseIdMessage)
    else
      match CreateEnrollment(db, admin, username, courseId, id, now)
      case Success((db', enrollment)) => Done(db', enrollment)
      case Failure(e) => Failed(e)
  }
}
