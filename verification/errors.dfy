/**
 * The exceptions the school-records core raises, each with the message the
 * program attaches to it.
 */
module Errors {

  datatype Error =
    | ValueError(message: string)
    | KeyError(key: string)
    | MaxAttemptsExceededError(message: string)
      /** `input()` reached the end of the input stream. */
    | EOFError

  const InvalidRecordTypeMessage: string := "Invalid record type. Allowed types: user, course, enrollment"
  const InvalidRoleMessage: string := "Invalid role. Allowed roles: student, admin"
  const UsernameNotUniqueMessage: string := "username must be unique"
  const AlreadyEnrolledMessage: string := "user is already enrolled to that course."
  const NoStudentMessage: string := "Invalid user_id. No student with that id was found in the database."
  const NoCourseMessage: string := "Invalid course_id. No course with that id was found in the database."
  const MaxAttemptsMessage: string := "Exceeded maximum login attempts. Try again later."
}
