/** An enrollment record, linking a student to a course, and its external forms. */
module EnrollmentRecord {
  import opened Wrappers

  /** The eight fields an enrollment is constructed with, kept verbatim. */
  datatype Enrollment = Enrollment(
    id: string,
    userId: string,
    username: string,
    courseId: string,
    courseName: string,
    creator: string,
    createdAt: string,
    updatedAt: string)

  /** The header of the enrollments file, in the column order the file is written with. */
  const Columns: seq<string> :=
    ["id", "user_id", "username", "course_id", "course_name", "creator", "created_at", "updated_at"]

  /**
   * The same columns as a set: the keys a row must have, no more and no
   * fewer, for the record's constructor to accept it as keyword arguments.
   */
  const ColumnSet: set<string> := {"id", "user_id", "username", "course_id", "course_name", "creator", "created_at", "updated_at"}

  /** The header lists each column exactly once. */
  lemma ColumnsListed()
    ensures ColumnSet == set k | k in Columns
    ensures forall i, j :: 0 <= i < j < |Columns| ==> Columns[i] != Columns[j]
  {
  }

  /** The row an enrollment is written as: its attribute dictionary. */
  function ToRow(e: Enrollment): (row: map<string, string>)
    ensures row.Keys == ColumnSet
  {
    map["id" := e.id, "user_id" := e.userId, "username" := e.username,
        "course_id" := e.courseId, "course_name" := e.courseName,
        "creator" := e.creator, "created_at" := e.createdAt, "updated_at" := e.updatedAt]
  }

  /**
   * Builds an enrollment from a row read from the file, as keyword arguments
   * do: the row must have exactly the constructor's parameters as keys.
   */
  function FromRow(row: map<string, string>): (r: Option<Enrollment>)
    ensures r.Some? <==> row.Keys == ColumnSet
    ensures r.Some? ==> ToRow(r.value) == row
  {
    if row.Keys == ColumnSet then
      Some(Enrollment(row["id"], row["user_id"], row["username"], row["course_id"],
                      row["course_name"], row["creator"], row["created_at"], row["updated_at"]))
    else None
  }

  /** Writing an enrollment and reading its row back yields the same enrollment. */
  lemma RowRoundTrip(e: Enrollment)
    ensures FromRow(ToRow(e)) == Some(e)
  {
  }

  /** The display string `Id <id> (Username: <username>, Course Name: <course name>)`. */
  function Str(e: Enrollment): (r: string)
    ensures |r| == |e.id| + |e.username| + |e.courseName| + 31
    ensures r[..3 + |e.id|] == "Id " + e.id
    ensures r[|r| - |e.courseName| - 1..] == e.courseName + ")"
  {
    "Id " + e.id + " (Username: " + e.username + ", Course Name: " + e.courseName + ")"
  }

  /** The display string ignores the user id, the course id, the creator and the timestamps. */
  lemma StrIgnoresKeysAndBookkeeping(e: Enrollment, f: Enrollment)
    requires e.id == f.id && e.username == f.username && e.courseName == f.courseName
    ensures Str(e) == Str(f)
  {
  }
}
