/** A course record and its two external forms: its row in the courses file and its display string. */
module CourseRecord {
  import opened Wrappers

  /** The six fields a course is constructed with, kept verbatim. */
  datatype Course = Course(
    id: string,
    name: string,
    description: string,
    creator: string,
    createdAt: string,
    updatedAt: string)

  /** The header of the courses file, in the column order the file is written with. */
  const Columns: seq<string> := ["id", "name", "description", "creator", "created_at", "updated_at"]

  /**
   * The same columns as a set: the keys a row must have, no more and no
   * fewer, for the record's constructor to accept it as keyword arguments.
   */
  const ColumnSet: set<string> := {"id", "name", "description", "creator", "created_at", "updated_at"}

  /** The header lists each column exactly once. */
  lemma ColumnsListed()
    ensures ColumnSet == set k | k in Columns
    ensures forall i, j :: 0 <= i < j < |Columns| ==> Columns[i] != Columns[j]
  {
  }

  /** The row a course is written as: its attribute dictionary. */
  function ToRow(c: Course): (row: map<string, string>)
    ensures row.Keys == ColumnSet
  {
    map["id" := c.id, "name" := c.name, "description" := c.description,
        "creator" := c.creator, "created_at" := c.createdAt, "updated_at" := c.updatedAt]
  }

  /**
   * Builds a course from a row read from the file, as keyword arguments do:
   * the row must have exactly the constructor's parameters as keys.
   */
  function FromRow(row: map<string, string>): (r: Option<Course>)
    ensures r.Some? <==> row.Keys == ColumnSet
    ensures r.Some? ==> ToRow(r.value) == row
  {
    if row.Keys == ColumnSet then
      Some(Course(row["id"], row["name"], row["description"],
                  row["creator"], row["created_at"], row["updated_at"]))
    else None
  }

  /** Writing a course and reading its row back yields the same course. */
  lemma RowRoundTrip(c: Course)
    ensures FromRow(ToRow(c)) == Some(c)
  {
  }

  /** The display string `Id <id> (Name: <name>, Description: <description>)`. */
  function Str(c: Course): (r: string)
    ensures |r| == |c.id| + |c.name| + |c.description| + 27
    ensures r[..3 + |c.id|] == "Id " + c.id
    ensures r[|r| - |c.description| - 1..] == c.description + ")"
  {
    "Id " + c.id + " (Name: " + c.name + ", Description: " + c.description + ")"
  }

  /** The display string shows only the id, the name and the description. */
  lemma StrIgnoresBookkeeping(c: Course, d: Course)
    requires c.id == d.id && c.name == d.name && c.description == d.description
    ensures Str(c) == Str(d)
  {
  }
}
