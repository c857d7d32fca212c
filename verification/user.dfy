/**
 * A user record, the two roles a user can act in, and the user's external
 * forms.
 */
module UserRecord {
  import opened Wrappers
  import opened Errors

  /** The eight fields a user is constructed with; `password` holds a digest. */
  datatype User = User(
    id: string,
    name: string,
    username: string,
    password: string,
    role: string,
    creator: string,
    createdAt: string,
    updatedAt: string)

  /** A user seen in its role: the operations available depend on the variant. */
  datatype Account = Admin(user: User) | Student(user: User)

  /** The header of the users file, in the column order the file is written with. */
  const Columns: seq<string> :=
    ["id", "name", "username", "password", "role", "creator", "created_at", "updated_at"]

  /**
   * The same columns as a set: the keys a row must have, no more and no
   * fewer, for the record's constructor to accept it as keyword arguments.
   */
  const ColumnSet: set<string> := {"id", "name", "username", "password", "role", "creator", "created_at", "updated_at"}

  /** The header lists each column exactly once. */
  lemma ColumnsListed()
    ensures ColumnSet == set k | k in Columns
    ensures forall i, j :: 0 <= i < j < |Columns| ==> Columns[i] != Columns[j]
  {
  }

  predicate IsValidRole(role: string) {
    role == "student" || role == "admin"
  }

  /** Converts a user to the variant its role names; any other role is an error. */
  function ToAdminOrStudent(u: User): (r: Result<Account, Error>)
    ensures r.Failure? <==> u.role != "student" && u.role != "admin"
    ensures r.Failure? ==> r.error == ValueError(InvalidRoleMessage)
    ensures r.Success? ==> r.value.user == u
    ensures r.Success? ==> (r.value.Admin? <==> u.role == "admin")
  {
    if !IsValidRole(u.role) then Failure(ValueError(InvalidRoleMessage))
    else if u.role == "admin" then Success(Admin(u))
    else Success(Student(u))
  }

  /** Converting the user of an account again gives back that account. */
  lemma ConversionIsStable(u: User, a: Account)
    requires ToAdminOrStudent(u) == Success(a)
    ensures ToAdminOrStudent(a.user) == Success(a)
  {
  }

  /** The row a user is written as: its attribute dictionary. */
  function ToRow(u: User): (row: map<string, string>)
    ensures row.Keys == ColumnSet
  {
    map["id" := u.id, "name" := u.name, "username" := u.username,
        "password" := u.password, "role" := u.role,
        "creator" := u.creator, "created_at" := u.createdAt, "updated_at" := u.updatedAt]
  }

  /**
   * Builds a user from a row read from the file, as keyword arguments do:
   * the row must have exactly the constructor's parameters as keys.
   */
  function FromRow(row: map<string, string>): (r: Option<User>)
    ensures r.Some? <==> row.Keys == ColumnSet
    ensures r.Some? ==> ToRow(r.value) == row
  {
    if row.Keys == ColumnSet then
      Some(User(row["id"], row["name"], row["username"], row["password"],
                row["role"], row["creator"], row["created_at"], row["updated_at"]))
    else None
  }

  /** Writing a user and reading its row back yields the same user. */
  lemma RowRoundTrip(u: User)
    ensures FromRow(ToRow(u)) == Some(u)
  {
  }

  /** The display string `Id <id> (Name: <name>, Username: <username>)`. */
  function Str(u: User): (r: string)
    ensures |r| == |u.id| + |u.name| + |u.username| + 24
    ensures r[..3 + |u.id|] == "Id " + u.id
    ensures r[|r| - |u.username| - 1..] == u.username + ")"
  {
    "Id " + u.id + " (Name: " + u.name + ", Username: " + u.username + ")"
  }

  /** The display never shows the password, the role or the bookkeeping fields. */
  lemma StrIgnoresSecrets(u: User, v: User)
    requires u.id == v.id && u.name == v.name && u.username == v.username
    ensures Str(u) == Str(v)
  {
  }
}
