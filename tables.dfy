/**
 * The two SQLite tables of the store and what each parameterised statement
 * of the database class does to them, as functions on the rows. A table is a
 * sequence of rows in insertion order; `ORDER BY student_id` is an explicit
 * sort.
 */
module Tables {
  import opened Wrappers
  import opened Text
  import opened SqlLike
  import opened Models

  /** A row of `users(id, username, password)`; `password` holds the hash. */
  datatype UserRow = UserRow(id: int, username: string, password: string)

  /** A row of `students`; NULL optional columns are None. The autoincrement
      `id` column is internal and not modelled. */
  datatype StudentRow = StudentRow(studentId: int, name: string, surname: string,
                                   faculty: Option<string>, department: Option<string>,
                                   group: Option<string>, userId: int)

  /** What getUserId returns for an unknown user name. */
  const NO_USER: int := -1

  // ===========================================================================
  // users
  // ===========================================================================

  /** The users table constraints: AUTOINCREMENT ids (from 1, increasing, all
      below the next id to hand out) and `username ... UNIQUE`. */
  ghost predicate UsersValid(users: seq<UserRow>, nextId: int) {
    && 1 <= nextId
    && (forall i :: 0 <= i < |users| ==> 1 <= users[i].id < nextId)
    && (forall i, j :: 0 <= i < j < |users| ==> users[i].id < users[j].id)
    && (forall i, j :: 0 <= i < j < |users| ==> users[i].username != users[j].username)
  }

  predicate UsernameTaken(users: seq<UserRow>, username: string) {
    exists i :: 0 <= i < |users| && users[i].username == username
  }

  /** `SELECT id FROM users WHERE username = ? AND password = ?` has a row. */
  predicate CredentialsMatch(users: seq<UserRow>, username: string, passwordHash: string) {
    exists i :: 0 <= i < |users| && users[i].username == username && users[i].password == passwordHash
  }

  /** The first row of `SELECT id FROM users WHERE username = ?`. */
  function FindUser(users: seq<UserRow>, username: string): (r: Option<UserRow>)
    ensures r.Some? ==> r.value in users && r.value.username == username
    ensures r.Some? ==> exists i :: 0 <= i < |users| && users[i] == r.value
                          && forall j :: 0 <= j < i ==> users[j].username != username
    ensures r.None? <==> !UsernameTaken(users, username)
  {
    if users == [] then None
    else if users[0].username == username then Some(users[0])
    else
      var r := FindUser(users[1..], username);
      assert UsernameTaken(users[1..], username) ==> UsernameTaken(users, username);
      assert r.Some? ==> exists i :: 0 <= i < |users| && users[i] == r.value
                           && forall j :: 0 <= j < i ==> users[j].username != username by {
        if r.Some? {
          var k :| 0 <= k < |users[1..]| && users[1..][k] == r.value
                   && forall j :: 0 <= j < k ==> users[1..][j].username != username;
          assert users[k + 1] == r.value;
          assert forall j :: 0 <= j < k + 1 ==> users[j].username != username by {
            forall j | 0 <= j < k + 1 ensures users[j].username != username {
              if j > 0 { assert users[j] == users[1..][j - 1]; }
            }
          }
        }
      }
      r
  }

  /** getUserId: the id of the user with that name, or NO_USER. */
  function UserIdOf(users: seq<UserRow>, username: string): (id: int)
    ensures UsernameTaken(users, username) ==>
      exists i :: 0 <= i < |users| && users[i].username == username && users[i].id == id
    ensures !UsernameTaken(users, username) ==> id == NO_USER
  {
    match FindUser(users, username)
    case None => NO_USER
    case Some(row) => row.id
  }

  /** Registration appends a row that keeps both constraints, and afterwards
      the new name validates with the stored hash and maps to the new id. */
  lemma {:induction false} RegisterAddsUser(users: seq<UserRow>, nextId: int, username: string, passwordHash: string)
    requires UsersValid(users, nextId) && !UsernameTaken(users, username)
    ensures var after := users + [UserRow(nextId, username, passwordHash)];
      && UsersValid(after, nextId + 1)
      && CredentialsMatch(after, username, passwordHash)
      && UserIdOf(after, username) == nextId
  {
    var after := users + [UserRow(nextId, username, passwordHash)];
    assert after[|users|].username == username;
    assert forall i :: 0 <= i < |users| ==> after[i] == users[i];
    assert UsernameTaken(after, username);
  }

  /** Registering one name changes neither the logins nor the ids of others. */
  lemma {:induction false} RegisterKeepsOtherUsers(users: seq<UserRow>, row: UserRow, username: string, passwordHash: string)
    requires row.username != username
    ensures CredentialsMatch(users + [row], username, passwordHash) <==> CredentialsMatch(users, username, passwordHash)
    ensures UserIdOf(users + [row], username) == UserIdOf(users, username)
  {
    assert forall i :: 0 <= i < |users| ==> (users + [row])[i] == users[i];
    if users != [] {
      assert (users + [row])[1..] == users[1..] + [row];
      RegisterKeepsOtherUsers(users[1..], row, username, passwordHash);
    }
  }

  /** On a valid table, getUserId answers NO_USER exactly for unknown names. */
  lemma UnknownUserHasNoId(users: seq<UserRow>, nextId: int, username: string)
    requires UsersValid(users, nextId)
    ensures UserIdOf(users, username) == NO_USER <==> !UsernameTaken(users, username)
    ensures UserIdOf(users, username) != NO_USER ==> 1 <= UserIdOf(users, username) < nextId
  {
  }

  // ===========================================================================
  // students: normalisation of the optional columns
  // ===========================================================================

  /** nullIfEmpty: a blank optional field is stored as NULL. */
  function NullIfEmpty(value: string): (r: Option<string>)
    ensures r.None? <==> AllTrimSpace(value)
    ensures r.Some? ==> r.value == value
  {
    if IsBlank(value) then None else Some(value)
  }

  /** emptyIfNull (and `COALESCE(column, '')`): NULL reads back as "". */
  function EmptyIfNull(value: Option<string>): (r: string)
    ensures value.None? ==> r == ""
    ensures value.Some? ==> r == value.value
  {
    match value
    case None => ""
    case Some(v) => v
  }

  /** Writing a field and reading it back gives "" for a blank or
      whitespace-only field and the field itself otherwise. */
  lemma NormalisationRoundTrip(value: string)
    ensures EmptyIfNull(NullIfEmpty(value)) == if AllTrimSpace(value) then "" else value
  {
  }

  /** An optional column as stored for a field: NULL when the field is blank,
      the field itself otherwise. */
  predicate StoredAs(field: string, column: Option<string>) {
    column == if AllTrimSpace(field) then None else Some(field)
  }

  /** Every optional column that is not NULL holds non-blank text. */
  predicate NoBlankColumns(r: StudentRow) {
    && (r.faculty.Some? ==> !AllTrimSpace(r.faculty.value))
    && (r.department.Some? ==> !AllTrimSpace(r.department.value))
    && (r.group.Some? ==> !AllTrimSpace(r.group.value))
  }

  /** The columns `INSERT INTO students(...)` binds for a student: the key is
      (student id, owner), name and surname as given, blank optional fields as
      NULL. */
  function ToRow(s: Student, userId: int): (r: StudentRow)
    ensures r.studentId == s.id && r.userId == userId
    ensures r.name == s.name && r.surname == s.surname
    ensures StoredAs(s.faculty, r.faculty) && StoredAs(s.department, r.department)
    ensures StoredAs(s.group, r.group)
    ensures NoBlankColumns(r)
  {
    StudentRow(s.id, s.name, s.surname, NullIfEmpty(s.faculty), NullIfEmpty(s.department),
               NullIfEmpty(s.group), userId)
  }

  /** The Student built from one result-set row. A row whose optional
      columns are NULL or non-blank is exactly what storing that student
      writes. */
  function ToStudent(r: StudentRow): (s: Student)
    ensures s.id == r.studentId && s.name == r.name && s.surname == r.surname
    ensures NoBlankColumns(r) ==> ToRow(s, r.userId) == r
  {
    Student(r.studentId, r.name, r.surname, EmptyIfNull(r.faculty), EmptyIfNull(r.department),
            EmptyIfNull(r.group))
  }

  /** A student read back after being stored is the same student except that
      blank optional fields come back as "". */
  lemma StoredStudentReadsBack(s: Student, userId: int)
    ensures var back := ToStudent(ToRow(s, userId));
      && back.id == s.id && back.name == s.name && back.surname == s.surname
      && back.faculty == (if AllTrimSpace(s.faculty) then "" else s.faculty)
      && back.department == (if AllTrimSpace(s.department) then "" else s.department)
      && back.group == (if AllTrimSpace(s.group) then "" else s.group)
  {
  }

  /** The Students a result set is read as, in result order. */
  function ReadAll(rows: seq<StudentRow>): (list: seq<Student>)
    ensures |list| == |rows|
    ensures forall i :: 0 <= i < |rows| ==> list[i] == ToStudent(rows[i])
    ensures forall s :: s in list <==> exists r :: r in rows && ToStudent(r) == s
  {
    seq(|rows|, i requires 0 <= i < |rows| => ToStudent(rows[i]))
  }

  // ===========================================================================
  // students: the key (student_id, user_id)
  // ===========================================================================

  /** `WHERE student_id = ? AND user_id = ?`. */
  predicate HasKey(r: StudentRow, studentId: int, userId: int) {
    r.studentId == studentId && r.userId == userId
  }

  predicate KeyIn(rows: seq<StudentRow>, studentId: int, userId: int) {
    exists i :: 0 <= i < |rows| && HasKey(rows[i], studentId, userId)
  }

  /** `UNIQUE(student_id, user_id)`. */
  ghost predicate KeysUnique(rows: seq<StudentRow>) {
    forall i, j :: 0 <= i < j < |rows| ==> !HasKey(rows[j], rows[i].studentId, rows[i].userId)
  }

  /** `SELECT COUNT(*) ... WHERE student_id = ? AND user_id = ?`, which is also
      the number of rows an UPDATE or DELETE with that WHERE clause affects. */
  function CountKey(rows: seq<StudentRow>, studentId: int, userId: int): (n: nat)
    ensures n <= |rows|
    ensures n > 0 <==> KeyIn(rows, studentId, userId)
  {
    if rows == [] then 0
    else
      var init := rows[..|rows| - 1];
      assert forall i :: 0 <= i < |init| ==> init[i] == rows[i];
      CountKey(init, studentId, userId) + if HasKey(rows[|rows| - 1], studentId, userId) then 1 else 0
  }

  /** Under the UNIQUE constraint a key statement affects at most one row. */
  lemma {:induction false} CountKeyAtMostOne(rows: seq<StudentRow>, studentId: int, userId: int)
    requires KeysUnique(rows)
    ensures CountKey(rows, studentId, userId) <= 1
  {
    if rows != [] {
      var init := rows[..|rows| - 1];
      assert KeysUnique(init);
      CountKeyAtMostOne(init, studentId, userId);
      if HasKey(rows[|rows| - 1], studentId, userId) {
        assert !KeyIn(init, studentId, userId);
      }
    }
  }

  /** An insert whose key is absent keeps the constraint. */
  lemma InsertKeepsKeysUnique(rows: seq<StudentRow>, r: StudentRow)
    requires KeysUnique(rows) && !KeyIn(rows, r.studentId, r.userId)
    ensures KeysUnique(rows + [r])
  {
  }

  /** A key found among some of a table's rows is found in the table. */
  lemma KeyInSubset(a: seq<StudentRow>, b: seq<StudentRow>, studentId: int, userId: int)
    requires forall x :: x in a ==> x in b
    ensures KeyIn(a, studentId, userId) ==> KeyIn(b, studentId, userId)
  {
    if KeyIn(a, studentId, userId) {
      var i :| 0 <= i < |a| && HasKey(a[i], studentId, userId);
      assert a[i] in b;
    }
  }

  // ===========================================================================
  // SELECT ... WHERE user_id = ?
  // ===========================================================================

  function SelectOwner(rows: seq<StudentRow>, userId: int): (res: seq<StudentRow>)
    ensures forall r :: r in res <==> r in rows && r.userId == userId
    ensures KeysUnique(rows) ==> KeysUnique(res)
  {
    if rows == [] then []
    else
      var init := rows[..|rows| - 1];
      var last := rows[|rows| - 1];
      var sel := SelectOwner(init, userId);
      assert rows == init + [last];
      assert KeysUnique(rows) ==> KeysUnique(init) && !KeyIn(init, last.studentId, last.userId);
      KeyInSubset(sel, init, last.studentId, last.userId);
      if last.userId == userId then sel + [last] else sel
  }

  lemma SelectOwnerAppend(rows: seq<StudentRow>, r: StudentRow, userId: int)
    ensures SelectOwner(rows + [r], userId) == SelectOwner(rows, userId) + if r.userId == userId then [r] else []
  {
    assert (rows + [r])[..|rows|] == rows;
  }

  /** Two tables that agree on every row either of them gives the owner have
      the same rows for that owner. */
  lemma {:induction false} SelectOwnerAgree(a: seq<StudentRow>, b: seq<StudentRow>, userId: int)
    requires |a| == |b|
    requires forall i :: 0 <= i < |a| && (a[i].userId == userId || b[i].userId == userId) ==> a[i] == b[i]
    ensures SelectOwner(a, userId) == SelectOwner(b, userId)
  {
    if a != [] {
      var initA, initB := a[..|a| - 1], b[..|b| - 1];
      var lastA, lastB := a[|a| - 1], b[|b| - 1];
      assert forall i :: (0 <= i < |initA| && (initA[i].userId == userId || initB[i].userId == userId)
        ==> initA[i] == initB[i]) by {
        forall i | 0 <= i < |initA| ensures initA[i] == a[i] && initB[i] == b[i] { }
      }
      SelectOwnerAgree(initA, initB, userId);
      assert lastA.userId == userId || lastB.userId == userId ==> lastA == lastB;
    }
  }

  /** Inserting a row for one owner leaves every other owner's rows alone. */
  lemma InsertIsolatesOwners(rows: seq<StudentRow>, r: StudentRow, other: int)
    requires r.userId != other
    ensures SelectOwner(rows + [r], other) == SelectOwner(rows, other)
  {
    SelectOwnerAppend(rows, r, other);
  }

  // ===========================================================================
  // DELETE FROM students WHERE student_id = ? AND user_id = ?
  // ===========================================================================

  function DeleteKey(rows: seq<StudentRow>, studentId: int, userId: int): (res: seq<StudentRow>)
    ensures forall r :: r in res <==> r in rows && !HasKey(r, studentId, userId)
    ensures |res| == |rows| - CountKey(rows, studentId, userId)
    ensures !KeyIn(rows, studentId, userId) ==> res == rows
  {
    if rows == [] then []
    else
      var init := rows[..|rows| - 1];
      var last := rows[|rows| - 1];
      var kept := DeleteKey(init, studentId, userId);
      assert rows == init + [last];
      if HasKey(last, studentId, userId) then kept else kept + [last]
  }

  /** A delete keeps the UNIQUE constraint. */
  lemma {:induction false} DeleteKeepsKeysUnique(rows: seq<StudentRow>, studentId: int, userId: int)
    requires KeysUnique(rows)
    ensures KeysUnique(DeleteKey(rows, studentId, userId))
  {
    if rows != [] {
      var init := rows[..|rows| - 1];
      var last := rows[|rows| - 1];
      assert rows == init + [last];
      assert KeysUnique(init) && !KeyIn(init, last.studentId, last.userId);
      DeleteKeepsKeysUnique(init, studentId, userId);
      KeyInSubset(DeleteKey(init, studentId, userId), init, last.studentId, last.userId);
    }
  }

  /** A delete for one owner leaves every other owner's rows alone, even rows
      with the same student id. */
  lemma {:induction false} DeleteIsolatesOwners(rows: seq<StudentRow>, studentId: int, userId: int, other: int)
    requires other != userId
    ensures SelectOwner(DeleteKey(rows, studentId, userId), other) == SelectOwner(rows, other)
  {
    if rows != [] {
      var init := rows[..|rows| - 1];
      var last := rows[|rows| - 1];
      assert rows == init + [last];
      DeleteIsolatesOwners(init, studentId, userId, other);
      SelectOwnerAppend(init, last, other);
      if !HasKey(last, studentId, userId) {
        SelectOwnerAppend(DeleteKey(init, studentId, userId), last, other);
      }
    }
  }

  // ===========================================================================
  // UPDATE students SET name, surname, faculty, department, student_group
  //   WHERE student_id = ? AND user_id = ?
  // ===========================================================================

  /** The SET list: the five non-key columns, and nothing else. Applied to the
      row with the student's key it gives the row an insert would write. */
  function Rewrite(r: StudentRow, s: Student): (res: StudentRow)
    ensures res.studentId == r.studentId && res.userId == r.userId
    ensures r.studentId == s.id ==> res == ToRow(s, r.userId)
  {
    r.(name := s.name, surname := s.surname, faculty := NullIfEmpty(s.faculty),
       department := NullIfEmpty(s.department), group := NullIfEmpty(s.group))
  }

  function UpdateKey(rows: seq<StudentRow>, s: Student, userId: int): (res: seq<StudentRow>)
    ensures |res| == |rows|
    ensures forall i :: 0 <= i < |rows| ==>
      res[i].studentId == rows[i].studentId && res[i].userId == rows[i].userId
    ensures forall i :: 0 <= i < |rows| ==>
      res[i] == if HasKey(rows[i], s.id, userId) then ToRow(s, userId) else rows[i]
    ensures KeysUnique(rows) ==> KeysUnique(res)
    ensures !KeyIn(rows, s.id, userId) ==> res == rows
  {
    seq(|rows|, i requires 0 <= i < |rows| => if HasKey(rows[i], s.id, userId) then Rewrite(rows[i], s) else rows[i])
  }

  /** An update for one owner leaves every other owner's rows alone. */
  lemma UpdateIsolatesOwners(rows: seq<StudentRow>, s: Student, userId: int, other: int)
    requires other != userId
    ensures SelectOwner(UpdateKey(rows, s, userId), other) == SelectOwner(rows, other)
  {
    SelectOwnerAgree(UpdateKey(rows, s, userId), rows, other);
  }

  // ===========================================================================
  // Non-empty names
  // ===========================================================================

  /** Every row has a name and a surname. The columns are NOT NULL but accept
      "", so only the callers' validation keeps this. */
  ghost predicate NamesPresent(rows: seq<StudentRow>) {
    forall r :: r in rows ==> r.name != [] && r.surname != []
  }

  /** Inserting a student with a name and a surname keeps every name present. */
  lemma InsertKeepsNamesPresent(rows: seq<StudentRow>, s: Student, userId: int)
    requires NamesPresent(rows) && s.name != [] && s.surname != []
    ensures NamesPresent(rows + [ToRow(s, userId)])
  {
  }

  /** A delete keeps every name present. */
  lemma DeleteKeepsNamesPresent(rows: seq<StudentRow>, studentId: int, userId: int)
    requires NamesPresent(rows)
    ensures NamesPresent(DeleteKey(rows, studentId, userId))
  {
  }

  /** Updating with a student that has a name and a surname keeps every name
      present. */
  lemma UpdateKeepsNamesPresent(rows: seq<StudentRow>, s: Student, userId: int)
    requires NamesPresent(rows) && s.name != [] && s.surname != []
    ensures NamesPresent(UpdateKey(rows, s, userId))
  {
    var res := UpdateKey(rows, s, userId);
    forall r | r in res
      ensures r.name != [] && r.surname != []
    {
      var i :| 0 <= i < |res| && res[i] == r;
      assert rows[i] in rows;
    }
  }

  // ===========================================================================
  // ORDER BY student_id
  // ===========================================================================

  ghost predicate SortedById(rows: seq<StudentRow>) {
    forall i, j :: 0 <= i < j < |rows| ==> rows[i].studentId <= rows[j].studentId
  }

  /** One step of the sort: `r` goes before the first row with a larger or
      equal id. */
  function InsertById(r: StudentRow, rows: seq<StudentRow>): (res: seq<StudentRow>)
    ensures |res| == |rows| + 1
    ensures multiset(res) == multiset(rows) + multiset{r}
    ensures forall x :: x in res <==> x in rows || x == r
  {
    if rows == [] || r.studentId <= rows[0].studentId then [r] + rows
    else
      var rest := InsertById(r, rows[1..]);
      assert rows == [rows[0]] + rows[1..];
      assert forall x :: x in [rows[0]] + rest <==> x == rows[0] || x in rest;
      [rows[0]] + rest
  }

  /** Inserting into a sorted list keeps it sorted. */
  lemma {:induction false} InsertByIdSorted(r: StudentRow, rows: seq<StudentRow>)
    requires SortedById(rows)
    ensures SortedById(InsertById(r, rows))
  {
    if !(rows == [] || r.studentId <= rows[0].studentId) {
      var tail := rows[1..];
      assert SortedById(tail);
      InsertByIdSorted(r, tail);
      var rest := InsertById(r, tail);
      var res := [rows[0]] + rest;
      assert res == InsertById(r, rows);
      forall j | 0 < j < |res|
        ensures rows[0].studentId <= res[j].studentId
      {
        assert res[j] == rest[j - 1] && res[j] in rest;
        if res[j] != r {
          var k :| 0 <= k < |tail| && tail[k] == res[j];
          assert rows[k + 1] == res[j];
        }
      }
      forall i, j | 0 <= i < j < |res|
        ensures res[i].studentId <= res[j].studentId
      {
        if i > 0 {
          assert res[i] == rest[i - 1] && res[j] == rest[j - 1];
        }
      }
    }
  }

  /** The engine's sort: a sorted permutation of the rows. */
  function OrderById(rows: seq<StudentRow>): (res: seq<StudentRow>)
    ensures |res| == |rows|
    ensures multiset(res) == multiset(rows)
    ensures forall x :: x in res <==> x in rows
    ensures SortedById(res)
  {
    if rows == [] then []
    else
      assert rows == [rows[0]] + rows[1..];
      var rest := OrderById(rows[1..]);
      InsertByIdSorted(rows[0], rest);
      InsertById(rows[0], rest)
  }

  lemma {:induction false} InsertByIdKeepsKeysUnique(r: StudentRow, rows: seq<StudentRow>)
    requires KeysUnique(rows) && !KeyIn(rows, r.studentId, r.userId)
    ensures KeysUnique(InsertById(r, rows))
  {
    if !(rows == [] || r.studentId <= rows[0].studentId) {
      assert KeysUnique(rows[1..]);
      InsertByIdKeepsKeysUnique(r, rows[1..]);
      var rest := InsertById(r, rows[1..]);
      var res := [rows[0]] + rest;
      assert res == InsertById(r, rows);
      forall i, j | 0 <= i < j < |res|
        ensures !HasKey(res[j], res[i].studentId, res[i].userId)
      {
        if i == 0 {
          var x := res[j];
          assert x == rest[j - 1] && x in rest;
          if x != r {
            var k :| 0 <= k < |rows[1..]| && rows[1..][k] == x;
            assert rows[k + 1] == x;
          }
        } else {
          assert res[i] == rest[i - 1] && res[j] == rest[j - 1];
        }
      }
    }
  }

  lemma {:induction false} OrderByIdKeepsKeysUnique(rows: seq<StudentRow>)
    requires KeysUnique(rows)
    ensures KeysUnique(OrderById(rows))
  {
    if rows != [] {
      var rest := OrderById(rows[1..]);
      assert KeysUnique(rows[1..]);
      OrderByIdKeepsKeysUnique(rows[1..]);
      assert !KeyIn(rows[1..], rows[0].studentId, rows[0].userId);
      KeyInSubset(rest, rows[1..], rows[0].studentId, rows[0].userId);
      InsertByIdKeepsKeysUnique(rows[0], rest);
    }
  }

  /** Rows of one owner with distinct keys, sorted by id, have strictly
      ascending ids. */
  lemma OneOwnerSortedIsStrict(rows: seq<StudentRow>, userId: int)
    requires KeysUnique(rows) && SortedById(rows)
    requires forall r :: r in rows ==> r.userId == userId
    ensures forall i, j :: 0 <= i < j < |rows| ==> rows[i].studentId < rows[j].studentId
  {
    forall i, j | 0 <= i < j < |rows|
      ensures rows[i].studentId < rows[j].studentId
    {
      assert rows[i] in rows && rows[j] in rows;
    }
  }

  // ===========================================================================
  // getAllStudentsForUser: WHERE user_id = ? ORDER BY student_id
  // ===========================================================================

  function Listing(rows: seq<StudentRow>, userId: int): (res: seq<StudentRow>)
    ensures forall r :: r in res <==> r in rows && r.userId == userId
    ensures SortedById(res)
  {
    OrderById(SelectOwner(rows, userId))
  }

  /** The listing holds exactly the owner's rows, in strictly ascending
      student id order. */
  lemma ListingIsOwnedAndAscending(rows: seq<StudentRow>, userId: int)
    requires KeysUnique(rows)
    ensures var res := Listing(rows, userId);
      && (forall r :: r in res <==> r in rows && r.userId == userId)
      && (forall i, j :: 0 <= i < j < |res| ==> res[i].studentId < res[j].studentId)
  {
    var sel := SelectOwner(rows, userId);
    OrderByIdKeepsKeysUnique(sel);
    OneOwnerSortedIsStrict(OrderById(sel), userId);
  }

  // ===========================================================================
  // searchStudentsForUser
  // ===========================================================================

  /** `"%" + text.toLowerCase() + "%"`: the lower-cased text between two `%`,
      which are its only wildcards when the text has none. */
  function SearchPattern(text: string): (p: string)
    ensures |p| == |text| + 2 && p[0] == '%' && p[|p| - 1] == '%'
    ensures forall i :: 0 <= i < |text| ==> p[i + 1] == LowerChar(text[i])
    ensures NoWildcards(text) ==> NoWildcards(p[1..|p| - 1])
  {
    "%" + Lower(text) + "%"
  }

  /** The WHERE clause's six LIKE tests on lower-cased columns; the pattern
      of an empty text matches every row. */
  predicate RowMatches(r: StudentRow, pattern: string)
    ensures pattern == "%%" ==> RowMatches(r, pattern)
  {
    EmptySearchMatchesAll(Lower(IntToText(r.studentId)));
    || Like(Lower(IntToText(r.studentId)), pattern)
    || Like(Lower(r.name), pattern)
    || Like(Lower(r.surname), pattern)
    || Like(Lower(EmptyIfNull(r.faculty)), pattern)
    || Like(Lower(EmptyIfNull(r.department)), pattern)
    || Like(Lower(EmptyIfNull(r.group)), pattern)
  }

  function SelectMatching(rows: seq<StudentRow>, userId: int, pattern: string): (res: seq<StudentRow>)
    ensures forall r :: r in res <==> r in rows && r.userId == userId && RowMatches(r, pattern)
  {
    if rows == [] then []
    else
      var init := rows[..|rows| - 1];
      var last := rows[|rows| - 1];
      assert rows == init + [last];
      var sel := SelectMatching(init, userId, pattern);
      if last.userId == userId && RowMatches(last, pattern) then sel + [last] else sel
  }

  /** The search keeps the UNIQUE constraint of the rows it selects from. */
  lemma {:induction false} SelectMatchingKeepsKeysUnique(rows: seq<StudentRow>, userId: int, pattern: string)
    requires KeysUnique(rows)
    ensures KeysUnique(SelectMatching(rows, userId, pattern))
  {
    if rows != [] {
      var init := rows[..|rows| - 1];
      var last := rows[|rows| - 1];
      assert rows == init + [last];
      assert KeysUnique(init) && !KeyIn(init, last.studentId, last.userId);
      SelectMatchingKeepsKeysUnique(init, userId, pattern);
      var sel := SelectMatching(init, userId, pattern);
      KeyInSubset(sel, init, last.studentId, last.userId);
      if last.userId == userId && RowMatches(last, pattern) {
        var res := sel + [last];
        forall i, j | 0 <= i < j < |res|
          ensures !HasKey(res[j], res[i].studentId, res[i].userId)
        {
          if j == |sel| {
            assert !HasKey(sel[i], last.studentId, last.userId);
          } else {
            assert res[i] == sel[i] && res[j] == sel[j];
          }
        }
      }
    }
  }

  /** The rows searchStudentsForUser returns, in result order: the owner's
      rows that match the pattern of the text, sorted by student id. */
  function SearchResult(rows: seq<StudentRow>, text: string, userId: int): (res: seq<StudentRow>)
    ensures forall r :: r in res <==> r in rows && r.userId == userId && RowMatches(r, SearchPattern(text))
    ensures SortedById(res)
  {
    OrderById(SelectMatching(rows, userId, SearchPattern(text)))
  }

  /** `field.toLowerCase().contains(text.toLowerCase())`. */
  ghost predicate ContainsIgnoringCase(field: string, text: string) {
    IsSubstring(Lower(text), Lower(field))
  }

  /** The intended search: the text occurs, ignoring case, in the id's decimal
      text, the name, the surname or an optional field read as "" when NULL. */
  ghost predicate MatchesText(r: StudentRow, text: string) {
    || ContainsIgnoringCase(IntToText(r.studentId), text)
    || ContainsIgnoringCase(r.name, text)
    || ContainsIgnoringCase(r.surname, text)
    || ContainsIgnoringCase(EmptyIfNull(r.faculty), text)
    || ContainsIgnoringCase(EmptyIfNull(r.department), text)
    || ContainsIgnoringCase(EmptyIfNull(r.group), text)
  }

  lemma FieldLikeIsContains(field: string, text: string)
    requires NoWildcards(text)
    ensures Like(Lower(field), SearchPattern(text)) <==> ContainsIgnoringCase(field, text)
  {
    LowerKeepsNoWildcards(text);
    LowerIsLower(text);
    LowerIsLower(field);
    LikeInfix(Lower(field), Lower(text));
  }

  /** For text without LIKE wildcards the WHERE clause is the case-folded
      substring test over the six fields. */
  lemma RowMatchesIsSubstring(r: StudentRow, text: string)
    requires NoWildcards(text)
    ensures RowMatches(r, SearchPattern(text)) <==> MatchesText(r, text)
  {
    FieldLikeIsContains(IntToText(r.studentId), text);
    FieldLikeIsContains(r.name, text);
    FieldLikeIsContains(r.surname, text);
    FieldLikeIsContains(EmptyIfNull(r.faculty), text);
    FieldLikeIsContains(EmptyIfNull(r.department), text);
    FieldLikeIsContains(EmptyIfNull(r.group), text);
  }

  /** A search holds exactly the owner's rows that contain the text, in
      strictly ascending student id order. */
  lemma SearchIsOwnedMatchingAscending(rows: seq<StudentRow>, text: string, userId: int)
    requires KeysUnique(rows) && NoWildcards(text)
    ensures var res := SearchResult(rows, text, userId);
      && (forall r :: r in res <==> r in rows && r.userId == userId && MatchesText(r, text))
      && (forall i, j :: 0 <= i < j < |res| ==> res[i].studentId < res[j].studentId)
  {
    var sel := SelectMatching(rows, userId, SearchPattern(text));
    forall r | r in rows
      ensures RowMatches(r, SearchPattern(text)) <==> MatchesText(r, text)
    {
      RowMatchesIsSubstring(r, text);
    }
    SelectMatchingKeepsKeysUnique(rows, userId, SearchPattern(text));
    OrderByIdKeepsKeysUnique(sel);
    OneOwnerSortedIsStrict(OrderById(sel), userId);
  }

  /** When a pattern matches every row, searching with it lists the owner's rows. */
  lemma {:induction false} SelectMatchingEverything(rows: seq<StudentRow>, userId: int, pattern: string)
    requires forall i :: 0 <= i < |rows| ==> RowMatches(rows[i], pattern)
    ensures SelectMatching(rows, userId, pattern) == SelectOwner(rows, userId)
  {
    if rows != [] {
      SelectMatchingEverything(rows[..|rows| - 1], userId, pattern);
    }
  }

  /** The store itself accepts an empty search text, which lists every row of
      the owner. */
  lemma EmptySearchListsAll(rows: seq<StudentRow>, userId: int)
    ensures SearchResult(rows, "", userId) == Listing(rows, userId)
  {
    assert SearchPattern("") == "%%";
    forall i | 0 <= i < |rows|
      ensures RowMatches(rows[i], "%%")
    {
      EmptySearchMatchesAll(Lower(IntToText(rows[i].studentId)));
    }
    SelectMatchingEverything(rows, userId, "%%");
  }

  /** The search text is not escaped: searching for "_" lists every row of
      the owner, although no field need contain an underscore. */
  lemma UnderscoreSearchListsAll(rows: seq<StudentRow>, userId: int)
    ensures SearchResult(rows, "_", userId) == Listing(rows, userId)
  {
    assert SearchPattern("_") == "%_%";
    forall i | 0 <= i < |rows|
      ensures RowMatches(rows[i], "%_%")
    {
      UnderscoreMatchesAnyText(Lower(IntToText(rows[i].studentId)));
    }
    SelectMatchingEverything(rows, userId, "%_%");
  }

  // ===========================================================================
  // What the owner sees after each write
  // ===========================================================================

  /** After a successful add the new student is in the owner's listing. */
  lemma AddedStudentIsListed(rows: seq<StudentRow>, s: Student, userId: int)
    ensures ToStudent(ToRow(s, userId)) in ReadAll(Listing(rows + [ToRow(s, userId)], userId))
  {
    var row := ToRow(s, userId);
    SelectOwnerAppend(rows, row, userId);
    assert row in SelectOwner(rows + [row], userId);
    assert row in Listing(rows + [row], userId);
  }

  /** After an update that matched, the owner's listing shows the new values
      under that id and no other version of the row. */
  lemma UpdatedStudentIsListed(rows: seq<StudentRow>, s: Student, userId: int)
    requires KeyIn(rows, s.id, userId)
    ensures var list := ReadAll(Listing(UpdateKey(rows, s, userId), userId));
      && ToStudent(ToRow(s, userId)) in list
      && forall x :: x in list && x.id == s.id ==> x == ToStudent(ToRow(s, userId))
  {
    var after := UpdateKey(rows, s, userId);
    var i :| 0 <= i < |rows| && HasKey(rows[i], s.id, userId);
    assert after[i] == ToRow(s, userId) && after[i] in after;
    assert ToRow(s, userId) in Listing(after, userId);
  }

  /** After a delete the owner's listing no longer has that student id. */
  lemma DeletedStudentIsGone(rows: seq<StudentRow>, studentId: int, userId: int)
    ensures forall x :: x in ReadAll(Listing(DeleteKey(rows, studentId, userId), userId)) ==> x.id != studentId
  {
  }
}
