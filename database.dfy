/**
 * The database class: one method per JDBC wrapper. The two tables are fields
 * that the write methods reassign; each method's effect is the effect of its
 * SQL statements, as defined on rows in module Tables. Most methods issue one
 * statement; addStudentForUser issues a COUNT(*) query and then the INSERT.
 */
module Storage {
  import opened Wrappers
  import opened SqlLike
  import opened Models
  import opened Tables

  /** The domain failure addStudentForUser reports ("Student with ID ... already exists"). */
  datatype StoreError = DuplicateStudentId(studentId: int)

  class Database {
    /** hashPassword (SHA-256, then Base64), taken as given. */
    const hash: string -> string
    var users: seq<UserRow>
    /** The next AUTOINCREMENT value of users.id. */
    var nextUserId: int
    var students: seq<StudentRow>

    /** The table constraints of createTables. */
    ghost predicate Valid()
      reads this
    {
      UsersValid(users, nextUserId) && KeysUnique(students)
    }

    /** A fresh database file after createTables: both tables exist and are empty. */
    constructor (hash: string -> string)
      ensures Valid() && this.hash == hash
      ensures users == [] && students == [] && nextUserId == 1
    {
      this.hash := hash;
      users := [];
      nextUserId := 1;
      students := [];
    }

    /** registerUser: INSERT INTO users; a name that is taken fails the UNIQUE
        constraint, which is reported as false. */
    method RegisterUser(username: string, password: string) returns (ok: bool)
      requires Valid()
      modifies this
      ensures Valid() && students == old(students)
      ensures ok <==> !UsernameTaken(old(users), username)
      ensures ok ==> users == old(users) + [UserRow(old(nextUserId), username, hash(password))]
                     && nextUserId == old(nextUserId) + 1
                     && CredentialsMatch(users, username, hash(password))
                     && UserIdOf(users, username) == old(nextUserId)
      ensures !ok ==> users == old(users) && nextUserId == old(nextUserId)
    {
      if UsernameTaken(users, username) {
        return false;
      }
      RegisterAddsUser(users, nextUserId, username, hash(password));
      users := users + [UserRow(nextUserId, username, hash(password))];
      nextUserId := nextUserId + 1;
      ok := true;
    }

    /** validateUser: some row has the name and the hash of the password. */
    method ValidateUser(username: string, password: string) returns (ok: bool)
      ensures ok <==> exists i :: 0 <= i < |users| && users[i].username == username
                                  && users[i].password == hash(password)
    {
      ok := CredentialsMatch(users, username, hash(password));
    }

    /** getUserId: the id of the row with the name, or -1 when there is none. */
    method GetUserId(username: string) returns (id: int)
      requires Valid()
      ensures id == UserIdOf(users, username)
      ensures id == NO_USER <==> !UsernameTaken(users, username)
      ensures id != NO_USER ==>
        1 <= id && exists i :: 0 <= i < |users| && users[i].username == username && users[i].id == id
    {
      UnknownUserHasNoId(users, nextUserId, username);
      id := UserIdOf(users, username);
    }

    /** studentIdExists: the owner already has a row with this student id. */
    method StudentIdExists(studentId: int, userId: int) returns (found: bool)
      ensures found <==> exists i :: 0 <= i < |students| && students[i].studentId == studentId
                                     && students[i].userId == userId
    {
      found := CountKey(students, studentId, userId) > 0;
    }

    /** addStudentForUser: refuses an id the owner already has, else inserts
        one row with blank optional fields stored as NULL. */
    method AddStudentForUser(student: Student, userId: int) returns (r: Outcome<StoreError>)
      requires Valid()
      modifies this
      ensures Valid() && users == old(users) && nextUserId == old(nextUserId)
      ensures KeyIn(old(students), student.id, userId) ==>
        r == Fail(DuplicateStudentId(student.id)) && students == old(students)
      ensures !KeyIn(old(students), student.id, userId) ==>
        r == Pass && students == old(students) + [ToRow(student, userId)]
    {
      var taken := StudentIdExists(student.id, userId);
      if taken {
        return Fail(DuplicateStudentId(student.id));
      }
      InsertKeepsKeysUnique(students, ToRow(student, userId));
      students := students + [ToRow(student, userId)];
      r := Pass;
    }

    /** The `while (rs.next()) list.add(new Student(...))` loop shared by the
        two queries. */
    static method ReadStudents(rs: seq<StudentRow>) returns (list: seq<Student>)
      ensures list == ReadAll(rs)
    {
      list := [];
      var i := 0;
      while i < |rs|
        invariant 0 <= i <= |rs|
        invariant list == ReadAll(rs[..i])
      {
        assert ReadAll(rs[..i + 1]) == ReadAll(rs[..i]) + [ToStudent(rs[i])];
        list := list + [ToStudent(rs[i])];
        i := i + 1;
      }
      assert rs[..i] == rs;
    }

    /** getAllStudentsForUser: the owner's students, ascending by id. */
    method GetAllStudentsForUser(userId: int) returns (list: seq<Student>)
      requires Valid()
      ensures list == ReadAll(Listing(students, userId))
      ensures forall s :: s in list <==> exists r :: r in students && r.userId == userId && ToStudent(r) == s
      ensures forall i, j :: 0 <= i < j < |list| ==> list[i].id < list[j].id
    {
      ListingIsOwnedAndAscending(students, userId);
      list := ReadStudents(Listing(students, userId));
    }

    /** deleteStudentForUser: removes the row with both keys and reports how
        many rows went (0 or 1). */
    method DeleteStudentForUser(studentId: int, userId: int) returns (count: nat)
      requires Valid()
      modifies this
      ensures Valid() && users == old(users) && nextUserId == old(nextUserId)
      ensures students == DeleteKey(old(students), studentId, userId)
      ensures count == CountKey(old(students), studentId, userId) && count <= 1
      ensures count == 0 <==> students == old(students)
    {
      count := CountKey(students, studentId, userId);
      CountKeyAtMostOne(students, studentId, userId);
      DeleteKeepsKeysUnique(students, studentId, userId);
      students := DeleteKey(students, studentId, userId);
    }

    /** updateStudentForUser: rewrites the five non-key columns of the row
        with both keys; no row, no change (there is no upsert). */
    method UpdateStudentForUser(student: Student, userId: int) returns (count: nat)
      requires Valid()
      modifies this
      ensures Valid() && users == old(users) && nextUserId == old(nextUserId)
      ensures students == UpdateKey(old(students), student, userId)
      ensures count == CountKey(old(students), student.id, userId) && count <= 1
      ensures count == 0 ==> students == old(students)
    {
      count := CountKey(students, student.id, userId);
      CountKeyAtMostOne(students, student.id, userId);
      students := UpdateKey(students, student, userId);
    }

    /** searchStudentsForUser: the owner's students matching the LIKE pattern
        built from the text, ascending by id. */
    method SearchStudentsForUser(text: string, userId: int) returns (list: seq<Student>)
      requires Valid()
      ensures list == ReadAll(SearchResult(students, text, userId))
      ensures NoWildcards(text) ==>
        forall s :: s in list <==>
          exists r :: r in students && r.userId == userId && MatchesText(r, text) && ToStudent(r) == s
      ensures NoWildcards(text) ==> forall i, j :: 0 <= i < j < |list| ==> list[i].id < list[j].id
    {
      if NoWildcards(text) {
        SearchIsOwnedMatchingAscending(students, text, userId);
      }
      list := ReadStudents(SearchResult(students, text, userId));
    }
  }
}
