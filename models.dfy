/** The model package: the Student record and the login Session. */
module Models {

  /** A student as the screens and the store exchange it:
      `new Student(id, name, surname, faculty, department, group)`. */
  datatype Student = Student(id: int, name: string, surname: string,
                             faculty: string, department: string, group: string)

  /** The session value that means "nobody is logged in". */
  const LOGGED_OUT: int := -1

  /** The process-wide current user. The source keeps it in one static field;
      here one Session object is shared by every screen. */
  class Session {
    var currentUserId: int

    /** The static initialiser: nobody is logged in. */
    constructor ()
      ensures currentUserId == LOGGED_OUT && !IsLoggedIn()
    {
      currentUserId := LOGGED_OUT;
    }

    /** The id of the logged-in user, or LOGGED_OUT. */
    function GetCurrentUserId(): (id: int)
      reads this
      ensures id == currentUserId
    {
      currentUserId
    }

    method SetCurrentUserId(userId: int)
      modifies this
      ensures GetCurrentUserId() == userId
      ensures IsLoggedIn() <==> userId != LOGGED_OUT
    {
      currentUserId := userId;
    }

    /** Someone is logged in exactly when the id is not LOGGED_OUT. */
    predicate IsLoggedIn()
      reads this
      ensures IsLoggedIn() <==> GetCurrentUserId() != LOGGED_OUT
    {
      currentUserId != LOGGED_OUT
    }

    /** Logging out forgets the user whatever the state was, so a second call
        changes nothing. */
    method Logout()
      modifies this
      ensures GetCurrentUserId() == LOGGED_OUT && !IsLoggedIn()
      ensures old(currentUserId) == LOGGED_OUT ==> unchanged(this)
    {
      currentUserId := LOGGED_OUT;
    }
  }
}
