/**
 * The student screen: the six form fields, the table of students, the
 * current selection and the add/edit mode switch. Alerts are returned as a
 * Feedback value instead of being shown; each handler's effect on the screen
 * and on the database is stated in its postcondition.
 */
module CourseScreen {
  import opened Wrappers
  import opened Text
  import opened Models
  import opened Tables
  import opened Storage

  /** The texts of the six form fields, as typed. */
  datatype Form = Form(studentId: string, name: string, surname: string,
                       faculty: string, department: string, group: string)

  /** Every field cleared. */
  const BlankForm: Form := Form("", "", "", "", "", "")

  /** fillForm: the student's values, the id as its decimal text, which
      Integer.parseInt reads back whenever the id is an int. */
  function FormOf(s: Student): (f: Form)
    ensures ParseInt(f.studentId) == if InInt32(s.id) then Some(s.id) else None
    ensures IsTrimmed(f.studentId)
    ensures f.name == s.name && f.surname == s.surname
    ensures f.faculty == s.faculty && f.department == s.department && f.group == s.group
  {
    ParseIntOfAnyText(s.id);
    Form(IntToText(s.id), s.name, s.surname, s.faculty, s.department, s.group)
  }

  /** The three validation warnings of getFormData. */
  datatype FormError =
    | MissingRequired   // "Student ID, Name and Surname are required fields"
    | NotANumber        // "Student ID must be a valid number"
    | NotPositive       // "Student ID must be a positive number"

  /** The alert (or silent outcome) a handler ends with. */
  datatype Feedback =
    | EditModeActive
    | NoSelection
    | Declined
    | Invalid(error: FormError)
    | DuplicateId
    | IdChangeRefused
    | NotFound
    | Added
    | Deleted
    | Updated
    | EditStarted

  /** The students getFormData can produce: a positive int id, a non-empty
      name and surname, every text field trimmed. */
  predicate IsFormStudent(s: Student) {
    && 0 < s.id <= INT_MAX
    && s.name != [] && s.surname != []
    && IsTrimmed(s.name) && IsTrimmed(s.surname)
    && IsTrimmed(s.faculty) && IsTrimmed(s.department) && IsTrimmed(s.group)
  }

  /** getFormData: trims every field, requires id, name and surname, then
      requires the id to parse as an int and to be positive. */
  function GetFormData(f: Form): (r: Result<Student, FormError>)
    ensures r.Success? <==>
      && Trim(f.name) != [] && Trim(f.surname) != []
      && ParseInt(Trim(f.studentId)).Some? && ParseInt(Trim(f.studentId)).value > 0
    ensures r.Success? ==>
      && IsFormStudent(r.value)
      && ParseInt(Trim(f.studentId)) == Some(r.value.id)
      && r.value.name == Trim(f.name) && r.value.surname == Trim(f.surname)
      && r.value.faculty == Trim(f.faculty) && r.value.department == Trim(f.department)
      && r.value.group == Trim(f.group)
    ensures r == Failure(MissingRequired) <==>
      Trim(f.studentId) == [] || Trim(f.name) == [] || Trim(f.surname) == []
    ensures r == Failure(NotANumber) <==>
      && Trim(f.studentId) != [] && Trim(f.name) != [] && Trim(f.surname) != []
      && ParseInt(Trim(f.studentId)) == None
    ensures r == Failure(NotPositive) <==>
      && Trim(f.name) != [] && Trim(f.surname) != []
      && ParseInt(Trim(f.studentId)).Some? && ParseInt(Trim(f.studentId)).value <= 0
  {
    var idText := Trim(f.studentId);
    var name := Trim(f.name);
    var surname := Trim(f.surname);
    if idText == [] || name == [] || surname == [] then
      Failure(MissingRequired)
    else
      match ParseInt(idText)
      case None => Failure(NotANumber)
      case Some(id) =>
        if id <= 0 then Failure(NotPositive)
        else Success(Student(id, name, surname, Trim(f.faculty), Trim(f.department), Trim(f.group)))
  }

  /** Filling the form with a student it could have produced and reading the
      form back gives the same student. */
  lemma FormRoundTrip(s: Student)
    requires IsFormStudent(s)
    ensures GetFormData(FormOf(s)) == Success(s)
  {
    ParseIntOfAnyText(s.id);
    var f := FormOf(s);
    assert Trim(f.studentId) == f.studentId;
    assert Trim(s.name) == s.name && Trim(s.surname) == s.surname;
    assert Trim(s.faculty) == s.faculty && Trim(s.department) == s.department;
    assert Trim(s.group) == s.group;
  }

  /** A student from the form survives the NULL normalisation of the store:
      reading its row back gives the same student. */
  lemma FormStudentReadsBack(s: Student, userId: int)
    requires IsFormStudent(s)
    ensures ToStudent(ToRow(s, userId)) == s
  {
    StoredStudentReadsBack(s, userId);
    assert Trim(s.faculty) == s.faculty && Trim(s.department) == s.department;
    assert Trim(s.group) == s.group;
  }

  /** While the id field shows the edited student's id (it is not editable in
      edit mode), a valid form always carries that id, so the "Student ID
      cannot be changed" check of saveEdit never fires. */
  lemma LockedIdCannotChange(e: Student, f: Form)
    requires f.studentId == IntToText(e.id)
    ensures GetFormData(f).Success? ==> GetFormData(f).value.id == e.id
  {
    ParseIntOfAnyText(e.id);
    assert Trim(f.studentId) == f.studentId;
  }

  class CourseController {
    const db: Database
    const session: Session
    var userId: int
    var isEditMode: bool
    var editingStudent: Option<Student>
    /** What the six text fields show. */
    var form: Form
    /** The rows of the table. */
    var items: seq<Student>
    /** The selected row of the table, if any. */
    var selected: Option<Student>

    /** The database keeps its constraints and, since every write goes
        through getFormData, every stored student has a name and a surname; a
        student is being edited exactly in edit mode, and in edit mode the
        locked id field shows that student's id. */
    ghost predicate Valid()
      reads this, db
    {
      && db.Valid()
      && NamesPresent(db.students)
      && (isEditMode <==> editingStudent.Some?)
      && (isEditMode ==> form.studentId == IntToText(editingStudent.value.id))
    }

    /** The screen as loaded, before setUser. */
    constructor (db: Database, session: Session)
      requires db.Valid() && NamesPresent(db.students)
      ensures Valid() && this.db == db && this.session == session
      ensures userId == 0 && !isEditMode && editingStudent == None
      ensures form == BlankForm && items == [] && selected == None
    {
      this.db := db;
      this.session := session;
      userId := 0;
      isEditMode := false;
      editingStudent := None;
      form := BlankForm;
      items := [];
      selected := None;
    }

    /** The table a loadStudents would show now. */
    ghost function Shown(): seq<Student>
      reads this, db
    {
      ReadAll(Listing(db.students, userId))
    }

    /** exitEditMode: back to add mode; the id field is editable again. */
    method ExitEditMode()
      modifies this
      ensures !isEditMode && editingStudent == None
      ensures userId == old(userId) && form == old(form)
      ensures items == old(items) && selected == old(selected)
    {
      isEditMode := false;
      editingStudent := None;
    }

    /** clearForm: empties the fields and the selection, and leaves edit mode. */
    method ClearForm()
      requires Valid()
      modifies this
      ensures Valid() && !isEditMode && editingStudent == None
      ensures form == BlankForm && selected == None
      ensures userId == old(userId) && items == old(items)
    {
      form := BlankForm;
      selected := None;
      if isEditMode {
        ExitEditMode();
      }
    }

    /** fillForm: shows the student in the fields. */
    method FillForm(s: Student)
      modifies this
      ensures form == FormOf(s)
      ensures userId == old(userId) && isEditMode == old(isEditMode)
      ensures editingStudent == old(editingStudent)
      ensures items == old(items) && selected == old(selected)
    {
      form := FormOf(s);
    }

    /** enterEditMode: remembers the student, shows it and locks the id field. */
    method EnterEditMode(s: Student)
      modifies this
      ensures isEditMode && editingStudent == Some(s) && form == FormOf(s)
      ensures userId == old(userId) && items == old(items) && selected == old(selected)
    {
      isEditMode := true;
      editingStudent := Some(s);
      FillForm(s);
    }

    /** loadStudents: the table shows the owner's students in id order
        (replacing the items clears the selection); an empty list also
        clears the form. */
    method LoadStudents()
      requires Valid()
      modifies this
      ensures Valid() && userId == old(userId)
      ensures items == Shown() && selected == None
      ensures forall i, j :: 0 <= i < j < |items| ==> items[i].id < items[j].id
      ensures items == [] ==> form == BlankForm && !isEditMode
      ensures items != [] ==> form == old(form) && isEditMode == old(isEditMode)
                              && editingStudent == old(editingStudent)
    {
      var list := db.GetAllStudentsForUser(userId);
      items := list;
      selected := None;
      if list == [] {
        ClearForm();
      }
    }

    /** reload: clearForm, then loadStudents. */
    method Reload()
      requires Valid()
      modifies this
      ensures Valid() && userId == old(userId)
      ensures items == Shown() && selected == None
      ensures form == BlankForm && !isEditMode && editingStudent == None
    {
      ClearForm();
      LoadStudents();
    }

    /** setUser: the screen now belongs to the user and shows their students. */
    method SetUser(uid: int)
      requires Valid()
      modifies this
      ensures Valid() && userId == uid && items == Shown() && selected == None
      ensures items == [] ==> form == BlankForm && !isEditMode
      ensures items != [] ==> form == old(form) && isEditMode == old(isEditMode)
                              && editingStudent == old(editingStudent)
    {
      userId := uid;
      LoadStudents();
    }

    /** The selection listener: it runs only when the selected item changes,
        and then shows a newly selected student in the form, except in edit
        mode. Selecting the row that is already selected changes nothing. */
    method SelectRow(s: Option<Student>)
      requires Valid()
      modifies this
      ensures Valid() && selected == s
      ensures s != old(selected) && s.Some? && !isEditMode ==> form == FormOf(s.value)
      ensures s == old(selected) || s.None? || isEditMode ==> form == old(form)
      ensures userId == old(userId) && isEditMode == old(isEditMode)
      ensures editingStudent == old(editingStudent) && items == old(items)
    {
      if s != selected {
        selected := s;
        if s.Some? && !isEditMode {
          FillForm(s.value);
        }
      }
    }

    /** Typing into the fields. The id field is not editable in edit mode, so
        there it keeps its text. */
    method EditForm(f: Form)
      requires Valid()
      modifies this
      ensures Valid()
      ensures isEditMode ==> form == f.(studentId := old(form).studentId)
      ensures !isEditMode ==> form == f
      ensures userId == old(userId) && isEditMode == old(isEditMode)
      ensures editingStudent == old(editingStudent)
      ensures items == old(items) && selected == old(selected)
    {
      if isEditMode {
        form := f.(studentId := form.studentId);
      } else {
        form := f;
      }
    }

    /** addStudent: refused in edit mode and for an invalid form; a duplicate
        id is reported; otherwise the row is inserted and the screen reloads,
        now listing the new student. */
    method AddStudent() returns (feedback: Feedback)
      requires Valid()
      modifies this, db
      ensures Valid() && userId == old(userId)
      ensures db.users == old(db.users) && db.nextUserId == old(db.nextUserId)
      ensures old(isEditMode) ==> feedback == EditModeActive && unchanged(this) && db.students == old(db.students)
      ensures !old(isEditMode) && GetFormData(old(form)).Failure? ==>
        feedback == Invalid(GetFormData(old(form)).error) && unchanged(this) && db.students == old(db.students)
      ensures !old(isEditMode) && GetFormData(old(form)).Success? ==>
        var s := GetFormData(old(form)).value;
        if KeyIn(old(db.students), s.id, userId) then
          feedback == DuplicateId && unchanged(this) && db.students == old(db.students)
        else
          && feedback == Added
          && db.students == old(db.students) + [ToRow(s, userId)]
          && items == Shown() && s in items
          && form == BlankForm && selected == None && !isEditMode
    {
      if isEditMode {
        return EditModeActive;
      }
      var data := GetFormData(form);
      if data.Failure? {
        return Invalid(data.error);
      }
      var s := data.value;
      var r := db.AddStudentForUser(s, userId);
      if r.Fail? {
        return DuplicateId;
      }
      ghost var after := db.students;
      assert after == old(db.students) + [ToRow(s, userId)];
      InsertKeepsNamesPresent(old(db.students), s, userId);
      AddedStudentIsListed(old(db.students), s, userId);
      FormStudentReadsBack(s, userId);
      assert s in ReadAll(Listing(after, userId));
      Reload();
      assert db.students == after;
      feedback := Added;
    }

    /** deleteStudent: needs a selection and a confirmation; deletes the
        owner's row with the selected id and reloads, or reports that no row
        was there. */
    method DeleteStudent(confirmed: bool) returns (feedback: Feedback)
      requires Valid()
      modifies this, db
      ensures Valid() && userId == old(userId)
      ensures db.users == old(db.users) && db.nextUserId == old(db.nextUserId)
      ensures old(selected).None? ==> feedback == NoSelection && unchanged(this) && db.students == old(db.students)
      ensures old(selected).Some? && !confirmed ==> feedback == Declined && unchanged(this) && db.students == old(db.students)
      ensures old(selected).Some? && confirmed ==>
        var id := old(selected).value.id;
        && db.students == DeleteKey(old(db.students), id, userId)
        && if KeyIn(old(db.students), id, userId) then
             && feedback == Deleted
             && items == Shown() && (forall x :: x in items ==> x.id != id)
             && form == BlankForm && selected == None && !isEditMode
           else
             feedback == NotFound && unchanged(this) && db.students == old(db.students)
    {
      if selected.None? {
        return NoSelection;
      }
      if !confirmed {
        return Declined;
      }
      var id := selected.value.id;
      var count := db.DeleteStudentForUser(id, userId);
      if count > 0 {
        DeletedStudentIsGone(old(db.students), id, userId);
        Reload();
        feedback := Deleted;
      } else {
        assert db.students == old(db.students);
        feedback := NotFound;
      }
    }

    /** The outcome of saveEdit, relating the state after it to the state
        before it. */
    twostate predicate SavedEdit(feedback: Feedback)
      reads this, db
    {
      match old(editingStudent)
      case None => false
      case Some(e) =>
        var r := GetFormData(old(form));
        && userId == old(userId)
        && db.users == old(db.users) && db.nextUserId == old(db.nextUserId)
        && if r.Failure? then
             feedback == Invalid(r.error) && unchanged(this) && db.students == old(db.students)
           else if r.value.id != e.id then
             feedback == IdChangeRefused && unchanged(this) && db.students == old(db.students)
           else if KeyIn(old(db.students), r.value.id, userId) then
             && feedback == Updated
             && db.students == UpdateKey(old(db.students), r.value, userId)
             && items == Shown() && r.value in items
             && form == BlankForm && selected == None
             && !isEditMode && editingStudent == None
           else
             feedback == NotFound && unchanged(this) && db.students == old(db.students)
    }

    /** saveEdit: validates the form, refuses a changed id, updates the
        owner's row and leaves edit mode; with no such row it stays in edit
        mode. */
    method SaveEdit() returns (feedback: Feedback)
      requires Valid() && isEditMode
      modifies this, db
      ensures Valid() && SavedEdit(feedback)
    {
      var data := GetFormData(form);
      if data.Failure? {
        return Invalid(data.error);
      }
      var s := data.value;
      if s.id != editingStudent.value.id {
        return IdChangeRefused;
      }
      var count := db.UpdateStudentForUser(s, userId);
      if count > 0 {
        ghost var after := db.students;
        UpdateKeepsNamesPresent(old(db.students), s, userId);
        UpdatedStudentIsListed(old(db.students), s, userId);
        FormStudentReadsBack(s, userId);
        assert s in ReadAll(Listing(after, userId));
        ExitEditMode();
        Reload();
        assert db.students == after;
        feedback := Updated;
      } else {
        assert db.students == old(db.students);
        feedback := NotFound;
      }
    }

    /** editStudent: needs a selection; outside edit mode it starts editing
        the selected student, inside it saves. */
    method EditStudent() returns (feedback: Feedback)
      requires Valid()
      modifies this, db
      ensures Valid()
      ensures db.users == old(db.users) && db.nextUserId == old(db.nextUserId)
      ensures old(selected).None? ==> feedback == NoSelection && unchanged(this) && db.students == old(db.students)
      ensures old(selected).Some? && !old(isEditMode) ==>
        && feedback == EditStarted && db.students == old(db.students)
        && isEditMode && editingStudent == old(selected)
        && form == FormOf(old(selected).value)
        && userId == old(userId) && items == old(items) && selected == old(selected)
      ensures old(selected).Some? && old(isEditMode) ==> SavedEdit(feedback)
    {
      if selected.None? {
        return NoSelection;
      }
      if !isEditMode {
        EnterEditMode(selected.value);
        return EditStarted;
      }
      feedback := SaveEdit();
    }

    /** cancelEdit: leaves edit mode and clears the form. */
    method CancelEdit()
      requires Valid()
      modifies this
      ensures Valid() && !isEditMode && editingStudent == None
      ensures form == BlankForm && selected == None
      ensures userId == old(userId) && items == old(items)
    {
      ExitEditMode();
      ClearForm();
    }

    /** The background work searchStudent schedules: blank text reloads the full list,
        other text shows the owner's matching students in id order. */
    method SearchStudent(searchText: string)
      requires Valid()
      modifies this
      ensures Valid() && userId == old(userId) && selected == None
      ensures IsBlank(searchText) ==> items == Shown()
      ensures IsBlank(searchText) && items == [] ==> form == BlankForm && !isEditMode
      ensures IsBlank(searchText) && items != [] ==>
        form == old(form) && isEditMode == old(isEditMode) && editingStudent == old(editingStudent)
      ensures !IsBlank(searchText) ==>
        && items == ReadAll(SearchResult(db.students, Trim(searchText), userId))
        && form == old(form) && isEditMode == old(isEditMode)
        && editingStudent == old(editingStudent)
    {
      var text := Trim(searchText);
      assert IsBlank(searchText) <==> |text| < 1;
      if |text| < 1 {
        LoadStudents();
        return;
      }
      ShowSearchResults(text);
    }

    /** The rest of the search task: the store's result for the trimmed text
        replaces the table's items. */
    method ShowSearchResults(text: string)
      requires Valid()
      modifies this
      ensures Valid() && userId == old(userId) && selected == None
      ensures items == ReadAll(SearchResult(db.students, text, userId))
      ensures form == old(form) && isEditMode == old(isEditMode)
      ensures editingStudent == old(editingStudent)
    {
      var results := db.SearchStudentsForUser(text, userId);
      items := results;
      selected := None;
    }

    /** logout: after confirmation nobody is logged in. */
    method Logout(confirmed: bool)
      modifies session
      ensures confirmed ==> !session.IsLoggedIn() && session.GetCurrentUserId() == LOGGED_OUT
      ensures !confirmed ==> unchanged(session)
    {
      if confirmed {
        session.Logout();
      }
    }
  }

  /** In a valid edit-mode screen the form either fails validation or carries
      the edited student's id: saveEdit never reaches its "Student ID cannot
      be changed" alert. */
  lemma EditModeKeepsId(c: CourseController)
    requires c.Valid() && c.isEditMode
    ensures GetFormData(c.form).Success? ==> GetFormData(c.form).value.id == c.editingStudent.value.id
  {
    LockedIdCannotChange(c.editingStudent.value, c.form);
  }
}
