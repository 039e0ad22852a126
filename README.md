# Course Management System: verified model of the student store and screens

This project models the core of a small desktop student-record application.
Users register and log in. Each user then keeps a private list of students
(student id, name, surname and optional faculty, department and group). The
list can be added to, edited, deleted from and searched, and every change is
persisted in SQLite.

The model has one module per part of the program:

- `Wrappers`: `Option`, `Result` and `Outcome`.
- `Text`: the Java string operations the core relies on. These are
  `String.trim`, lower-casing, `String.valueOf(int)`, `Integer.parseInt`
  with the 32-bit `int` range, and `String.length`. A string is a sequence
  of Unicode scalar values; `Utf16Length` counts it in UTF-16 code units,
  as Java does.
- `SqlLike`: SQLite's `LIKE` operator, with `%` and `_` wildcards and ASCII
  case-insensitivity.
- `Models`: the `Student` record and the `Session` holding the logged-in user.
- `Tables`: the two SQL tables as sequences of rows, with one pure function
  per SQL statement. `INSERT`, `DELETE ... WHERE student_id = ? AND user_id = ?`,
  `UPDATE ...`, `SELECT ... WHERE user_id = ? ORDER BY student_id` and the
  six-column `LIKE` search each have one. The module also holds the lemmas
  about these statements:
  - the `UNIQUE` constraints are kept;
  - a statement affects at most one row;
  - users' rows are isolated from each other;
  - what a user sees after each write;
  - the search is a case-insensitive substring test.
- `Storage`: the `Database` class. Its two tables are fields, and each
  public method of the Java class is a method that reassigns those fields
  exactly as its SQL statements do. Most methods issue one statement;
  `addStudentForUser` issues a `COUNT(*)` query and then the `INSERT`, and
  `registerUser` leaves the UNIQUE check to the `INSERT`. The password hash
  is a function the database is constructed with.
- `CourseScreen`: the student screen.
  - `GetFormData` is the form validation.
  - The `CourseController` class has the screen's state as fields: user id,
    edit mode, the student being edited, the six form texts, the table rows
    and the selection.
  - The class has one method per handler. Each method states the alert it
    ends with, as a `Feedback` value, and the new state of the screen and
    the database.
  - Its invariant `Valid` includes that every stored student has a non-empty
    name and surname. The store does not enforce this: the columns are
    `NOT NULL` but accept "". Every handler keeps it because each write goes
    through `GetFormData`, which refuses a blank name or surname
    (CourseController.java:313-316).
- `RegisterScreen` and `LoginScreen`: the validation chain of the
  registration form, and the login check that fills the session.

## Model

Source paths are relative to the repository root.

| member | source | states |
|---|---|---|
| Text.Trim | src/main/java/com/example/cms/controllers/CourseController.java:306-311 | `String.trim`, as a scan from the front and then from the back: the result is the input with a prefix and a suffix of characters at or below U+0020 removed, and has no such character at either end; it is empty exactly when the input is all such characters; an already trimmed string is returned unchanged |
| Text.TrimIdempotent | src/main/java/com/example/cms/controllers/CourseController.java:306-311 | trimming twice is trimming once |
| Text.IsBlank | src/main/java/com/example/cms/controllers/CourseController.java:247-250 | `trim().isEmpty()` holds exactly when every character is at or below U+0020 |
| Text.Utf16Length | src/main/java/com/example/cms/controllers/RegisterController.java:52-57 | `String.length()`: the number of characters plus the number of characters above U+FFFF, each of which is a surrogate pair; so between the number of characters and twice it |
| Text.Utf16LengthOfPair | src/main/java/com/example/cms/controllers/RegisterController.java:52 | `"a"` followed by U+1F600 is two characters and three UTF-16 units |
| Text.Lower | src/main/java/com/example/cms/database/Database.java:185-186 | lower-casing keeps the length and maps each character through the ASCII case fold |
| Text.NatToText | src/main/java/com/example/cms/controllers/CourseController.java:297 | the decimal text of a non-negative number is non-empty, all digits, without a leading zero |
| Text.IntToText | src/main/java/com/example/cms/controllers/CourseController.java:297 | `String.valueOf(int)` never has surrounding white space |
| Text.DigitsOfNat | src/main/java/com/example/cms/controllers/CourseController.java:297 | reading back the digits of a number gives the number |
| Text.ParseInt | src/main/java/com/example/cms/controllers/CourseController.java:319 | `Integer.parseInt` succeeds only with a value inside the 32-bit `int` range; which texts parse, and to what, is stated by `Text.ParseIntIsDecimalText` |
| Text.LeadingZerosValue | src/main/java/com/example/cms/controllers/CourseController.java:319 | leading zeros do not change the value of a digit string |
| Text.DigitsAreZerosThenText | src/main/java/com/example/cms/controllers/CourseController.java:319 | every non-empty digit string is zeros followed by the canonical decimal text of its value |
| Text.ParsedIsDecimalText | src/main/java/com/example/cms/controllers/CourseController.java:319 | every text `Integer.parseInt` accepts is a sign, zeros and the digits of the value it returns |
| Text.DecimalTextParses | src/main/java/com/example/cms/controllers/CourseController.java:319 | every text of that form parses to its value |
| Text.ParseIntIsDecimalText | src/main/java/com/example/cms/controllers/CourseController.java:319 | `Integer.parseInt(s)` returns `v` exactly when `s` is an optional sign, then zeros, then the digits of `v`; a `-` only for a value that is not positive and required for a negative one; `v` in the `int` range |
| Text.ParseIntExamples | src/main/java/com/example/cms/controllers/CourseController.java:319 | `"+5"` gives 5, `"007"` gives 7 and `"-0"` gives 0; a bare `-` or `+` and `"x5"` are refused |
| Text.ParseIntOfAnyText | src/main/java/com/example/cms/controllers/CourseController.java:297-319 | parsing the decimal text of any integer gives it back when it is an `int`, and fails otherwise |
| Text.NonNumericRejected | src/main/java/com/example/cms/controllers/CourseController.java:319-327 | text with a non-digit after the first position does not parse |
| SqlLike.Like | src/main/java/com/example/cms/database/Database.java:185 | SQLite `LIKE` without ESCAPE; a pattern without `%` or `_` matches exactly the strings of its length that equal it ignoring ASCII case |
| SqlLike.LikeAnything | src/main/java/com/example/cms/database/Database.java:186 | a lone `%` matches every string |
| SqlLike.EmptySearchMatchesAll | src/main/java/com/example/cms/database/Database.java:186 | `%%`, the pattern of an empty search text, matches every string |
| SqlLike.LikePrefix | src/main/java/com/example/cms/database/Database.java:185-186 | on lower-case text, `t%` for wildcard-free `t` holds exactly when `t` is a prefix |
| SqlLike.LikeInfix | src/main/java/com/example/cms/database/Database.java:185-186 | on lower-case text, `%t%` for wildcard-free `t` holds exactly when `t` occurs as a substring |
| SqlLike.UnderscoreMatchesAnyText | src/main/java/com/example/cms/database/Database.java:186 | the unescaped pattern `%_%` matches every non-empty string |
| SqlLike.LowerKeepsNoWildcards | src/main/java/com/example/cms/database/Database.java:186 | lower-casing does not introduce `%` or `_` |
| Models.Session.constructor | src/main/java/com/example/cms/models/Session.java:4 | at start nobody is logged in (`-1`) |
| Models.Session.GetCurrentUserId | src/main/java/com/example/cms/models/Session.java:6-8 | returns the stored id of the logged-in user, `-1` when nobody is |
| Models.Session.SetCurrentUserId | src/main/java/com/example/cms/models/Session.java:10-16 | afterwards the session holds the id, and `isLoggedIn` holds exactly when the id is not `-1` |
| Models.Session.IsLoggedIn | src/main/java/com/example/cms/models/Session.java:14-16 | true exactly when the stored id is not `-1` |
| Models.Session.Logout | src/main/java/com/example/cms/models/Session.java:18-20 | afterwards nobody is logged in; logging out twice changes nothing the second time |
| Tables.FindUser | src/main/java/com/example/cms/database/Database.java:92-101 | a row with the name that no earlier row shares (the first), and none exactly when no row has it |
| Tables.UserIdOf | src/main/java/com/example/cms/database/Database.java:92-101 | a taken name gives the id of a row with that name; an unknown name gives `-1` |
| Tables.RegisterAddsUser | src/main/java/com/example/cms/database/Database.java:20-27 | inserting an untaken name keeps the AUTOINCREMENT and UNIQUE constraints of `users`, the name then validates with the stored hash, and `getUserId` returns the new id |
| Tables.RegisterKeepsOtherUsers | src/main/java/com/example/cms/database/Database.java:64-101 | registering one name changes neither the login check nor the id of any other name |
| Tables.UnknownUserHasNoId | src/main/java/com/example/cms/database/Database.java:92-101 | on a valid table `getUserId` returns `-1` exactly for unknown names, and otherwise an id between 1 and the next id to hand out |
| Tables.NullIfEmpty | src/main/java/com/example/cms/database/Database.java:218-220 | a blank or white-space-only value is stored as NULL, and any other value is stored as is |
| Tables.EmptyIfNull | src/main/java/com/example/cms/database/Database.java:214-216 | NULL reads as "", and any other value reads as is |
| Tables.NormalisationRoundTrip | src/main/java/com/example/cms/database/Database.java:214-220 | storing and reading an optional field gives "" for a blank field and the field itself otherwise |
| Tables.ToRow | src/main/java/com/example/cms/database/Database.java:124-130 | the INSERT binds the student id and owner as the key, name and surname as given, and each blank optional field as NULL, any other as is |
| Tables.ToStudent | src/main/java/com/example/cms/database/Database.java:143-150 | the result-set row is read with the same id, name and surname; a row whose optional columns are NULL or non-blank is exactly the row storing that student writes |
| Tables.StoredStudentReadsBack | src/main/java/com/example/cms/database/Database.java:121-150 | a stored student reads back with the same id, name and surname; each optional field reads back per the NULL normalisation |
| Tables.ReadAll | src/main/java/com/example/cms/database/Database.java:141-151 | the result-set loop yields one student per row, in row order, converted field by field |
| Tables.CountKey | src/main/java/com/example/cms/database/Database.java:104-114 | the `COUNT(*)` for a key is positive exactly when a row with that student id and user id exists |
| Tables.CountKeyAtMostOne | src/main/java/com/example/cms/database/Database.java:39 | under `UNIQUE(student_id, user_id)` a key matches at most one row |
| Tables.InsertKeepsKeysUnique | src/main/java/com/example/cms/database/Database.java:116-133 | inserting a row whose key is absent keeps the UNIQUE constraint |
| Tables.KeyInSubset | src/main/java/com/example/cms/database/Database.java:39 | a key present among a subset of rows is present in the table |
| Tables.SelectOwner | src/main/java/com/example/cms/database/Database.java:137 | `WHERE user_id = ?` keeps exactly the owner's rows and keeps keys unique |
| Tables.SelectOwnerAppend | src/main/java/com/example/cms/database/Database.java:137 | selecting after an append is selecting before, plus the new row if it is the owner's |
| Tables.SelectOwnerAgree | src/main/java/com/example/cms/database/Database.java:137 | two tables that agree on every row of one owner give that owner the same rows |
| Tables.InsertIsolatesOwners | src/main/java/com/example/cms/database/Database.java:116-133 | adding a student for one user leaves every other user's rows unchanged |
| Tables.DeleteKey | src/main/java/com/example/cms/database/Database.java:157-165 | the DELETE removes exactly the rows with both keys: as many rows as the key count, and none when the key is absent |
| Tables.DeleteKeepsKeysUnique | src/main/java/com/example/cms/database/Database.java:157-165 | a delete keeps the UNIQUE constraint |
| Tables.DeleteIsolatesOwners | src/main/java/com/example/cms/database/Database.java:157-165 | a delete for one user leaves every other user's rows unchanged, even rows with the same student id |
| Tables.Rewrite | src/main/java/com/example/cms/database/Database.java:168 | the SET list keeps the row's key; applied to the row with the student's id it gives the row an insert of that student writes |
| Tables.UpdateKey | src/main/java/com/example/cms/database/Database.java:167-180 | the UPDATE rewrites only the five non-key columns of the row with both keys; the keys, row count, other rows and UNIQUE constraint are kept; there is no insert when the key is absent |
| Tables.UpdateIsolatesOwners | src/main/java/com/example/cms/database/Database.java:167-180 | an update for one user leaves every other user's rows unchanged |
| Tables.InsertKeepsNamesPresent | src/main/java/com/example/cms/database/Database.java:121-131 | inserting a student with a non-empty name and surname keeps every stored name and surname non-empty |
| Tables.DeleteKeepsNamesPresent | src/main/java/com/example/cms/database/Database.java:157-165 | a delete keeps every stored name and surname non-empty |
| Tables.UpdateKeepsNamesPresent | src/main/java/com/example/cms/database/Database.java:167-180 | updating with a non-empty name and surname keeps every stored name and surname non-empty |
| Tables.InsertById | src/main/java/com/example/cms/database/Database.java:137 | one insertion step of the sort adds exactly that row to the multiset of rows |
| Tables.InsertByIdSorted | src/main/java/com/example/cms/database/Database.java:137 | inserting into a list sorted by student id keeps it sorted |
| Tables.OrderById | src/main/java/com/example/cms/database/Database.java:137 | `ORDER BY student_id` is a sorted permutation of its input |
| Tables.InsertByIdKeepsKeysUnique | src/main/java/com/example/cms/database/Database.java:137 | sorted insertion of a row with a fresh key keeps keys unique |
| Tables.OrderByIdKeepsKeysUnique | src/main/java/com/example/cms/database/Database.java:137 | sorting keeps keys unique |
| Tables.OneOwnerSortedIsStrict | src/main/java/com/example/cms/database/Database.java:39 | one owner's rows, sorted and with unique keys, have strictly ascending student ids |
| Tables.Listing | src/main/java/com/example/cms/database/Database.java:137 | `WHERE user_id = ? ORDER BY student_id`: exactly the owner's rows, sorted by student id |
| Tables.ListingIsOwnedAndAscending | src/main/java/com/example/cms/database/Database.java:135-155 | the listing holds exactly the owner's rows, in strictly ascending student id order |
| Tables.SearchPattern | src/main/java/com/example/cms/database/Database.java:186 | the pattern is the text lower-cased between two `%`, and for text without wildcards those are its only wildcards |
| Tables.RowMatches | src/main/java/com/example/cms/database/Database.java:184-185 | the six `LIKE` tests of the WHERE clause; the pattern of an empty text matches every row |
| Tables.SelectMatching | src/main/java/com/example/cms/database/Database.java:184-185 | the search WHERE clause keeps exactly the owner's rows that match in one of the six columns |
| Tables.SelectMatchingKeepsKeysUnique | src/main/java/com/example/cms/database/Database.java:184-185 | the search selects rows with unique keys from a table with unique keys |
| Tables.SearchResult | src/main/java/com/example/cms/database/Database.java:182-212 | the search query returns exactly the owner's rows matching the pattern of the text, sorted by student id |
| Tables.FieldLikeIsContains | src/main/java/com/example/cms/database/Database.java:185-186 | for wildcard-free text, `LOWER(field) LIKE '%'+lower(text)+'%'` holds exactly when the field contains the text, ignoring case |
| Tables.RowMatchesIsSubstring | src/main/java/com/example/cms/database/Database.java:184-186 | for wildcard-free text, a row matches exactly when one of its six fields contains the text, ignoring case; the id is compared as decimal text and NULL as "" |
| Tables.SearchIsOwnedMatchingAscending | src/main/java/com/example/cms/database/Database.java:182-212 | for wildcard-free text the search returns exactly the owner's rows containing the text, in strictly ascending student id order |
| Tables.SelectMatchingEverything | src/main/java/com/example/cms/database/Database.java:184-185 | a pattern every row matches selects all the owner's rows |
| Tables.EmptySearchListsAll | src/main/java/com/example/cms/database/Database.java:182-212 | an empty text given to the store lists all the owner's students |
| Tables.UnderscoreSearchListsAll | src/main/java/com/example/cms/database/Database.java:186 | the text is not escaped, so searching for "_" lists all the owner's students |
| Tables.AddedStudentIsListed | src/main/java/com/example/cms/database/Database.java:116-155 | after an insert the new student is in the owner's listing |
| Tables.UpdatedStudentIsListed | src/main/java/com/example/cms/database/Database.java:135-180 | after a matching update the listing shows the new values under that id, and no other version |
| Tables.DeletedStudentIsGone | src/main/java/com/example/cms/database/Database.java:135-165 | after a delete no listed student has that id |
| Storage.Database.constructor | src/main/java/com/example/cms/database/Database.java:20-52 | `createTables` on a fresh file: both tables are empty and the constraints hold |
| Storage.Database.RegisterUser | src/main/java/com/example/cms/database/Database.java:64-78 | returns true exactly for an untaken name. On true, it appends the row with the next id and the hash of the password, after which the name validates and maps to that id. On false nothing changes. Students are never touched |
| Storage.Database.ValidateUser | src/main/java/com/example/cms/database/Database.java:80-90 | true exactly when some row has the name and the hash of the password |
| Storage.Database.GetUserId | src/main/java/com/example/cms/database/Database.java:92-102 | `-1` exactly for an unknown name; otherwise the positive id of the row with that name |
| Storage.Database.StudentIdExists | src/main/java/com/example/cms/database/Database.java:104-114 | true exactly when the owner has a row with that student id |
| Storage.Database.AddStudentForUser | src/main/java/com/example/cms/database/Database.java:116-133 | an id the owner already has is refused and nothing changes; otherwise exactly one row is appended with the NULL-normalised fields; the constraints are kept |
| Storage.Database.ReadStudents | src/main/java/com/example/cms/database/Database.java:141-151 | the `while (rs.next())` loop builds exactly the list of converted rows |
| Storage.Database.GetAllStudentsForUser | src/main/java/com/example/cms/database/Database.java:135-155 | exactly the owner's students, in strictly ascending id order |
| Storage.Database.DeleteStudentForUser | src/main/java/com/example/cms/database/Database.java:157-165 | removes the owner's row with that id; the count returned is the number of rows removed, at most 1, and 0 exactly when nothing changed |
| Storage.Database.UpdateStudentForUser | src/main/java/com/example/cms/database/Database.java:167-180 | rewrites the owner's row with that id; the count returned is at most 1; with no such row nothing changes |
| Storage.Database.SearchStudentsForUser | src/main/java/com/example/cms/database/Database.java:182-212 | the `LIKE` search result; for wildcard-free text, exactly the owner's students containing the text ignoring case, ascending by id |
| CourseScreen.GetFormData | src/main/java/com/example/cms/controllers/CourseController.java:305-329 | the three warnings in order: missing id/name/surname, unparsable id, non-positive id. Otherwise the student has the parsed id and the trimmed texts. Each outcome is stated as an if-and-only-if |
| CourseScreen.FormOf | src/main/java/com/example/cms/controllers/CourseController.java:292-303 | `fillForm` shows the student's texts, and an id text without surrounding white space that `Integer.parseInt` reads back as the id whenever the id is an `int` |
| CourseScreen.FormRoundTrip | src/main/java/com/example/cms/controllers/CourseController.java:292-329 | filling the form with a student it could produce and reading it back gives that student |
| CourseScreen.FormStudentReadsBack | src/main/java/com/example/cms/controllers/CourseController.java:305-329 | a student from the form is stored and read back unchanged |
| CourseScreen.LockedIdCannotChange | src/main/java/com/example/cms/controllers/CourseController.java:169-192 | while the id field shows the edited id, a valid form carries that id, so the id-change warning cannot fire |
| CourseScreen.EditModeKeepsId | src/main/java/com/example/cms/controllers/CourseController.java:169-192 | on every reachable screen in edit mode, a valid form carries the edited student's id |
| CourseScreen.CourseController.constructor | src/main/java/com/example/cms/controllers/CourseController.java:24-27 | the screen starts outside edit mode with an empty form, table and selection, over a store whose students all have a name and a surname |
| CourseScreen.CourseController.ExitEditMode | src/main/java/com/example/cms/controllers/CourseController.java:217-234 | leaves edit mode and forgets the edited student; nothing else changes |
| CourseScreen.CourseController.ClearForm | src/main/java/com/example/cms/controllers/CourseController.java:331-342 | blank fields, no selection, not in edit mode; the table is kept |
| CourseScreen.CourseController.FillForm | src/main/java/com/example/cms/controllers/CourseController.java:292-303 | the fields show the student with its id as decimal text; nothing else changes |
| CourseScreen.CourseController.EnterEditMode | src/main/java/com/example/cms/controllers/CourseController.java:165-183 | edit mode on, the student remembered and shown |
| CourseScreen.CourseController.LoadStudents | src/main/java/com/example/cms/controllers/CourseController.java:83-96 | the table shows the owner's listing in strictly ascending id order; an empty listing also clears the form and leaves edit mode |
| CourseScreen.CourseController.Reload | src/main/java/com/example/cms/controllers/CourseController.java:379-382 | cleared form and edit mode, then a fresh listing |
| CourseScreen.CourseController.SetUser | src/main/java/com/example/cms/controllers/CourseController.java:71-81 | the screen belongs to the user and shows their listing with no selection; an empty listing clears the form and leaves edit mode, any other keeps the form and the mode |
| CourseScreen.CourseController.SelectRow | src/main/java/com/example/cms/controllers/CourseController.java:54-58 | the listener runs only on a change of selection: a newly selected student fills the form, except in edit mode; re-selecting the selected row or clearing the selection leaves the form as it is |
| CourseScreen.CourseController.EditForm | src/main/java/com/example/cms/controllers/CourseController.java:169-220 | typing cannot change the id field in edit mode |
| CourseScreen.CourseController.AddStudent | src/main/java/com/example/cms/controllers/CourseController.java:98-122 | nothing changes in edit mode, with an invalid form, or with a duplicate id. Otherwise exactly one row is added, the screen is reloaded, and the new student is listed |
| CourseScreen.CourseController.DeleteStudent | src/main/java/com/example/cms/controllers/CourseController.java:124-148 | needs a selection and a confirmation. It deletes the owner's row with the selected id, and after the reload no listed student has that id. When no row was there it reports Not Found and nothing changes |
| CourseScreen.CourseController.SaveEdit | src/main/java/com/example/cms/controllers/CourseController.java:185-209 | nothing changes with an invalid form or a changed id. Otherwise it updates the owner's row. When a row matched, it leaves edit mode and reloads, and the new values are listed. When none matched, it stays in edit mode and nothing changes |
| CourseScreen.CourseController.EditStudent | src/main/java/com/example/cms/controllers/CourseController.java:150-163 | needs a selection; outside edit mode it starts editing the selected student, in edit mode it saves |
| CourseScreen.CourseController.CancelEdit | src/main/java/com/example/cms/controllers/CourseController.java:211-215 | leaves edit mode with a blank form and no selection |
| CourseScreen.CourseController.SearchStudent | src/main/java/com/example/cms/controllers/CourseController.java:236-265 | the selection is cleared. Blank text reloads the full listing, which clears the form and leaves edit mode only when it is empty; other text shows the store's search result for the trimmed text, leaving form and edit mode alone |
| CourseScreen.CourseController.ShowSearchResults | src/main/java/com/example/cms/controllers/CourseController.java:254-255 | the table's items become the store's search result for the text, and the selection is cleared; user, form and edit mode are kept |
| CourseScreen.CourseController.Logout | src/main/java/com/example/cms/controllers/CourseController.java:267-281 | after confirmation nobody is logged in; without it the session is unchanged |
| RegisterScreen.ValidateRegistration | src/main/java/com/example/cms/controllers/RegisterController.java:43-65 | the four checks in order on the trimmed fields (required, username at least 3 and password at least 4 UTF-16 units, confirmation equal), each outcome stated as an if-and-only-if; accepted credentials are the trimmed pair |
| RegisterScreen.SupplementaryNameAccepted | src/main/java/com/example/cms/controllers/RegisterController.java:52 | a name of two characters, the second above U+FFFF, is three units long and passes the length check |
| RegisterScreen.AcceptedCredentialsAreStable | src/main/java/com/example/cms/controllers/RegisterController.java:43-65 | accepted credentials are trimmed and non-blank |
| RegisterScreen.OnRegister | src/main/java/com/example/cms/controllers/RegisterController.java:42-92 | invalid input changes nothing. Valid input registers the trimmed name with the hash of the trimmed password under the next id, and the id counter goes up by one, unless the name is taken, which is reported and changes nothing |
| LoginScreen.LoginIdIsMatchingRow | src/main/java/com/example/cms/controllers/LoginController.java:46-48 | on a valid table, the id `getUserId` gives after a successful check is the id of the very row whose credentials matched |
| LoginScreen.OnLogin | src/main/java/com/example/cms/controllers/LoginController.java:32-71 | blank fields are refused without a lookup. Matching credentials put the user's positive id in the session. Otherwise the login is refused and the session is unchanged |
| LoginScreen.RegisteredUserCanLogIn | src/main/java/com/example/cms/controllers/LoginController.java:33-48 | an account registration accepted passes the login check with the same texts and gets the new id |

## Left out

- JDBC connections, prepared statements and the `SQLException`s they can raise (a locked or missing database file) are not modelled. Only the duplicate-id refusal of `addStudentForUser` and the UNIQUE refusal of `registerUser` are.
- The "Database Error" alerts of the screens are not modelled, since the store never fails in the model.
- `hashPassword` (SHA-256, then Base64) is a function the `Database` is built with.
  - No collision freedom is assumed.
  - For that reason no lemma says a wrong password is refused; `OnLogin` states the check in terms of the stored hash.
- Text.Lower: only ASCII letters are folded, as SQLite's `LOWER` does. Java's `toLowerCase()` uses the default locale of the JVM and also folds other letters, so the search pattern differs for non-ASCII text. In a locale with special rules it differs even for ASCII text: under a Turkish or Azeri locale `I` becomes U+0131. The model assumes a locale without such rules.
- Text.ParseInt: only the ASCII digits 0-9 are accepted. Java's `Integer.parseInt` also accepts other Unicode decimal digits.
- Storage.Database.SearchStudentsForUser: the search is characterised as a substring test only for text without `%` or `_`. For other text the contract gives the exact `LIKE` result, and `Tables.UnderscoreSearchListsAll` shows one consequence.
- The 300 ms debounce timer of `searchStudent`, `Platform.runLater` and the background threads of login and registration are left out. Each handler is modelled as running to completion at once.
- The alerts, styles, loading indicators, window titles and scene navigation are left out. An alert is the handler's `Feedback` result, and a confirmation dialog is a boolean parameter.
- `fillForm(null)` is not modelled, since every caller passes a student.
- Replacing the table's items clears the selection. This is what JavaFX does when the selected object is not in the new list, and it assumes `Student` keeps `Object.equals`; the `Student` class is not part of this model.
- CourseScreen.CourseController.LoadStudents: the ascending id order holds only while the table is sorted by its initial sort column, the id, ascending. Header clicks are not modelled. JavaFX's default sort policy sorts the `items` list itself, in place. Clicking the id header switches it to descending, and clicking the name or surname header sorts by that column. After such a click, the `sort()` calls of `loadStudents` and `searchStudent` (CourseController.java:89, 256) keep the chosen order, so `items` is no longer in the order the store returns. The same holds for `ShowSearchResults`.
- Referential integrity of `students.user_id` is not modelled. SQLite does not enforce foreign keys unless a pragma enables them, so a student row may name any owner.
- User ids are unbounded integers rather than SQLite 64-bit integers read with `getInt`. The internal AUTOINCREMENT `id` of `students` is not modelled.
- `Session` holds a static field in the source. Here it is one `Session` object shared by the screens.
  - The controllers assign `Session.currentUserId` directly although it is private.
  - The model routes those writes through `SetCurrentUserId` and `Logout`.
- The login screen's scene change, which builds the student screen and calls `setUser`, is left to the caller. `CourseController.SetUser` models its effect.
- `HelloApplication` (window setup) and `module-info.java` are not part of this model.
