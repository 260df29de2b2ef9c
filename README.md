# Student Management System — verified model of its core

The application keeps student records in one relational table,
`students(name, age, grade, studentID PRIMARY KEY)`, and lets a user add,
remove, update, list and average them through a form. This project models
three parts of it in Dafny and proves their properties:

- **`StudentRecord`** (`student.dfy`, from `src/Student.java`): the `Student`
  class with its four mutable fields, constructor, getters and setters, plus
  `Record`, the value a row of the table holds. Age is Java's 32-bit `int`
  (`int32`); grade is a `real`.
- **`StudentStore`** (`store.dfy`, from `src/StudentManagerImpl.java`): the
  `StudentManager` class. It owns the table as a `seq<Record>` field, and its
  invariant is the primary-key constraint (`UniqueIds`). Each SQL statement
  is a pure function on the table: `HasId` (the `SELECT` by ID), `Delete`,
  `Update` and `AverageGrade`. `AsMap`, the table keyed by student ID, is the
  reference meaning. Lemmas tie insert, delete and update to map operations
  (`InsertFresh`, `DeleteKeyed`, `UpdateKeyed`) and prove that each keeps the
  key constraint. The methods `AddStudent`, `RemoveStudent`, `UpdateStudent`,
  `DisplayAllStudents` and `CalculateAverageGrade` change or read the table
  field and are proved against those functions.
- **`StudentForm`** (`form.dfy`, from `src/StudentManagementGUI.java`): the
  add, remove and update handlers without Swing. The text fields are
  parameters, and parsing the age and grade gives an `Option`. The output
  area is a field of the `ManagementForm` class. The pure validators are
  `ValidateId` and `ValidateFields`; the first check that fails gives the
  message. `StudentExists` is the scan with a flag and `break`. Each handler
  is also a pure step (`AddResult`, `RemoveResult`, `UpdateResult`,
  `Handle`) over the table, and the handler methods are proved to do that
  step. The lemmas treat the form as a state machine. The table changes
  only when every gate passes (`HandleGate`). Any sequence of button presses
  keeps the key constraint and keeps every row well formed
  (`SessionKeepsInvariant`). Removing a student right after adding them
  restores the table (`AddThenRemove`).

`Wrappers` (`wrappers.dfy`) defines `Option`.

The order of the table's rows stands for the storage engine's order, which
the source leaves unspecified. `DisplayAllStudents` returns the rows in that
order, and `AverageOrderIndependent` shows that the average does not depend
on it.

Two behaviours of the code worth noting:

- A duplicate ID on add reaches the user as the text
  `Error: Error adding student: Student ID already exists.` The handler puts
  `"Error: "` in front of the message of the exception the store throws.
- An absent ID on remove or update never reaches the store from the form:
  the form's own scan reports it first. The store's own no-op on an absent
  ID is still modelled.

## Model

| member | source | states |
|---|---|---|
| StudentRecord.Student.constructor | src/Student.java:8-13 | the fields (and getters) hold name, age, grade and ID in parameter order; no argument is checked |
| StudentRecord.Student.SetName | src/Student.java:21-23 | the getter returns the new name; the other three fields are unchanged |
| StudentRecord.Student.SetAge | src/Student.java:29-31 | the getter returns the new age; the other three fields are unchanged |
| StudentRecord.Student.SetGrade | src/Student.java:37-39 | the getter returns the new grade; the other three fields are unchanged |
| StudentRecord.Student.SetStudentID | src/Student.java:45-47 | the getter returns the new ID; the other three fields are unchanged |
| StudentStore.HasId | src/StudentManagerImpl.java:45-53 | the `SELECT` by ID finds a row iff the ID has an entry in the keyed view of the table |
| StudentStore.Delete | src/StudentManagerImpl.java:76-79 | the rows left are exactly the old rows whose ID differs from the deleted one |
| StudentStore.Update | src/StudentManagerImpl.java:93-99 | same length; every ID kept; rows with the student's ID become the student, all others unchanged |
| StudentStore.AsMapKeys | src/StudentManagerImpl.java:28-32 | the keyed view has an entry for an ID iff some row carries that ID |
| StudentStore.AsMapExact | src/StudentManagerImpl.java:28-32 | under the key constraint each row is found under its own ID and the view has exactly as many entries as rows |
| StudentStore.UniqueCons | src/StudentManagerImpl.java:28-32 | the key constraint holds of a table iff it holds of the tail and the head's ID is not in the tail |
| StudentStore.InsertFresh | src/StudentManagerImpl.java:45-64 | inserting a row with an untaken ID keeps the key constraint and stores exactly that entry in the keyed view |
| StudentStore.DeleteAbsent | src/StudentManagerImpl.java:76-84 | deleting an ID no row carries leaves the table unchanged |
| StudentStore.DeleteIds | src/StudentManagerImpl.java:76-79 | after a deletion an ID is present iff it was present before and is not the deleted one |
| StudentStore.DeleteKeepsUnique | src/StudentManagerImpl.java:76-79 | deletion keeps the key constraint |
| StudentStore.DeleteKeyed | src/StudentManagerImpl.java:76-79 | in the keyed view deletion removes exactly the deleted ID |
| StudentStore.UpdateAbsent | src/StudentManagerImpl.java:93-104 | updating an ID no row carries leaves the table unchanged |
| StudentStore.UpdateKeepsUnique | src/StudentManagerImpl.java:93-99 | update keeps the key constraint |
| StudentStore.UpdateKeyed | src/StudentManagerImpl.java:93-99 | in the keyed view update replaces the entry for the ID if there is one, else changes nothing |
| StudentStore.AverageGrade | src/StudentManagerImpl.java:134-140 | `AVG(grade)` read with `getDouble`: 0.0 on an empty table (SQL `NULL`), otherwise the value whose product with the row count is the sum of the grades |
| StudentStore.AverageWithin | src/StudentManagerImpl.java:133-145 | on a non-empty table the average lies between any bounds that hold of every grade |
| StudentStore.SumPermutation | src/StudentManagerImpl.java:135-140 | the sum of grades is the same for any reordering of the rows |
| StudentStore.AverageOrderIndependent | src/StudentManagerImpl.java:135-140 | the average is the same for any storage order of the rows |
| StudentStore.StudentManager.constructor | src/StudentManagerImpl.java:10-13 | the store starts with the rows already in the table, which satisfy the key constraint |
| StudentStore.StudentManager.AddStudent | src/StudentManagerImpl.java:44-71 | throws (with the source's message) iff the ID is taken, and then the table is unchanged; otherwise exactly the student's row is appended; the key constraint is kept |
| StudentStore.StudentManager.RemoveStudent | src/StudentManagerImpl.java:75-88 | the new table is the old one without the ID's row; other rows untouched; absent ID is a no-op; key constraint kept |
| StudentStore.StudentManager.UpdateStudent | src/StudentManagerImpl.java:92-108 | name, age and grade of the ID's row are overwritten, ID and other rows kept; absent ID is a no-op; key constraint kept |
| StudentStore.StudentManager.DisplayAllStudents | src/StudentManagerImpl.java:112-129 | one new, distinct `Student` per row, each holding exactly that row's fields; the table is not changed |
| StudentStore.StudentManager.CalculateAverageGrade | src/StudentManagerImpl.java:133-145 | the result is `AverageGrade` of the table (the mean of the grades, 0.0 when empty); the table is not changed |
| StudentForm.TrimStart | src/StudentManagementGUI.java:131 | the result is a suffix of the string; everything dropped is at most U+0020; a non-empty result starts above U+0020 |
| StudentForm.TrimEnd | src/StudentManagementGUI.java:131 | the result is a prefix of the string; everything dropped is at most U+0020; a non-empty result ends above U+0020 |
| StudentForm.Trim | src/StudentManagementGUI.java:131 | `trim()` is never longer than its input, gives the empty string iff every character is at most U+0020, and otherwise starts and ends above U+0020 |
| StudentForm.TrimIsSlice | src/StudentManagementGUI.java:131 | what `trim()` leaves is a contiguous piece `s[a..b]` of the string |
| StudentForm.IsFiveDigits | src/StudentManagementGUI.java:135 | `matches("\\d{5}")` (also at :175 and :216); a match is never blank, so the blank check before it only chooses the message |
| StudentForm.ValidateId | src/StudentManagementGUI.java:171-178 | accepts iff the ID is exactly five ASCII digits; the "cannot be empty" message appears iff the ID is blank, otherwise the 5-digit message |
| StudentForm.ValidateFields | src/StudentManagementGUI.java:131-154 | accepts iff the record is well formed (5-digit ID, visible name without digits, age > 0, grade in [0.0, 100.0]); every rejection is an error message |
| StudentForm.FirstFailureReported | src/StudentManagementGUI.java:212-235 | each of the six messages appears exactly when its check fails and all earlier checks pass |
| StudentForm.ValidateFieldsAsWritten | src/StudentManagementGUI.java:131-154 | the checks with the digit pattern as written: it accepts iff the ID is five digits, the name is not blank and does not match `.*\d.*` as written, age > 0 and grade is in [0.0, 100.0]; so it accepts everything `ValidateFields` accepts; every rejection is an error message |
| StudentForm.AsWrittenAcceptsDigitInName | src/StudentManagementGUI.java:143-146 | on ID "12345", name "A\r1", age 20 and grade 50.0 the checks as written accept, while the intended ones report "Name cannot contain numbers." |
| StudentForm.LineTerminatorHidesDigit | src/StudentManagementGUI.java:143-146 | the name "A\r1" contains a digit but does not match `.*\d.*` as written |
| StudentForm.MatchesDigitPattern | src/StudentManagementGUI.java:143 | `matches(".*\\d.*")` as written (also at :224): a match contains a digit, and for names without line terminators it matches iff the name contains a digit |
| StudentForm.StudentExists | src/StudentManagementGUI.java:182-188 | the flag is true iff some listed student's ID equals the input |
| StudentForm.AddResult | src/StudentManagementGUI.java:123-165 | the add handler reports success iff both numbers parse, the record is well formed and the ID is free; then the message is the success text and the row is appended; otherwise the table is unchanged and the message is "Invalid input format" when a number does not parse, else the first failing field check's message, else `Error: ` followed by the store's duplicate-ID message |
| StudentForm.RemoveResult | src/StudentManagementGUI.java:168-201 | the remove handler reports success iff the ID is five digits and listed; then the message is the success text and the ID's rows are deleted; otherwise the table is unchanged and the message is the ID check's message, or "not found" with the ID for a well-formed ID that is not listed |
| StudentForm.UpdateResult | src/StudentManagementGUI.java:204-261 | the update handler reports success iff both numbers parse, the record is well formed and the ID is listed; then the message is the success text and the ID's row is rewritten; otherwise the table is unchanged and the message is "Invalid input format" when a number does not parse, else the first failing field check's message, else "not found" with the ID |
| StudentForm.ParseFailureFirst | src/StudentManagementGUI.java:127-161 | an unparsable age or grade gives "Invalid input format" and leaves the table unchanged, whatever the other fields hold |
| StudentForm.HandleGate | src/StudentManagementGUI.java:123-261 | a press reports success iff it parses, validates and passes the ID check (free for add, listed for remove and update); then the table is exactly the store operation's result with the form's own fields; otherwise the table is unchanged |
| StudentForm.HandleKeepsInvariant | src/StudentManagementGUI.java:123-261 | one press keeps the key constraint and keeps every row well formed |
| StudentForm.SessionKeepsInvariant | src/StudentManagementGUI.java:123-261 | every sequence of presses keeps the key constraint and keeps every row well formed |
| StudentForm.AddThenRemove | src/StudentManagementGUI.java:157-197 | removing the ID of a student just added reports success and restores the table |
| StudentForm.ManagementForm.constructor | src/StudentManagementGUI.java:14-15 | the form owns a new store over the existing rows, and the output area is empty |
| StudentForm.ManagementForm.AddStudent | src/StudentManagementGUI.java:123-165 | output text and table are those of `AddResult`: parse, then validation, then the store's duplicate check |
| StudentForm.ManagementForm.RemoveStudent | src/StudentManagementGUI.java:168-201 | output text and table are those of `RemoveResult`: ID checks, then the scan over the listed students, then the store |
| StudentForm.ManagementForm.UpdateStudent | src/StudentManagementGUI.java:204-261 | output text and table are those of `UpdateResult`: parse, validation, scan, then the store |

## Findings

| source | as written | input that shows it | evidently intended | confidence | as-written member | corrected member |
|---|---|---|---|---|---|---|
| src/StudentManagementGUI.java:143 | `name.matches(".*\\d.*")` must match the whole name, and `.` matches no line terminator (`\n`, `\r`, U+0085, U+2028, U+2029), so a name with a digit and a line terminator is accepted | ID `"12345"`, name `"A\r1"`, age 20, grade 50.0 | reject every name that contains a digit ("Name cannot contain numbers.") | not executed; medium (a Swing text field filters `\n` but not `\r` or U+2028) | StudentForm.AsWrittenAcceptsDigitInName | StudentForm.ValidateFields |

The same pattern is used in the update handler (src/StudentManagementGUI.java:224).
`MatchesDigitPattern` models the pattern as written, and
`ValidateFieldsAsWritten` the checks that use it. `ValidateFields` and
everything built on it use the intended `ContainsDigit`.

## Left out

- Swing: the frame, panels, buttons, listeners and `main` are not modelled. The output area is the `output` field.
- The "Display All Students" and "Calculate Average" buttons are left out (src/StudentManagementGUI.java:264-277). They format each student with `%.2f` in `Student.toString` and the average with Java's `double` printing. Floating-point formatting is not modelled; the data they show is that of `DisplayAllStudents` and `CalculateAverageGrade`.
- `Student.toString` is left out for the same reason.
- JDBC is replaced by the `table` field: the connection, `CREATE TABLE IF NOT EXISTS` and `closeConnection`. The constructor of the store takes the rows already on disk as a parameter.
- Console output (`System.out` and `System.err`) is I/O and is not modelled. This includes the "not found" lines of remove and update.
- Remove, update, display and average catch `SQLException` and carry on. These are storage-library failures and are not modelled.
- Floating point: grade is a `real`. Java's `double` rounding and SQLite's `AVG` rounding are not modelled. Nor is NaN: `Double.parseDouble("NaN")` yields a value that passes the range check, because both comparisons are false, and a `real` has no such value.
- `Integer.parseInt` and `Double.parseDouble` are library calls. Their outcome is an `Option` parameter, so which texts they accept is not modelled. For example, `Double.parseDouble` accepts surrounding blanks and `parseInt` does not.
- The `null` checks on the text fields are dropped: a `JTextField` never returns `null`, and Dafny strings cannot be null.
- Characters are Dafny's Unicode scalar values, not Java's UTF-16 code units. Only characters up to U+0020, ASCII digits and the line terminators `\n`, `\r`, U+0085, U+2028 and U+2029 matter to the checks, and all of them lie in the Basic Multilingual Plane, where the two agree.
- `src/StudentManager.java` is the interface the store implements. It has no logic, and its five operations are the methods of `StudentManager`.
- The getters are functions that read one field each. What they return is stated through the constructor's and the setters' contracts.
- ValidateFields, FirstFailureReported, AddResult, UpdateResult, ManagementForm.AddStudent, ManagementForm.UpdateStudent, HandleGate, HandleKeepsInvariant and SessionKeepsInvariant use the intended name check `ContainsDigit`, not the pattern as written; with the pattern as written, a name holding a digit after a line terminator would be accepted and stored.
- Concurrency: the store assumes one user and one process, and so does the model.
