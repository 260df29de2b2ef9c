/** The form behind the buttons "Add Student", "Remove Student" and
    "Update Student": each handler reads the text fields, validates them,
    reports the first failed check in the output area, and only then calls
    the store. The text fields are parameters, the output area is a field,
    and the outcome of parsing the age and grade fields is an `Option`. */
module StudentForm {
  import opened Wrappers
  import opened StudentRecord
  import opened StudentStore

  const EmptyIdMessage := "Error: Student ID cannot be empty."
  const IdFormatMessage := "Error: Student ID must contain exactly 5 digits."
  const EmptyNameMessage := "Error: Name cannot be empty."
  const NameDigitMessage := "Error: Name cannot contain numbers."
  const AgeMessage := "Error: Age must be positive."
  const GradeMessage := "Error: Grade must be between 0.0 and 100.0."
  const FormatMessage := "Error: Invalid input format."
  const AddedMessage := "Student added successfully."
  const RemovedMessage := "Student removed successfully."
  const UpdatedMessage := "Student updated successfully."

  function NotFoundMessage(studentID: string): string
  {
    "Error: Student with ID " + studentID + " does not exist."
  }

  /** A message in the output area that reports a failure. */
  predicate IsError(message: string)
  {
    "Error: " <= message
  }

  // ----- String.trim -----

  /** Drops the leading characters at or below U+0020. */
  function TrimStart(s: string): (r: string)
    ensures |r| <= |s| && r == s[|s| - |r|..]
    ensures forall k :: 0 <= k < |s| - |r| ==> s[k] <= ' '
    ensures r != [] ==> r[0] > ' '
  {
    if s != [] && s[0] <= ' ' then TrimStart(s[1..]) else s
  }

  /** Drops the trailing characters at or below U+0020. */
  function TrimEnd(s: string): (r: string)
    ensures |r| <= |s| && r == s[..|r|]
    ensures forall k :: |r| <= k < |s| ==> s[k] <= ' '
    ensures r != [] ==> r[|r| - 1] > ' '
  {
    if s != [] && s[|s| - 1] <= ' ' then TrimEnd(s[..|s| - 1]) else s
  }

  /** Java's `String.trim`: nothing is left exactly when the string is
      blank, and what is left starts and ends above U+0020. */
  function Trim(s: string): (r: string)
    ensures |r| <= |s|
    ensures r == [] <==> IsBlank(s)
    ensures r != [] ==> r[0] > ' ' && r[|r| - 1] > ' '
  {
    var t := TrimStart(s);
    assert t != [] ==> t[0] == s[|s| - |t|];
    TrimEnd(t)
  }

  /** What `trim()` leaves is one contiguous piece of the string. */
  lemma TrimIsSlice(s: string)
    ensures exists a, b :: 0 <= a <= b <= |s| && Trim(s) == s[a..b]
  {
    var t := TrimStart(s);
    var a := |s| - |t|;
    assert t == s[a..];
    assert TrimEnd(t) == s[a..a + |TrimEnd(t)|];
  }

  /** The string has no character above U+0020: what `s.trim().isEmpty()`
      decides (see Trim). */
  predicate IsBlank(s: string)
  {
    forall i :: 0 <= i < |s| ==> s[i] <= ' '
  }

  // ----- Field checks -----

  /** `\d` in a Java regular expression: an ASCII digit. */
  predicate IsDigit(c: char)
  {
    '0' <= c <= '9'
  }

  /** `s.matches("\\d{5}")`. A well-formed ID is never blank, so the blank
      check before it only decides which of the two ID messages is shown. */
  function IsFiveDigits(s: string): (r: bool)
    ensures r ==> !IsBlank(s)
  {
    var r := |s| == 5 && forall i :: 0 <= i < 5 ==> IsDigit(s[i]);
    assert r ==> IsDigit(s[0]);
    r
  }

  /** The characters the `.` of a Java regular expression does not match. */
  predicate IsLineTerminator(c: char)
  {
    c == '\n' || c == '\r' || c == '\U{85}' || c == '\U{2028}' || c == '\U{2029}'
  }

  /** `name.matches(".*\\d.*")` as written: the whole name must match, and
      `.` stops at a line terminator. A match always has a digit, and
      without line terminators the pattern finds every digit. */
  function MatchesDigitPattern(name: string): (r: bool)
    ensures r ==> ContainsDigit(name)
    ensures (forall i :: 0 <= i < |name| ==> !IsLineTerminator(name[i])) ==> (r <==> ContainsDigit(name))
  {
    (forall i :: 0 <= i < |name| ==> !IsLineTerminator(name[i]))
    && exists i :: 0 <= i < |name| && IsDigit(name[i])
  }

  /** What the check is for: the name has a digit somewhere. */
  predicate ContainsDigit(name: string)
  {
    exists i :: 0 <= i < |name| && IsDigit(name[i])
  }

  /** The pattern as written lets a digit through once a line terminator
      is in the name. */
  lemma LineTerminatorHidesDigit()
    ensures ContainsDigit("A\r1") && !MatchesDigitPattern("A\r1")
  {
    var name := "A\r1";
    assert IsDigit(name[2]);
    assert IsLineTerminator(name[1]);
  }

  /** A record the form accepts: an ID of exactly five ASCII digits, a
      name with a visible character and no digit, a positive age, and a
      grade in [0.0, 100.0]. */
  ghost predicate WellFormed(r: Record)
  {
    && IsFiveDigits(r.studentID)
    && !IsBlank(r.name)
    && !ContainsDigit(r.name)
    && r.age > 0
    && 0.0 <= r.grade <= 100.0
  }

  /** The two ID checks every handler runs first. */
  function ValidateId(studentID: string): (problem: Option<string>)
    ensures problem.None? <==> IsFiveDigits(studentID)
    ensures problem == Some(EmptyIdMessage) <==> IsBlank(studentID)
    ensures problem.Some? ==> problem == Some(EmptyIdMessage) || problem == Some(IdFormatMessage)
  {
    if IsBlank(studentID) then
      Some(EmptyIdMessage)
    else if !IsFiveDigits(studentID) then
      Some(IdFormatMessage)
    else
      None
  }

  /** All checks of the add and update handlers, in their order; the first
      that fails gives the message. */
  function ValidateFields(studentID: string, name: string, age: int32, grade: real): (problem: Option<string>)
    ensures problem.None? <==> WellFormed(Record(name, age, grade, studentID))
    ensures problem.Some? ==> IsError(problem.value)
  {
    match ValidateId(studentID)
    case Some(m) => Some(m)
    case None =>
      if IsBlank(name) then Some(EmptyNameMessage)
      else if ContainsDigit(name) then Some(NameDigitMessage)
      else if age <= 0 then Some(AgeMessage)
      else if grade < 0.0 || grade > 100.0 then Some(GradeMessage)
      else None
  }

  /** Only the first failing check is reported: each message appears
      exactly when its check fails and every earlier one passes. */
  lemma FirstFailureReported(studentID: string, name: string, age: int32, grade: real)
    ensures var problem := ValidateFields(studentID, name, age, grade);
      && (problem == Some(EmptyIdMessage) <==> IsBlank(studentID))
      && (problem == Some(IdFormatMessage) <==> !IsBlank(studentID) && !IsFiveDigits(studentID))
      && (problem == Some(EmptyNameMessage) <==> IsFiveDigits(studentID) && IsBlank(name))
      && (problem == Some(NameDigitMessage) <==> IsFiveDigits(studentID) && !IsBlank(name) && ContainsDigit(name))
      && (problem == Some(AgeMessage) <==>
            IsFiveDigits(studentID) && !IsBlank(name) && !ContainsDigit(name) && age <= 0)
      && (problem == Some(GradeMessage) <==>
            IsFiveDigits(studentID) && !IsBlank(name) && !ContainsDigit(name) && age > 0 && !(0.0 <= grade <= 100.0))
  {
  }

  /** The field checks with the name's digit check as the handlers write
      it, `name.matches(".*\\d.*")`. It accepts exactly the records whose
      checks pass with that pattern, which includes everything
      ValidateFields accepts, and reports the same kind of text. */
  function ValidateFieldsAsWritten(studentID: string, name: string, age: int32, grade: real): (problem: Option<string>)
    ensures problem.None? <==>
      IsFiveDigits(studentID) && !IsBlank(name) && !MatchesDigitPattern(name) && age > 0 && 0.0 <= grade <= 100.0
    ensures ValidateFields(studentID, name, age, grade).None? ==> problem.None?
    ensures problem.Some? ==> IsError(problem.value)
  {
    match ValidateId(studentID)
    case Some(m) => Some(m)
    case None =>
      if IsBlank(name) then Some(EmptyNameMessage)
      else if MatchesDigitPattern(name) then Some(NameDigitMessage)
      else if age <= 0 then Some(AgeMessage)
      else if grade < 0.0 || grade > 100.0 then Some(GradeMessage)
      else None
  }

  /** A name with a carriage return before its digit passes the check as
      written, and is refused by the intended one. */
  lemma AsWrittenAcceptsDigitInName()
    ensures ValidateFieldsAsWritten("12345", "A\r1", 20, 50.0) == None
    ensures ValidateFields("12345", "A\r1", 20, 50.0) == Some(NameDigitMessage)
  {
    LineTerminatorHidesDigit();
    var id := "12345";
    assert IsFiveDigits(id) by {
      assert forall i :: 0 <= i < 5 ==> IsDigit(id[i]);
    }
    assert !IsBlank("A\r1") by {
      assert "A\r1"[0] > ' ';
    }
  }

  /** The loop that looks for a listed student with the ID. */
  method StudentExists(students: seq<Student>, studentID: string) returns (found: bool)
    ensures found <==> exists i :: 0 <= i < |students| && students[i].studentID == studentID
  {
    found := false;
    for i := 0 to |students|
      invariant forall k :: 0 <= k < i ==> students[k].studentID != studentID
    {
      if students[i].GetStudentID() == studentID {
        found := true;
        break;
      }
    }
  }

  // ----- The handlers as a state machine over the table -----

  /** What a handler leaves behind: the output text and the table. */
  datatype FormResult = FormResult(message: string, table: seq<Record>)

  /** A button press with the field contents at that moment. */
  datatype Action =
    | AddPressed(studentID: string, name: string, age: Option<int32>, grade: Option<real>)
    | RemovePressed(studentID: string)
    | UpdatePressed(studentID: string, name: string, age: Option<int32>, grade: Option<real>)

  /** Which of the fixed texts read as errors. */
  lemma MessagesClassified(studentID: string)
    ensures IsError(FormatMessage) && IsError("Error: " + DuplicateIdError) && IsError(NotFoundMessage(studentID))
    ensures IsError(EmptyIdMessage) && IsError(IdFormatMessage)
    ensures !IsError(AddedMessage) && !IsError(RemovedMessage) && !IsError(UpdatedMessage)
  {
    assert AddedMessage[0] == RemovedMessage[0] == UpdatedMessage[0] == 'S';
  }

  /** The add handler: it reports success exactly when both numbers parse,
      the fields are well formed and the ID is free, and only then appends
      the record; otherwise the table stays and the message is the first
      failure: the parse error, the first failing check, or the store's
      duplicate-ID exception. */
  function AddResult(table: seq<Record>, studentID: string, name: string, age: Option<int32>, grade: Option<real>): (r: FormResult)
    ensures !IsError(r.message) <==>
      age.Some? && grade.Some? && WellFormed(Record(name, age.value, grade.value, studentID)) && !HasId(table, studentID)
    ensures !IsError(r.message) ==>
      r.message == AddedMessage && r.table == table + [Record(name, age.value, grade.value, studentID)]
    ensures IsError(r.message) ==> r.table == table
    ensures age.None? || grade.None? ==> r.message == FormatMessage
    ensures age.Some? && grade.Some? && ValidateFields(studentID, name, age.value, grade.value).Some? ==>
      r.message == ValidateFields(studentID, name, age.value, grade.value).value
    ensures age.Some? && grade.Some? && ValidateFields(studentID, name, age.value, grade.value).None? && HasId(table, studentID) ==>
      r.message == "Error: " + DuplicateIdError
  {
    MessagesClassified(studentID);
    if age.None? || grade.None? then FormResult(FormatMessage, table)
    else match ValidateFields(studentID, name, age.value, grade.value)
      case Some(m) => FormResult(m, table)
      case None =>
        if HasId(table, studentID) then FormResult("Error: " + DuplicateIdError, table)
        else FormResult(AddedMessage, table + [Record(name, age.value, grade.value, studentID)])
  }

  /** The remove handler: it reports success exactly when the ID is well
      formed and listed, and only then deletes the rows with that ID;
      otherwise it shows the ID check's message or "not found". */
  function RemoveResult(table: seq<Record>, studentID: string): (r: FormResult)
    ensures !IsError(r.message) <==> IsFiveDigits(studentID) && HasId(table, studentID)
    ensures !IsError(r.message) ==> r.message == RemovedMessage && r.table == Delete(table, studentID)
    ensures IsError(r.message) ==> r.table == table
    ensures ValidateId(studentID).Some? ==> r.message == ValidateId(studentID).value
    ensures IsFiveDigits(studentID) && !HasId(table, studentID) ==> r.message == NotFoundMessage(studentID)
  {
    MessagesClassified(studentID);
    match ValidateId(studentID)
    case Some(m) => FormResult(m, table)
    case None =>
      if !HasId(table, studentID) then FormResult(NotFoundMessage(studentID), table)
      else FormResult(RemovedMessage, Delete(table, studentID))
  }

  /** The update handler: it reports success exactly when both numbers
      parse, the fields are well formed and the ID is listed, and only then
      rewrites the row with that ID; otherwise the table stays and the
      message is the parse error, the first failing check, or "not found". */
  function UpdateResult(table: seq<Record>, studentID: string, name: string, age: Option<int32>, grade: Option<real>): (r: FormResult)
    ensures !IsError(r.message) <==>
      age.Some? && grade.Some? && WellFormed(Record(name, age.value, grade.value, studentID)) && HasId(table, studentID)
    ensures !IsError(r.message) ==>
      r.message == UpdatedMessage && r.table == Update(table, Record(name, age.value, grade.value, studentID))
    ensures IsError(r.message) ==> r.table == table
    ensures age.None? || grade.None? ==> r.message == FormatMessage
    ensures age.Some? && grade.Some? && ValidateFields(studentID, name, age.value, grade.value).Some? ==>
      r.message == ValidateFields(studentID, name, age.value, grade.value).value
    ensures age.Some? && grade.Some? && ValidateFields(studentID, name, age.value, grade.value).None? && !HasId(table, studentID) ==>
      r.message == NotFoundMessage(studentID)
  {
    MessagesClassified(studentID);
    if age.None? || grade.None? then FormResult(FormatMessage, table)
    else match ValidateFields(studentID, name, age.value, grade.value)
      case Some(m) => FormResult(m, table)
      case None =>
        if !HasId(table, studentID) then FormResult(NotFoundMessage(studentID), table)
        else FormResult(UpdatedMessage, Update(table, Record(name, age.value, grade.value, studentID)))
  }

  function Handle(table: seq<Record>, action: Action): FormResult
  {
    match action
    case AddPressed(id, name, age, grade) => AddResult(table, id, name, age, grade)
    case RemovePressed(id) => RemoveResult(table, id)
    case UpdatePressed(id, name, age, grade) => UpdateResult(table, id, name, age, grade)
  }

  /** The table after a sequence of button presses. */
  function Session(table: seq<Record>, actions: seq<Action>): seq<Record>
    decreases |actions|
  {
    if actions == [] then table else Session(Handle(table, actions[0]).table, actions[1..])
  }

  /** The press passes every gate in front of the store: both numbers
      parse, every field check passes, and the ID is free (add) or listed
      (remove, update). */
  ghost predicate Accepted(table: seq<Record>, action: Action)
  {
    match action
    case AddPressed(id, name, age, grade) =>
      age.Some? && grade.Some? && WellFormed(Record(name, age.value, grade.value, id)) && !HasId(table, id)
    case RemovePressed(id) =>
      IsFiveDigits(id) && HasId(table, id)
    case UpdatePressed(id, name, age, grade) =>
      age.Some? && grade.Some? && WellFormed(Record(name, age.value, grade.value, id)) && HasId(table, id)
  }

  /** The store operation an accepted press performs. */
  function StoreEffect(table: seq<Record>, action: Action): seq<Record>
  {
    match action
    case AddPressed(id, name, age, grade) =>
      if age.Some? && grade.Some? then table + [Record(name, age.value, grade.value, id)] else table
    case RemovePressed(id) => Delete(table, id)
    case UpdatePressed(id, name, age, grade) =>
      if age.Some? && grade.Some? then Update(table, Record(name, age.value, grade.value, id)) else table
  }

  /** An unparsable age or grade wins over every other check. */
  lemma ParseFailureFirst(table: seq<Record>, action: Action)
    requires !action.RemovePressed?
    requires action.age.None? || action.grade.None?
    ensures Handle(table, action) == FormResult(FormatMessage, table)
  {
  }

  /** The gate: a press reports success exactly when it is accepted; an
      accepted press applies its store operation, and any other press
      leaves the table alone and shows an error. */
  lemma HandleGate(table: seq<Record>, action: Action)
    ensures !IsError(Handle(table, action).message) <==> Accepted(table, action)
    ensures Accepted(table, action) ==> Handle(table, action).table == StoreEffect(table, action)
    ensures !Accepted(table, action) ==> Handle(table, action).table == table
  {
  }

  /** What the rows of the table satisfy as long as every change comes
      through the form. */
  ghost predicate TableInvariant(table: seq<Record>)
  {
    UniqueIds(table) && forall i :: 0 <= i < |table| ==> WellFormed(table[i])
  }

  lemma HandleKeepsInvariant(table: seq<Record>, action: Action)
    requires TableInvariant(table)
    ensures TableInvariant(Handle(table, action).table)
  {
    HandleGate(table, action);
    if Accepted(table, action) {
      match action
      case AddPressed(id, name, age, grade) =>
        InsertFresh(table, Record(name, age.value, grade.value, id));
      case RemovePressed(id) =>
        DeleteKeepsUnique(table, id);
        var d := Delete(table, id);
        forall i | 0 <= i < |d| ensures WellFormed(d[i]) {
          assert d[i] in table;
        }
      case UpdatePressed(id, name, age, grade) =>
        UpdateKeepsUnique(table, Record(name, age.value, grade.value, id));
    }
  }

  /** Any sequence of button presses keeps the key constraint and keeps
      every row well formed. */
  lemma {:induction false} SessionKeepsInvariant(table: seq<Record>, actions: seq<Action>)
    requires TableInvariant(table)
    ensures TableInvariant(Session(table, actions))
    decreases |actions|
  {
    if actions != [] {
      HandleKeepsInvariant(table, actions[0]);
      SessionKeepsInvariant(Handle(table, actions[0]).table, actions[1..]);
    }
  }

  lemma {:induction false} DeleteLast(table: seq<Record>, r: Record)
    requires !HasId(table, r.studentID)
    ensures Delete(table + [r], r.studentID) == table
  {
    if table == [] {
      assert [r][1..] == [];
    } else {
      HasIdCons(table, r.studentID);
      DeleteLast(table[1..], r);
      assert (table + [r])[1..] == table[1..] + [r];
    }
  }

  /** Removing the ID of a student just added undoes the add. */
  lemma AddThenRemove(table: seq<Record>, studentID: string, name: string, age: Option<int32>, grade: Option<real>)
    requires Handle(table, AddPressed(studentID, name, age, grade)).message == AddedMessage
    ensures Handle(Handle(table, AddPressed(studentID, name, age, grade)).table, RemovePressed(studentID)) ==
            FormResult(RemovedMessage, table)
  {
    var r := Record(name, age.value, grade.value, studentID);
    var t := table + [r];
    assert t[|table|] == r;
    DeleteLast(table, r);
  }

  /** The window's state: the store it owns and the output area. */
  class ManagementForm {
    const studentManager: StudentManager
    var output: string

    ghost predicate Valid()
      reads this, studentManager
    {
      studentManager.Valid()
    }

    constructor (stored: seq<Record>)
      requires UniqueIds(stored)
      ensures Valid() && fresh(studentManager)
      ensures studentManager.table == stored && output == ""
    {
      studentManager := new StudentManager(stored);
      output := "";
    }

    method AddStudent(studentID: string, name: string, age: Option<int32>, grade: Option<real>)
      requires Valid()
      modifies this, studentManager
      ensures Valid()
      ensures FormResult(output, studentManager.table) == AddResult(old(studentManager.table), studentID, name, age, grade)
    {
      if age.None? || grade.None? {
        output := FormatMessage;
        return;
      }
      var problem := ValidateFields(studentID, name, age.value, grade.value);
      if problem.Some? {
        output := problem.value;
        return;
      }
      var student := new Student(name, age.value, grade.value, studentID);
      var thrown := studentManager.AddStudent(student);
      if thrown.Some? {
        output := "Error: " + thrown.value;
        return;
      }
      output := AddedMessage;
    }

    method RemoveStudent(studentID: string)
      requires Valid()
      modifies this, studentManager
      ensures Valid()
      ensures FormResult(output, studentManager.table) == RemoveResult(old(studentManager.table), studentID)
    {
      var problem := ValidateId(studentID);
      if problem.Some? {
        output := problem.value;
        return;
      }
      var students := studentManager.DisplayAllStudents();
      var studentExists := StudentExists(students, studentID);
      assert studentExists <==> HasId(studentManager.table, studentID);
      if !studentExists {
        output := NotFoundMessage(studentID);
        return;
      }
      studentManager.RemoveStudent(studentID);
      output := RemovedMessage;
    }

    method UpdateStudent(studentID: string, name: string, age: Option<int32>, grade: Option<real>)
      requires Valid()
      modifies this, studentManager
      ensures Valid()
      ensures FormResult(output, studentManager.table) == UpdateResult(old(studentManager.table), studentID, name, age, grade)
    {
      if age.None? || grade.None? {
        output := FormatMessage;
        return;
      }
      var problem := ValidateFields(studentID, name, age.value, grade.value);
      if problem.Some? {
        output := problem.value;
        return;
      }
      var students := studentManager.DisplayAllStudents();
      var studentExists := StudentExists(students, studentID);
      assert studentExists <==> HasId(studentManager.table, studentID);
      if !studentExists {
        output := NotFoundMessage(studentID);
        return;
      }
      var student := new Student(name, age.value, grade.value, studentID);
      studentManager.UpdateStudent(student);
      output := UpdatedMessage;
    }
  }
}
