/** The row type of the student table: a mutable four-field object
    (name, age, grade, student ID) and the value it denotes. */
module StudentRecord {

  /** Java's 32-bit `int`, the type of a student's age. */
  newtype int32 = x: int | -0x8000_0000 <= x < 0x8000_0000

  /** One row of the table, as a value: what the store keeps and what a
      `Student` object holds at a given moment. */
  datatype Record = Record(name: string, age: int32, grade: real, studentID: string)

  /** A student object. Its fields are changed in place by the setters;
      neither the constructor nor a setter checks its argument. */
  class Student {
    var name: string
    var age: int32
    var grade: real
    var studentID: string

    /** The arguments are stored in parameter order: name, age, grade, ID. */
    constructor (name: string, age: int32, grade: real, studentID: string)
      ensures Value() == Record(name, age, grade, studentID)
      ensures GetName() == name && GetAge() == age
      ensures GetGrade() == grade && GetStudentID() == studentID
    {
      this.name := name;
      this.age := age;
      this.grade := grade;
      this.studentID := studentID;
    }

    /** The current field values of this object. */
    function Value(): Record
      reads this
    {
      Record(name, age, grade, studentID)
    }

    function GetName(): string
      reads this
    {
      name
    }

    function GetAge(): int32
      reads this
    {
      age
    }

    function GetGrade(): real
      reads this
    {
      grade
    }

    function GetStudentID(): string
      reads this
    {
      studentID
    }

    method SetName(name: string)
      modifies this
      ensures GetName() == name
      ensures Value() == old(Value()).(name := name)
    {
      this.name := name;
    }

    method SetAge(age: int32)
      modifies this
      ensures GetAge() == age
      ensures Value() == old(Value()).(age := age)
    {
      this.age := age;
    }

    method SetGrade(grade: real)
      modifies this
      ensures GetGrade() == grade
      ensures Value() == old(Value()).(grade := grade)
    {
      this.grade := grade;
    }

    method SetStudentID(studentID: string)
      modifies this
      ensures GetStudentID() == studentID
      ensures Value() == old(Value()).(studentID := studentID)
    {
      this.studentID := studentID;
    }
  }
}
