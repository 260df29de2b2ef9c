/** The student store: one table `students(name, age, grade, studentID)`
    whose primary key is `studentID`. The table is modelled as the
    sequence of its rows; the order of the sequence stands for whatever
    order the storage engine returns, which the store does not specify. */
module StudentStore {
  import opened Wrappers
  import opened StudentRecord

  /** The message of the exception `addStudent` throws for a taken ID. */
  const DuplicateIdError := "Error adding student: Student ID already exists."

  /** `SELECT studentID FROM students WHERE studentID = ?` finds a row:
      the ID is a key of the keyed table. */
  function HasId(rows: seq<Record>, id: string): (found: bool)
    ensures found <==> id in AsMap(rows)
  {
    AsMapKeys(rows);
    exists i :: 0 <= i < |rows| && rows[i].studentID == id
  }

  /** The primary-key constraint: no two rows share a student ID. */
  ghost predicate UniqueIds(rows: seq<Record>)
  {
    forall i, j :: 0 <= i < |rows| && 0 <= j < |rows| && rows[i].studentID == rows[j].studentID ==> i == j
  }

  /** `DELETE FROM students WHERE studentID = ?`. */
  function Delete(rows: seq<Record>, id: string): (r: seq<Record>)
    ensures |r| <= |rows|
    ensures forall x :: x in r <==> x in rows && x.studentID != id
  {
    if rows == [] then []
    else (if rows[0].studentID == id then [] else [rows[0]]) + Delete(rows[1..], id)
  }

  /** `UPDATE students SET name = ?, age = ?, grade = ? WHERE studentID = ?`:
      the row keyed by the student's ID takes its name, age and grade, keeps
      its ID, and every other row stays as it was. */
  function Update(rows: seq<Record>, s: Record): (r: seq<Record>)
    ensures |r| == |rows|
    ensures forall i :: 0 <= i < |rows| ==> r[i].studentID == rows[i].studentID
    ensures forall i :: 0 <= i < |rows| ==> r[i] == if rows[i].studentID == s.studentID then s else rows[i]
  {
    if rows == [] then []
    else [if rows[0].studentID == s.studentID then rows[0].(name := s.name, age := s.age, grade := s.grade) else rows[0]]
         + Update(rows[1..], s)
  }

  /** The keyed view of a table: student ID to row. This is the reference
      meaning of the SQL statements above. */
  function AsMap(rows: seq<Record>): map<string, Record>
  {
    if rows == [] then map[] else AsMap(rows[1..])[rows[0].studentID := rows[0]]
  }

  /** Sum of the grade column. */
  function SumGrades(rows: seq<Record>): real
  {
    if rows == [] then 0.0 else rows[0].grade + SumGrades(rows[1..])
  }

  /** `SELECT AVG(grade) FROM students`, read with `getDouble`: the mean
      of the grades, and 0.0 (SQL NULL read as a double) on an empty table. */
  function AverageGrade(rows: seq<Record>): (average: real)
    ensures rows == [] ==> average == 0.0
    ensures rows != [] ==> average * (|rows| as real) == SumGrades(rows)
  {
    if |rows| == 0 then 0.0 else SumGrades(rows) / (|rows| as real)
  }

  // ----- The keyed view -----

  lemma HasIdCons(rows: seq<Record>, id: string)
    requires rows != []
    ensures HasId(rows, id) <==> rows[0].studentID == id || HasId(rows[1..], id)
  {
    if HasId(rows[1..], id) {
      var i :| 0 <= i < |rows[1..]| && rows[1..][i].studentID == id;
      assert rows[i + 1].studentID == id;
    }
    if HasId(rows, id) && rows[0].studentID != id {
      var i :| 0 <= i < |rows| && rows[i].studentID == id;
      assert rows[1..][i - 1].studentID == id;
    }
  }

  /** The keyed view has an entry for an ID exactly when some row
      carries it. */
  lemma {:induction false} AsMapKeys(rows: seq<Record>)
    ensures forall id :: id in AsMap(rows) <==> exists i :: 0 <= i < |rows| && rows[i].studentID == id
  {
    if rows != [] {
      var t := rows[1..];
      AsMapKeys(t);
      forall id
        ensures id in AsMap(rows) <==> exists i :: 0 <= i < |rows| && rows[i].studentID == id
      {
        if exists i :: 0 <= i < |t| && t[i].studentID == id {
          var i :| 0 <= i < |t| && t[i].studentID == id;
          assert rows[i + 1].studentID == id;
        }
        if exists i :: 0 <= i < |rows| && rows[i].studentID == id {
          var i :| 0 <= i < |rows| && rows[i].studentID == id;
          if i > 0 {
            assert t[i - 1].studentID == id;
          }
        }
      }
    }
  }

  /** The key constraint, taken apart at the first row. */
  lemma UniqueCons(rows: seq<Record>)
    requires rows != []
    ensures UniqueIds(rows) <==> UniqueIds(rows[1..]) && !HasId(rows[1..], rows[0].studentID)
  {
    var t := rows[1..];
    if UniqueIds(rows) {
      forall i | 0 <= i < |t| ensures t[i].studentID != rows[0].studentID {
        assert t[i] == rows[i + 1];
      }
      forall i, j | 0 <= i < |t| && 0 <= j < |t| && t[i].studentID == t[j].studentID
        ensures i == j
      {
        assert t[i] == rows[i + 1] && t[j] == rows[j + 1];
      }
    }
    if UniqueIds(t) && !HasId(t, rows[0].studentID) {
      forall i | 0 < i < |rows| ensures rows[i].studentID != rows[0].studentID {
        assert rows[i] == t[i - 1];
      }
      forall i, j | 0 < i < |rows| && 0 < j < |rows| && rows[i].studentID == rows[j].studentID
        ensures i == j
      {
        assert rows[i] == t[i - 1] && rows[j] == t[j - 1];
      }
    }
  }

  /** Under the key constraint every row is found in the keyed view under
      its own ID, and the view has as many entries as the table has rows:
      no row is lost or shown twice. */
  lemma {:induction false} AsMapExact(rows: seq<Record>)
    requires UniqueIds(rows)
    ensures |AsMap(rows)| == |rows|
    ensures forall i :: 0 <= i < |rows| ==> rows[i].studentID in AsMap(rows) && AsMap(rows)[rows[i].studentID] == rows[i]
  {
    if rows != [] {
      UniqueCons(rows);
      AsMapExact(rows[1..]);
      AsMapKeys(rows[1..]);
      forall i | 0 < i < |rows|
        ensures rows[i].studentID in AsMap(rows) && AsMap(rows)[rows[i].studentID] == rows[i]
      {
        assert rows[i] == rows[1..][i - 1];
      }
    }
  }

  // ----- Insertion -----

  /** Inserting a row whose ID is not taken keeps the key constraint and
      adds exactly that entry to the keyed view. */
  lemma {:induction false} InsertFresh(rows: seq<Record>, s: Record)
    requires UniqueIds(rows) && !HasId(rows, s.studentID)
    ensures UniqueIds(rows + [s])
    ensures s.studentID !in AsMap(rows)
    ensures AsMap(rows + [s]) == AsMap(rows)[s.studentID := s]
  {
    AsMapKeys(rows);
    var t := rows + [s];
    if rows == [] {
      assert t == [s];
    } else {
      UniqueCons(rows);
      HasIdCons(rows, s.studentID);
      InsertFresh(rows[1..], s);
      assert t[1..] == rows[1..] + [s];
      HasIdCons(t, rows[0].studentID);
      HasIdCons([s], rows[0].studentID);
      assert !HasId(t[1..], rows[0].studentID);
      UniqueCons(t);
    }
  }

  // ----- Deletion -----

  /** Deleting an ID that no row carries leaves the table as it was. */
  lemma {:induction false} DeleteAbsent(rows: seq<Record>, id: string)
    requires !HasId(rows, id)
    ensures Delete(rows, id) == rows
  {
    if rows != [] {
      HasIdCons(rows, id);
      DeleteAbsent(rows[1..], id);
    }
  }

  /** Every ID left after a deletion was there before, and it is not the
      deleted one. */
  lemma DeleteIds(rows: seq<Record>, id: string, k: string)
    ensures HasId(Delete(rows, id), k) <==> HasId(rows, k) && k != id
  {
    var d := Delete(rows, id);
    if HasId(d, k) {
      var i :| 0 <= i < |d| && d[i].studentID == k;
      assert d[i] in rows;
    }
    if HasId(rows, k) && k != id {
      var i :| 0 <= i < |rows| && rows[i].studentID == k;
      assert rows[i] in d;
    }
  }

  /** Deletion keeps the key constraint. */
  lemma {:induction false} DeleteKeepsUnique(rows: seq<Record>, id: string)
    requires UniqueIds(rows)
    ensures UniqueIds(Delete(rows, id))
  {
    if rows != [] {
      var x, t := rows[0], rows[1..];
      UniqueCons(rows);
      DeleteKeepsUnique(t, id);
      var d := Delete(t, id);
      if x.studentID != id {
        var r := [x] + d;
        assert Delete(rows, id) == r;
        assert r[1..] == d;
        DeleteIds(t, id, x.studentID);
        UniqueCons(r);
      }
    }
  }

  lemma RemoveAfterStore(m: map<string, Record>, k: string, v: Record, id: string)
    ensures m[k := v] - {id} == if k == id then m - {id} else (m - {id})[k := v]
  {
  }

  /** In the keyed view, deletion removes exactly the entry for the ID. */
  lemma {:induction false} DeleteKeyed(rows: seq<Record>, id: string)
    ensures AsMap(Delete(rows, id)) == AsMap(rows) - {id}
  {
    if rows != [] {
      var x, t := rows[0], rows[1..];
      DeleteKeyed(t, id);
      var d := Delete(t, id);
      RemoveAfterStore(AsMap(t), x.studentID, x, id);
      if x.studentID == id {
        assert Delete(rows, id) == d;
      } else {
        var r := [x] + d;
        assert Delete(rows, id) == r;
        assert r[1..] == d;
      }
    }
  }

  // ----- Update -----

  /** Updating an ID that no row carries leaves the table as it was. */
  lemma UpdateAbsent(rows: seq<Record>, s: Record)
    requires !HasId(rows, s.studentID)
    ensures Update(rows, s) == rows
  {
    var r := Update(rows, s);
    forall i | 0 <= i < |rows| ensures r[i] == rows[i] {
      assert rows[i].studentID != s.studentID;
    }
  }

  /** Update keeps the key constraint: it never changes an ID. */
  lemma UpdateKeepsUnique(rows: seq<Record>, s: Record)
    requires UniqueIds(rows)
    ensures UniqueIds(Update(rows, s))
  {
    var r := Update(rows, s);
    forall i, j | 0 <= i < |r| && 0 <= j < |r| && r[i].studentID == r[j].studentID
      ensures i == j
    {
      assert rows[i].studentID == rows[j].studentID;
    }
  }

  lemma StoreCommutes(m: map<string, Record>, k: string, v: Record, k': string, v': Record)
    requires k != k'
    ensures m[k := v][k' := v'] == m[k' := v'][k := v]
  {
  }

  /** In the keyed view, update replaces the entry for the student's ID
      when there is one and changes nothing otherwise. */
  lemma {:induction false} UpdateKeyed(rows: seq<Record>, s: Record)
    ensures AsMap(Update(rows, s)) == if s.studentID in AsMap(rows) then AsMap(rows)[s.studentID := s] else AsMap(rows)
  {
    if rows != [] {
      var r := Update(rows, s);
      var x, t := rows[0], rows[1..];
      UpdateKeyed(t, s);
      var u := Update(t, s);
      assert r == [r[0]] + u;
      assert r[1..] == u;
      var m := AsMap(t);
      assert AsMap(rows) == m[x.studentID := x];
      if x.studentID == s.studentID {
        assert r[0] == s;
        assert AsMap(r) == AsMap(u)[s.studentID := s];
      } else {
        assert r[0] == x;
        assert AsMap(r) == AsMap(u)[x.studentID := x];
        if s.studentID in m {
          StoreCommutes(m, s.studentID, s, x.studentID, x);
        }
      }
    }
  }

  // ----- Average -----

  lemma {:induction false} SumBounds(rows: seq<Record>, lo: real, hi: real)
    requires forall i :: 0 <= i < |rows| ==> lo <= rows[i].grade <= hi
    ensures (|rows| as real) * lo <= SumGrades(rows) <= (|rows| as real) * hi
  {
    if rows != [] {
      SumBounds(rows[1..], lo, hi);
    }
  }

  lemma QuotientWithin(sum: real, n: real, lo: real, hi: real)
    requires n > 0.0 && n * lo <= sum <= n * hi
    ensures lo <= sum / n <= hi
  {
    var q := sum / n;
    assert sum == q * n;
  }

  /** The average lies between any bounds that hold of every grade, so a
      table of grades in [0.0, 100.0] has an average in that range. */
  lemma AverageWithin(rows: seq<Record>, lo: real, hi: real)
    requires rows != []
    requires forall i :: 0 <= i < |rows| ==> lo <= rows[i].grade <= hi
    ensures lo <= AverageGrade(rows) <= hi
  {
    SumBounds(rows, lo, hi);
    QuotientWithin(SumGrades(rows), |rows| as real, lo, hi);
  }

  lemma {:induction false} SumRemove(rows: seq<Record>, k: nat)
    requires k < |rows|
    ensures SumGrades(rows) == rows[k].grade + SumGrades(rows[..k] + rows[k + 1..])
  {
    if k > 0 {
      SumRemove(rows[1..], k - 1);
      assert rows[..k] + rows[k + 1..] == [rows[0]] + (rows[1..][..k - 1] + rows[1..][k..]);
    } else {
      assert rows[..k] + rows[k + 1..] == rows[1..];
    }
  }

  lemma MultisetRemoveAt(b: seq<Record>, k: nat)
    requires k < |b|
    ensures multiset(b[..k] + b[k + 1..]) == multiset(b) - multiset{b[k]}
  {
    assert b == b[..k] + [b[k]] + b[k + 1..];
  }

  /** The sum does not depend on the order of the rows. */
  lemma {:induction false} SumPermutation(a: seq<Record>, b: seq<Record>)
    requires multiset(a) == multiset(b)
    ensures SumGrades(a) == SumGrades(b)
  {
    if a == [] {
      assert |b| == |multiset(b)| == 0;
    } else {
      assert a[0] in multiset(b);
      var k :| 0 <= k < |b| && b[k] == a[0];
      MultisetRemoveAt(b, k);
      assert a == [a[0]] + a[1..];
      assert multiset(a[1..]) == multiset(a) - multiset{a[0]};
      SumPermutation(a[1..], b[..k] + b[k + 1..]);
      SumRemove(b, k);
    }
  }

  /** The average does not depend on the order in which the storage engine
      keeps the rows. */
  lemma AverageOrderIndependent(a: seq<Record>, b: seq<Record>)
    requires multiset(a) == multiset(b)
    ensures AverageGrade(a) == AverageGrade(b)
  {
    SumPermutation(a, b);
    assert |a| == |multiset(a)| == |multiset(b)| == |b|;
  }

  /** The store: owns the (modelled) table for its lifetime. */
  class StudentManager {
    var table: seq<Record>

    ghost predicate Valid()
      reads this
    {
      UniqueIds(table)
    }

    /** Opening the store finds whatever the table already holds; the
        engine's primary key guarantees those rows have distinct IDs. */
    constructor (stored: seq<Record>)
      requires UniqueIds(stored)
      ensures Valid() && table == stored
    {
      table := stored;
    }

    /** Checks for the ID, then inserts; a taken ID throws. */
    method AddStudent(student: Student) returns (thrown: Option<string>)
      requires Valid()
      modifies this
      ensures Valid()
      ensures thrown.Some? <==> HasId(old(table), student.studentID)
      ensures thrown.Some? ==> thrown.value == DuplicateIdError && table == old(table)
      ensures thrown.None? ==> table == old(table) + [student.Value()]
      ensures thrown.None? ==> AsMap(table) == AsMap(old(table))[student.studentID := student.Value()]
    {
      if HasId(table, student.GetStudentID()) {
        return Some(DuplicateIdError);
      }
      InsertFresh(table, student.Value());
      table := table + [Record(student.GetName(), student.GetAge(), student.GetGrade(), student.GetStudentID())];
      thrown := None;
    }

    /** Deletes the row with the ID; an absent ID changes nothing. */
    method RemoveStudent(studentID: string)
      requires Valid()
      modifies this
      ensures Valid()
      ensures table == Delete(old(table), studentID)
      ensures forall r :: r in table <==> r in old(table) && r.studentID != studentID
      ensures AsMap(table) == AsMap(old(table)) - {studentID}
      ensures !HasId(old(table), studentID) ==> table == old(table)
    {
      DeleteKeepsUnique(table, studentID);
      DeleteKeyed(table, studentID);
      if !HasId(table, studentID) {
        DeleteAbsent(table, studentID);
      }
      table := Delete(table, studentID);
    }

    /** Overwrites name, age and grade of the row with the student's ID;
        an absent ID changes nothing. */
    method UpdateStudent(student: Student)
      requires Valid()
      modifies this
      ensures Valid()
      ensures table == Update(old(table), student.Value())
      ensures AsMap(table) == if student.studentID in AsMap(old(table))
                              then AsMap(old(table))[student.studentID := student.Value()]
                              else AsMap(old(table))
      ensures !HasId(old(table), student.studentID) ==> table == old(table)
    {
      UpdateKeepsUnique(table, student.Value());
      UpdateKeyed(table, student.Value());
      if !HasId(table, student.GetStudentID()) {
        UpdateAbsent(table, student.Value());
      }
      table := Update(table, student.Value());
    }

    /** Builds a new `Student` object for each row, in storage order. */
    method DisplayAllStudents() returns (students: seq<Student>)
      ensures |students| == |table|
      ensures forall i :: 0 <= i < |students| ==> fresh(students[i]) && students[i].Value() == table[i]
      ensures forall i, j :: 0 <= i < j < |students| ==> students[i] != students[j]
    {
      students := [];
      var i := 0;
      while i < |table|
        invariant 0 <= i <= |table| && |students| == i
        invariant forall k :: 0 <= k < i ==> fresh(students[k]) && students[k].Value() == table[k]
        invariant forall k, l :: 0 <= k < l < i ==> students[k] != students[l]
      {
        var row := table[i];
        var student := new Student(row.name, row.age, row.grade, row.studentID);
        students := students + [student];
        i := i + 1;
      }
    }

    /** The mean of the grade column, 0.0 on an empty table. */
    method CalculateAverageGrade() returns (average: real)
      ensures average == AverageGrade(table)
    {
      average := AverageGrade(table);
    }
  }
}
