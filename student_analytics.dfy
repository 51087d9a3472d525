/**
 * The student page's headline metrics: head counts by gender and the
 * counts of students whose status flags are set. Every metric is a
 * boolean-mask filter followed by a row count.
 */
module StudentAnalytics {
  import opened Frame

  /** The columns of the student table the metrics read; flags are integers as loaded. */
  datatype Student = Student(gender: string, discontinued: int, retained: int, moved: int)

  const MaleLabel: string := "Male"
  const FemaleLabel: string := "Female"

  predicate IsMale(s: Student) { s.gender == MaleLabel }
  predicate IsFemale(s: Student) { s.gender == FemaleLabel }
  predicate IsDiscontinued(s: Student) { s.discontinued == 1 }
  predicate IsRetained(s: Student) { s.retained == 1 }
  predicate IsMoved(s: Student) { s.moved == 1 }

  /**
   * `final_student_data.shape[0]`: the rows the all-true mask keeps, which
   * no other mask's row count exceeds.
   */
  function TotalStudents(students: seq<Student>): (n: nat)
    ensures n == CountWhere(students, AllRows)
    ensures forall p :: CountWhere(students, p) <= n
  {
    FilterAll(students);
    |students|
  }

  /** The masks select exactly the rows whose column holds the compared value. */
  lemma StudentRows(students: seq<Student>)
    ensures |Filter(students, IsMale)| == |set i | 0 <= i < |students| && students[i].gender == "Male"|
    ensures |Filter(students, IsFemale)| == |set i | 0 <= i < |students| && students[i].gender == "Female"|
    ensures |Filter(students, IsDiscontinued)| == |set i | 0 <= i < |students| && students[i].discontinued == 1|
    ensures |Filter(students, IsRetained)| == |set i | 0 <= i < |students| && students[i].retained == 1|
    ensures |Filter(students, IsMoved)| == |set i | 0 <= i < |students| && students[i].moved == 1|
  {
    var male := FilterRows(students, IsMale);
    assert male == set i | 0 <= i < |students| && students[i].gender == "Male";
    var female := FilterRows(students, IsFemale);
    assert female == set i | 0 <= i < |students| && students[i].gender == "Female";
    var discontinued := FilterRows(students, IsDiscontinued);
    assert discontinued == set i | 0 <= i < |students| && students[i].discontinued == 1;
    var retained := FilterRows(students, IsRetained);
    assert retained == set i | 0 <= i < |students| && students[i].retained == 1;
    var moved := FilterRows(students, IsMoved);
    assert moved == set i | 0 <= i < |students| && students[i].moved == 1;
  }

  /** Male students: the rows whose gender is exactly "Male" (case-sensitive). */
  function MaleStudents(students: seq<Student>): (n: nat)
    ensures n == |set i | 0 <= i < |students| && students[i].gender == "Male"|
    ensures n <= TotalStudents(students)
  {
    StudentRows(students);
    |Filter(students, IsMale)|
  }

  /** Female students: the rows whose gender is exactly "Female" (case-sensitive). */
  function FemaleStudents(students: seq<Student>): (n: nat)
    ensures n == |set i | 0 <= i < |students| && students[i].gender == "Female"|
    ensures n <= TotalStudents(students)
  {
    StudentRows(students);
    |Filter(students, IsFemale)|
  }

  /** Discontinued students: the rows whose flag equals 1; 0 and any other value are not counted. */
  function DiscontinuedStudents(students: seq<Student>): (n: nat)
    ensures n == |set i | 0 <= i < |students| && students[i].discontinued == 1|
    ensures n <= TotalStudents(students)
  {
    StudentRows(students);
    |Filter(students, IsDiscontinued)|
  }

  /** Retained students: the rows whose flag equals 1. */
  function RetainedStudents(students: seq<Student>): (n: nat)
    ensures n == |set i | 0 <= i < |students| && students[i].retained == 1|
    ensures n <= TotalStudents(students)
  {
    StudentRows(students);
    |Filter(students, IsRetained)|
  }

  /** Students who moved between departments: the rows whose flag equals 1. */
  function MovedStudents(students: seq<Student>): (n: nat)
    ensures n == |set i | 0 <= i < |students| && students[i].moved == 1|
    ensures n <= TotalStudents(students)
  {
    StudentRows(students);
    |Filter(students, IsMoved)|
  }

  /** No row is both "Male" and "Female", so the two counts together never exceed the total. */
  lemma GenderSplit(students: seq<Student>)
    ensures MaleStudents(students) + FemaleStudents(students) <= TotalStudents(students)
  {
    StudentRows(students);
    DisjointMasks(students, IsMale, IsFemale);
  }

  /**
   * The flags are independent columns: one student with all three flags set
   * is counted three times, so the flag counts can add up to more than the
   * total.
   */
  lemma FlagsOverlap()
    ensures var students := [Student(MaleLabel, 1, 1, 1)];
            DiscontinuedStudents(students) + RetainedStudents(students) + MovedStudents(students)
            > TotalStudents(students)
  {
    var students := [Student(MaleLabel, 1, 1, 1)];
    assert students[..0] == [];
    assert Filter(students, IsDiscontinued) == students;
    assert Filter(students, IsRetained) == students;
    assert Filter(students, IsMoved) == students;
  }
}
