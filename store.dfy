/**
  The store as the application uses it: two tables that the mutating handlers change in
  place (`db.session.add` / `delete` + `commit`), and the `index` page's loop over them.
  Each method is tied to the handler function that specifies it.
*/
module Store {
  import opened Wrappers
  import opened Records
  import opened Aggregates
  import opened PyInt
  import opened Handlers

  class Registry {
    var students: seq<Student>
    var grades: seq<Grade>

    function State(): Db
      reads this
    {
      Db(students, grades)
    }

    ghost predicate Valid()
      reads this
    {
      Consistent(State())
    }

    /** `db.create_all()` on a fresh database: both tables empty. */
    constructor ()
      ensures Valid()
      ensures students == [] && grades == []
    {
      students := [];
      grades := [];
    }

    method AddStudent(name: Option<string>, roll: Option<string>) returns (outcome: Outcome)
      requires Valid()
      modifies this
      ensures Valid()
      ensures Step(State(), outcome) == Handlers.AddStudent(old(State()), name, roll)
    {
      AddStudentKeepsConsistent(State(), name, roll);
      if !Present(name) || !Present(roll) {
        return Failure(MissingNameOrRoll);
      }
      var number := ParseInt(roll.value);
      if number.None? {
        return Failure(RollNotInteger);
      }
      var existing := FindByRoll(students, number.value);
      if existing.Some? {
        return Failure(DuplicateRoll);
      }
      students := students + [Student(NextStudentId(students), name.value, number.value)];
      outcome := Success;
    }

    method AddGrade(studentId: int, subject: Option<string>, score: Option<string>,
                    parseFloat: string -> Option<real>) returns (outcome: Outcome)
      requires Valid()
      modifies this
      ensures Valid()
      ensures Step(State(), outcome) == Handlers.AddGrade(old(State()), studentId, subject, score, parseFloat)
    {
      AddGradeKeepsConsistent(State(), studentId, subject, score, parseFloat);
      var student := FindStudent(students, studentId);
      if student.None? {
        return Failure(NotFound);
      }
      if !Present(subject) || !Present(score) {
        return Failure(MissingSubjectOrScore);
      }
      var value := parseFloat(score.value);
      if value.None? || !(0.0 <= value.value <= 100.0) {
        return Failure(ScoreNotInRange);
      }
      grades := grades + [Grade(NextGradeId(grades), subject.value, value.value, student.value.id)];
      outcome := Success;
    }

    method DeleteStudent(studentId: int) returns (outcome: Outcome)
      requires Valid()
      modifies this
      ensures Valid()
      ensures Step(State(), outcome) == Handlers.DeleteStudent(old(State()), studentId)
    {
      DeleteStudentKeepsConsistent(State(), studentId);
      var student := FindStudent(students, studentId);
      if student.None? {
        return Failure(NotFound);
      }
      grades := WithoutGradesOf(grades, student.value.id);
      students := WithoutStudent(students, student.value.id);
      outcome := Success;
    }

    /** `index`: one row per student, in table order, each with the student's grades and
        average, which lies in 0..100. */
    method Index() returns (rows: seq<Row>)
      requires Valid()
      ensures |rows| == |students|
      ensures forall i :: 0 <= i < |rows| ==> rows[i] == RowOf(State(), students[i])
      ensures forall i :: 0 <= i < |rows| ==> 0.0 <= rows[i].average <= 100.0
    {
      assert ScoresInRange(State().grades) by {
        assert ConsistentRules(State());
      }
      rows := [];
      var i := 0;
      while i < |students|
        invariant 0 <= i <= |students|
        invariant |rows| == i
        invariant forall k :: 0 <= k < i ==> rows[k] == RowOf(State(), students[k])
        invariant forall k :: 0 <= k < i ==> 0.0 <= rows[k].average <= 100.0
      {
        var student := students[i];
        var average := CalculateAverage(grades, student.id);
        var row := Row(student.id, student.name, student.rollNumber, GradesOf(grades, student.id), average);
        assert row == RowOf(State(), student);
        assert 0.0 <= row.average <= 100.0;
        rows := rows + [row];
        i := i + 1;
      }
    }
  }
}
