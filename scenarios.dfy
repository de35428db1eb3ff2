/** Worked examples of the handlers and reductions on small concrete stores. */
module Scenarios {
  import opened Wrappers
  import opened Records
  import opened Aggregates
  import opened PyInt
  import opened Handlers

  lemma ParseOne()
    ensures ParseInt("1") == Some(1)
  {
    assert ShowInt(1) == "1" by {
      assert DigitChar(1) == '1';
    }
    ParseShowRoundTrip(1);
  }

  /** Two students with the same roll number: the first is stored, the second refused,
      and exactly the first one is in the store. */
  lemma DuplicateRollRefused(first: string, second: string, roll: string)
    requires first != [] && second != [] && roll != []
    requires ParseInt(roll).Some?
    ensures var s1 := AddStudent(Db([], []), Some(first), Some(roll));
            var s2 := AddStudent(s1.db, Some(second), Some(roll));
            && s1.outcome == Success && s2.outcome == Failure(DuplicateRoll)
            && s2.db == Db([Student(1, first, ParseInt(roll).value)], [])
  {
    var n := ParseInt(roll).value;
    var s1 := AddStudent(Db([], []), Some(first), Some(roll));
    assert !RollTaken([], n);
    assert s1.outcome == Success;
    assert NextStudentId([]) == 1;
    assert s1.db == Db([Student(1, first, n)], []);
    assert RollTaken(s1.db.students, n) by {
      assert s1.db.students[0].rollNumber == n;
    }
    var s2 := AddStudent(s1.db, Some(second), Some(roll));
    assert s2.outcome == Failure(DuplicateRoll);
  }

  /** Add a student, give it a grade, delete it: both tables are empty again. */
  lemma DeleteEmptiesStore(name: string, roll: string, subject: string, score: string,
                           parseFloat: string -> Option<real>)
    requires name != [] && roll != [] && subject != [] && score != []
    requires ParseInt(roll).Some? && ScoreAccepted(parseFloat(score))
    ensures var s1 := AddStudent(Db([], []), Some(name), Some(roll));
            var s2 := AddGrade(s1.db, 1, Some(subject), Some(score), parseFloat);
            var s3 := DeleteStudent(s2.db, 1);
            && s2.outcome == Success && s2.db.grades == [Grade(1, subject, parseFloat(score).value, 1)]
            && s3.outcome == Success && s3.db == Db([], [])
  {
    var n := ParseInt(roll).value;
    var s1 := AddStudent(Db([], []), Some(name), Some(roll));
    var ada := Student(1, name, n);
    assert s1.db == Db([ada], []);
    assert HasStudent(s1.db.students, 1) by {
      assert s1.db.students[0].id == 1;
    }
    var s2 := AddGrade(s1.db, 1, Some(subject), Some(score), parseFloat);
    var grade := Grade(1, subject, parseFloat(score).value, 1);
    assert s2.db == Db([ada], [grade]);
    var s3 := DeleteStudent(s2.db, 1);
    assert s3.db == Db(WithoutStudent([ada], 1), WithoutGradesOf([grade], 1));
    FilterKeepsNone([ada], HasOtherId(1));
    FilterKeepsNone([grade], IsNotOwnedBy(1));
  }

  /** The score bounds are inclusive: 0 and 100 are accepted, -0.01 and 100.01 refused. */
  lemma ScoreBoundsInclusive(db: Db, studentId: int, parseFloat: string -> Option<real>)
    requires HasStudent(db.students, studentId)
    requires parseFloat("0") == Some(0.0) && parseFloat("100") == Some(100.0)
    requires parseFloat("-0.01") == Some(-0.01) && parseFloat("100.01") == Some(100.01)
    ensures AddGrade(db, studentId, Some("Math"), Some("0"), parseFloat).outcome == Success
    ensures AddGrade(db, studentId, Some("Math"), Some("100"), parseFloat).outcome == Success
    ensures AddGrade(db, studentId, Some("Math"), Some("-0.01"), parseFloat).outcome == Failure(ScoreNotInRange)
    ensures AddGrade(db, studentId, Some("Math"), Some("100.01"), parseFloat).outcome == Failure(ScoreNotInRange)
  {
  }

  function SampleGrades(): seq<Grade> {
    [Grade(1, "math", 70.0, 1), Grade(2, "math", 95.0, 2), Grade(3, "sci", 60.0, 1)]
  }

  /** Over math 70, math 95 and sci 60 the math topper scored 95. */
  lemma TopperExample()
    ensures TopGrade(SampleGrades(), "math") == Some(Grade(2, "math", 95.0, 2))
  {
  }

  /** Over the same grades the math average is 82.5 and there is no history average. */
  lemma ClassAverageExample()
    ensures ClassAverage(SampleGrades(), "math") == Some(82.5)
    ensures ClassAverage(SampleGrades(), "hist") == None
  {
    var gs := SampleGrades();
    var math := SubjectGrades(gs, "math");
    assert math == [gs[0], gs[1]] by {
      var keep := InSubject("math");
      assert gs[1..][1..] == gs[2..] && gs[2..][1..] == [];
      assert Filter(gs[2..], keep) == [] by {
        assert !keep(gs[2]);
      }
      assert Filter(gs[1..], keep) == [gs[1]];
    }
    assert Sum(math) == 165.0;
    assert "hist" != "math" && "hist" != "sci";
  }

  /** Over the same grades the subject list is ["math", "sci"]. */
  lemma SubjectListExample()
    ensures Subjects(SampleGrades()) == ["math", "sci"]
  {
    var gs := SampleGrades();
    assert gs[0].subject == "math" && gs[2].subject == "sci";
    assert StringOrder.Less("math", "sci");
    SubjectsUnique(gs, ["math", "sci"]);
  }
}
