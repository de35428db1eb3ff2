/**
  The request handlers of the application as functions from a store state and the request's
  form fields to the next state and an outcome. A mutating handler either applies its whole
  change or returns the state unchanged together with the reason (the source's `flash`
  category "error" and redirect); `NotFound` stands for `get_or_404`'s 404 response.
*/
module Handlers {
  import opened Wrappers
  import opened Records
  import opened Aggregates
  import opened PyInt

  datatype Error =
    | MissingNameOrRoll      // "Name and Roll Number are required."
    | RollNotInteger         // "Roll Number must be an integer."
    | DuplicateRoll          // "A student with this roll number already exists."
    | NotFound               // get_or_404
    | MissingSubjectOrScore  // "Subject and Score are required."
    | ScoreNotInRange        // "Score must be a number between 0 and 100."

  datatype Outcome = Success | Failure(error: Error)

  datatype Step = Step(db: Db, outcome: Outcome)

  /** Python truthiness of `request.form.get(field)`: sent and not the empty string. */
  predicate Present(field: Option<string>) {
    field.Some? && field.value != []
  }

  /** `0 <= float(score_str) <= 100` succeeded (the parse itself is the caller's oracle). */
  predicate ScoreAccepted(score: Option<real>) {
    score.Some? && 0.0 <= score.value <= 100.0
  }

  /** `add_student`: required fields, integer roll number, roll number not yet used, insert. */
  function AddStudent(db: Db, name: Option<string>, roll: Option<string>): (s: Step)
    ensures s.outcome.Failure? ==> s.db == db
    ensures !Present(name) || !Present(roll) ==> s.outcome == Failure(MissingNameOrRoll)
    ensures Present(name) && Present(roll) && ParseInt(roll.value).None? ==>
      s.outcome == Failure(RollNotInteger)
    ensures Present(name) && Present(roll) && ParseInt(roll.value).Some? ==>
      (s.outcome == Failure(DuplicateRoll) <==> RollTaken(db.students, ParseInt(roll.value).value))
    ensures s.outcome == Success <==>
      Present(name) && Present(roll) && ParseInt(roll.value).Some? &&
      !RollTaken(db.students, ParseInt(roll.value).value)
    ensures s.outcome == Success ==>
      s.db.grades == db.grades &&
      s.db.students == db.students + [Student(NextStudentId(db.students), name.value, ParseInt(roll.value).value)]
  {
    if !Present(name) || !Present(roll) then Step(db, Failure(MissingNameOrRoll))
    else
      match ParseInt(roll.value)
      case None => Step(db, Failure(RollNotInteger))
      case Some(n) =>
        if FindByRoll(db.students, n).Some? then Step(db, Failure(DuplicateRoll))
        else Step(Db(db.students + [Student(NextStudentId(db.students), name.value, n)], db.grades), Success)
  }

  /** `add_grade`: the student must exist (404 first), subject and score are required, the
      score must parse and lie in 0..100; then one grade owned by that student is inserted. */
  function AddGrade(db: Db, studentId: int, subject: Option<string>, score: Option<string>,
                    parseFloat: string -> Option<real>): (s: Step)
    ensures s.outcome.Failure? ==> s.db == db
    ensures s.outcome == Failure(NotFound) <==> !HasStudent(db.students, studentId)
    ensures HasStudent(db.students, studentId) && (!Present(subject) || !Present(score)) ==>
      s.outcome == Failure(MissingSubjectOrScore)
    ensures (HasStudent(db.students, studentId) && Present(subject) && Present(score) &&
             !ScoreAccepted(parseFloat(score.value))) ==> s.outcome == Failure(ScoreNotInRange)
    ensures s.outcome == Success <==>
      HasStudent(db.students, studentId) && Present(subject) && Present(score) &&
      ScoreAccepted(parseFloat(score.value))
    ensures s.outcome == Success ==>
      s.db.students == db.students &&
      s.db.grades == db.grades + [Grade(NextGradeId(db.grades), subject.value, parseFloat(score.value).value, studentId)]
  {
    match FindStudent(db.students, studentId)
    case None => Step(db, Failure(NotFound))
    case Some(student) =>
      if !Present(subject) || !Present(score) then Step(db, Failure(MissingSubjectOrScore))
      else
        match parseFloat(score.value)
        case None => Step(db, Failure(ScoreNotInRange))
        case Some(x) =>
          if !(0.0 <= x <= 100.0) then Step(db, Failure(ScoreNotInRange))
          else Step(Db(db.students, db.grades + [Grade(NextGradeId(db.grades), subject.value, x, student.id)]), Success)
  }

  /** `delete_student`: the student must exist; it and, by the cascade, its grades go. */
  function DeleteStudent(db: Db, studentId: int): (s: Step)
    ensures s.outcome.Failure? ==> s.db == db && s.outcome == Failure(NotFound)
    ensures s.outcome == Success <==> HasStudent(db.students, studentId)
    ensures s.outcome == Success ==>
      s.db == Db(WithoutStudent(db.students, studentId), WithoutGradesOf(db.grades, studentId))
  {
    match FindStudent(db.students, studentId)
    case None => Step(db, Failure(NotFound))
    case Some(student) =>
      Step(Db(WithoutStudent(db.students, student.id), WithoutGradesOf(db.grades, student.id)), Success)
  }

  lemma AddStudentKeepsConsistent(db: Db, name: Option<string>, roll: Option<string>)
    requires Consistent(db)
    ensures Consistent(AddStudent(db, name, roll).db)
  {
    AddStudentKeepsRules(db, name, roll);
  }

  lemma AddStudentKeepsRules(db: Db, name: Option<string>, roll: Option<string>)
    requires ConsistentRules(db)
    ensures ConsistentRules(AddStudent(db, name, roll).db)
  {
    var s := AddStudent(db, name, roll);
    if s.outcome == Success {
      var ss := s.db.students;
      var last := |ss| - 1;
      assert ss[last].id == NextStudentId(db.students);
      assert !RollTaken(db.students, ss[last].rollNumber);
      assert forall i :: 0 <= i < last ==> ss[i] == db.students[i];
      forall i | 0 <= i < |s.db.grades|
        ensures HasStudent(ss, s.db.grades[i].studentId)
      {
        var j :| 0 <= j < |db.students| && db.students[j].id == db.grades[i].studentId;
        assert ss[j] == db.students[j];
      }
    }
  }

  lemma AddGradeKeepsConsistent(db: Db, studentId: int, subject: Option<string>,
                                score: Option<string>, parseFloat: string -> Option<real>)
    requires Consistent(db)
    ensures Consistent(AddGrade(db, studentId, subject, score, parseFloat).db)
  {
    AddGradeKeepsRules(db, studentId, subject, score, parseFloat);
  }

  lemma AddGradeKeepsRules(db: Db, studentId: int, subject: Option<string>,
                           score: Option<string>, parseFloat: string -> Option<real>)
    requires ConsistentRules(db)
    ensures ConsistentRules(AddGrade(db, studentId, subject, score, parseFloat).db)
  {
    var s := AddGrade(db, studentId, subject, score, parseFloat);
    if s.outcome == Success {
      var gs := s.db.grades;
      assert forall i :: 0 <= i < |db.grades| ==> gs[i] == db.grades[i];
      assert gs[|gs| - 1].id == NextGradeId(db.grades);
    }
  }

  lemma DeleteStudentKeepsConsistent(db: Db, studentId: int)
    requires Consistent(db)
    ensures Consistent(DeleteStudent(db, studentId).db)
  {
    DeleteStudentKeepsRules(db, studentId);
  }

  lemma DeleteStudentKeepsRules(db: Db, studentId: int)
    requires ConsistentRules(db)
    ensures ConsistentRules(DeleteStudent(db, studentId).db)
  {
    var s := DeleteStudent(db, studentId);
    if s.outcome == Success {
      var ss, gs := s.db.students, s.db.grades;
      FilterKeepsUniqueKeys(db.students, HasOtherId(studentId), StudentKey);
      FilterKeepsUniqueKeys(db.students, HasOtherId(studentId), RollKey);
      FilterKeepsUniqueKeys(db.grades, IsNotOwnedBy(studentId), GradeKey);
      forall i | 0 <= i < |ss|
        ensures ss[i].name != []
      {
        assert ss[i] in db.students;
      }
      forall i | 0 <= i < |gs|
        ensures HasStudent(ss, gs[i].studentId) && 0.0 <= gs[i].score <= 100.0 && gs[i].subject != []
      {
        assert gs[i] in db.grades;
        var j :| 0 <= j < |db.students| && db.students[j].id == gs[i].studentId;
        assert db.students[j] in ss;
      }
    }
  }

  /** Deleting an existing student removes that one row and no other. */
  lemma DeleteRemovesExactlyOne(db: Db, studentId: int)
    requires UniqueStudentIds(db.students)
    requires HasStudent(db.students, studentId)
    ensures exists k :: (0 <= k < |db.students| && db.students[k].id == studentId &&
                         DeleteStudent(db, studentId).db.students == db.students[..k] + db.students[k + 1..])
  {
    var k :| 0 <= k < |db.students| && db.students[k].id == studentId;
    FilterDropsOne(db.students, HasOtherId(studentId), k);
  }

  /** After a delete nothing of the student is left: it cannot be looked up and owns no grade. */
  lemma DeleteLeavesNothingBehind(db: Db, studentId: int)
    requires GradesOwned(db)
    ensures FindStudent(DeleteStudent(db, studentId).db.students, studentId) == None
    ensures GradesOf(DeleteStudent(db, studentId).db.grades, studentId) == []
  {
    var gs := DeleteStudent(db, studentId).db.grades;
    forall i | 0 <= i < |gs|
      ensures !IsOwnedBy(studentId)(gs[i])
    {
      assert gs[i] in db.grades;
    }
    FilterKeepsNone(gs, IsOwnedBy(studentId));
  }

  /** Other students, and the grades they own, are just as they were before a delete. */
  lemma DeleteKeepsOthers(db: Db, studentId: int, other: int)
    requires other != studentId
    ensures FindStudent(DeleteStudent(db, studentId).db.students, other) == FindStudent(db.students, other)
    ensures GradesOf(DeleteStudent(db, studentId).db.grades, other) == GradesOf(db.grades, other)
  {
    if HasStudent(db.students, studentId) {
      FirstOfFilter(db.students, HasOtherId(studentId), HasId(other));
      FilterOfFilter(db.grades, IsNotOwnedBy(studentId), IsOwnedBy(other));
    }
  }

  /** The mutating requests, with their form fields as sent. */
  datatype Request =
    | AddStudentRequest(name: Option<string>, rollNumber: Option<string>)
    | AddGradeRequest(studentId: int, subject: Option<string>, score: Option<string>)
    | DeleteStudentRequest(studentId: int)

  function Handle(db: Db, request: Request, parseFloat: string -> Option<real>): Step {
    match request
    case AddStudentRequest(name, roll) => AddStudent(db, name, roll)
    case AddGradeRequest(id, subject, score) => AddGrade(db, id, subject, score, parseFloat)
    case DeleteStudentRequest(id) => DeleteStudent(db, id)
  }

  /** The state after serving `requests` one after another. */
  function Run(db: Db, requests: seq<Request>, parseFloat: string -> Option<real>): Db
    decreases |requests|
  {
    if requests == [] then db else Run(Handle(db, requests[0], parseFloat).db, requests[1..], parseFloat)
  }

  lemma {:induction false} RunKeepsConsistent(db: Db, requests: seq<Request>, parseFloat: string -> Option<real>)
    requires Consistent(db)
    ensures Consistent(Run(db, requests, parseFloat))
    decreases |requests|
  {
    if requests != [] {
      match requests[0] {
        case AddStudentRequest(name, roll) => AddStudentKeepsConsistent(db, name, roll);
        case AddGradeRequest(id, subject, score) => AddGradeKeepsConsistent(db, id, subject, score, parseFloat);
        case DeleteStudentRequest(id) => DeleteStudentKeepsConsistent(db, id);
      }
      RunKeepsConsistent(Handle(db, requests[0], parseFloat).db, requests[1..], parseFloat);
    }
  }

  /** In every state reachable from the empty store, roll numbers are unique, every grade's
      owner exists and every score lies in 0..100, whatever the float parser returns. */
  lemma ReachableStatesConsistent(requests: seq<Request>, parseFloat: string -> Option<real>)
    ensures Consistent(Run(Db([], []), requests, parseFloat))
  {
    RunKeepsConsistent(Db([], []), requests, parseFloat);
  }

  /** One line of the listing page (`index`): the student's columns, grades and average. */
  datatype Row = Row(id: int, name: string, rollNumber: int, grades: seq<Grade>, average: real)

  /** The listing row of `student`: its columns, exactly its grades, and an average that lies
      in 0..100 whenever the stored scores do. */
  function RowOf(db: Db, student: Student): (r: Row)
    ensures r.id == student.id && r.name == student.name && r.rollNumber == student.rollNumber
    ensures r.grades == GradesOf(db.grades, student.id)
    ensures r.average == CalculateAverage(db.grades, student.id)
    ensures ScoresInRange(db.grades) ==> 0.0 <= r.average <= 100.0
  {
    assert ScoresInRange(db.grades) ==> 0.0 <= CalculateAverage(db.grades, student.id) <= 100.0 by {
      if ScoresInRange(db.grades) {
        AverageInRange(db.grades, student.id);
      }
    }
    Row(student.id, student.name, student.rollNumber, GradesOf(db.grades, student.id),
        CalculateAverage(db.grades, student.id))
  }

  /** `view_student_details`: the student with its grades and average, or 404. */
  function StudentDetails(db: Db, studentId: int): (r: Option<Row>)
    ensures r.None? <==> !HasStudent(db.students, studentId)
    ensures r.Some? ==>
      r.value.id == studentId &&
      Student(r.value.id, r.value.name, r.value.rollNumber) in db.students &&
      r.value.grades == GradesOf(db.grades, studentId)
  {
    match FindStudent(db.students, studentId)
    case None => None
    case Some(student) => Some(RowOf(db, student))
  }

  /** What the subject-topper page shows. */
  datatype Topper = Topper(student: Student, subject: string, score: real)

  datatype TopperPage = TopperPage(topper: Option<Topper>, subjects: seq<string>)

  /** `subject_topper`: with a non-empty subject, the owner of a best-scoring grade of that
      subject; always the subject list. */
  function SubjectTopper(db: Db, subject: Option<string>): (p: TopperPage)
    ensures p.subjects == Subjects(db.grades)
    ensures p.topper.Some? ==>
      var t := p.topper.value;
      && Present(subject) && t.subject == subject.value && t.student in db.students
      && (exists i :: 0 <= i < |db.grades| && db.grades[i].subject == t.subject &&
                      db.grades[i].studentId == t.student.id && db.grades[i].score == t.score)
      && (forall i :: 0 <= i < |db.grades| && db.grades[i].subject == t.subject ==> db.grades[i].score <= t.score)
    ensures GradesOwned(db) ==>
      (p.topper.Some? <==>
        Present(subject) && exists i :: 0 <= i < |db.grades| && db.grades[i].subject == subject.value)
  {
    var topper :=
      if !Present(subject) then None
      else
        match TopGrade(db.grades, subject.value)
        case None => None
        case Some(g) =>
          assert exists i :: 0 <= i < |db.grades| && db.grades[i] == g;
          match FindStudent(db.students, g.studentId)
          case None => None
          case Some(st) => Some(Topper(st, subject.value, g.score));
    TopperPage(topper, Subjects(db.grades))
  }

  datatype AveragePage = AveragePage(average: Option<real>, subjects: seq<string>)

  /** `class_average`: with a non-empty subject that some grade has, the mean score of that
      subject; always the subject list. */
  function ClassAveragePage(db: Db, subject: Option<string>): (p: AveragePage)
    ensures p.subjects == Subjects(db.grades)
    ensures p.average.None? <==>
      !Present(subject) || forall i :: 0 <= i < |db.grades| ==> db.grades[i].subject != subject.value
    ensures p.average.Some? ==> p.average == ClassAverage(db.grades, subject.value)
    ensures ScoresInRange(db.grades) && p.average.Some? ==> 0.0 <= p.average.value <= 100.0
  {
    var average := if Present(subject) then ClassAverage(db.grades, subject.value) else None;
    assert ScoresInRange(db.grades) && average.Some? ==> 0.0 <= average.value <= 100.0 by {
      if ScoresInRange(db.grades) && average.Some? {
        ClassAverageInRange(db.grades, subject.value);
      }
    }
    AveragePage(average, Subjects(db.grades))
  }
}
