/**
  The two tables of the store, `Student` and `Grade`, the queries the handlers run over
  them, and the integrity the handlers keep: unique ids and roll numbers, every grade
  owned by a stored student, every score within 0..100.
*/
module Records {
  import opened Wrappers

  /** A row of the `student` table; `id` is assigned by the store. */
  datatype Student = Student(id: int, name: string, rollNumber: int)

  /** A row of the `grade` table; `studentId` is the foreign key to the owning student. */
  datatype Grade = Grade(id: int, subject: string, score: real, studentId: int)

  /** The whole store, each table in row order. */
  datatype Db = Db(students: seq<Student>, grades: seq<Grade>)

  /** The rows of `s` that `keep` selects, in their order (a `filter_by(...).all()` query). */
  function Filter<T(!new)>(s: seq<T>, keep: T -> bool): (r: seq<T>)
    ensures |r| <= |s|
    ensures forall x :: x in r <==> x in s && keep(x)
  {
    if s == [] then []
    else
      assert forall x :: x in s <==> x == s[0] || x in s[1..] by {
        assert s == [s[0]] + s[1..];
      }
      (if keep(s[0]) then [s[0]] else []) + Filter(s[1..], keep)
  }

  /** How many times `x` occurs in `s`. */
  function Count<T(==)>(s: seq<T>, x: T): nat {
    if s == [] then 0 else (if s[0] == x then 1 else 0) + Count(s[1..], x)
  }

  /** `Count` is the multiplicity of `x` in the multiset of `s`. */
  lemma {:induction false} CountIsMultiplicity<T>(s: seq<T>, x: T)
    ensures Count(s, x) == multiset(s)[x]
  {
    if s != [] {
      CountIsMultiplicity(s[1..], x);
      assert s == [s[0]] + s[1..];
    }
  }

  /** `Filter` keeps every selected row as often as it occurs, and no other row. */
  lemma {:induction false} FilterCount<T(!new)>(s: seq<T>, keep: T -> bool)
    ensures forall x :: Count(Filter(s, keep), x) == if keep(x) then Count(s, x) else 0
  {
    if s != [] {
      FilterCount(s[1..], keep);
      var rest := Filter(s[1..], keep);
      if keep(s[0]) {
        assert ([s[0]] + rest)[1..] == rest;
      } else {
        assert [] + rest == rest;
      }
    }
  }

  lemma {:induction false} FilterKeepsAll<T(!new)>(s: seq<T>, keep: T -> bool)
    requires forall i :: 0 <= i < |s| ==> keep(s[i])
    ensures Filter(s, keep) == s
  {
    if s != [] {
      FilterKeepsAll(s[1..], keep);
      assert s == [s[0]] + s[1..];
    }
  }

  lemma {:induction false} FilterKeepsNone<T(!new)>(s: seq<T>, keep: T -> bool)
    requires forall i :: 0 <= i < |s| ==> !keep(s[i])
    ensures Filter(s, keep) == []
  {
    if s != [] {
      FilterKeepsNone(s[1..], keep);
    }
  }

  /** Filtering by a stricter condition after a weaker one is filtering by the stricter one. */
  lemma {:induction false} FilterOfFilter<T(!new)>(s: seq<T>, weak: T -> bool, strict: T -> bool)
    requires forall x :: strict(x) ==> weak(x)
    ensures Filter(Filter(s, weak), strict) == Filter(s, strict)
  {
    if s != [] {
      FilterOfFilter(s[1..], weak, strict);
      var rest := Filter(s[1..], weak);
      if weak(s[0]) {
        assert ([s[0]] + rest)[1..] == rest;
      } else {
        assert [] + rest == rest;
      }
    }
  }

  lemma {:induction false} FilterConcat<T(!new)>(a: seq<T>, b: seq<T>, keep: T -> bool)
    ensures Filter(a + b, keep) == Filter(a, keep) + Filter(b, keep)
  {
    if a == [] {
      assert a + b == b;
    } else {
      assert (a + b)[0] == a[0] && (a + b)[1..] == a[1..] + b;
      FilterConcat(a[1..], b, keep);
    }
  }

  /** When `keep` rejects only the row at `k`, filtering removes exactly that row. */
  lemma {:induction false} FilterDropsOne<T(!new)>(s: seq<T>, keep: T -> bool, k: int)
    requires 0 <= k < |s| && !keep(s[k])
    requires forall i :: 0 <= i < |s| && i != k ==> keep(s[i])
    ensures Filter(s, keep) == s[..k] + s[k + 1..]
  {
    var front, back := s[..k], s[k + 1..];
    calc {
      Filter(s, keep);
      { assert s == front + ([s[k]] + back); }
      Filter(front + ([s[k]] + back), keep);
      { FilterConcat(front, [s[k]] + back, keep); }
      Filter(front, keep) + Filter([s[k]] + back, keep);
      { FilterConcat([s[k]], back, keep); }
      Filter(front, keep) + (Filter([s[k]], keep) + Filter(back, keep));
      { assert Filter([s[k]], keep) == []; }
      Filter(front, keep) + ([] + Filter(back, keep));
      { assert forall i :: 0 <= i < |front| ==> front[i] == s[i];
        FilterKeepsAll(front, keep); }
      front + ([] + Filter(back, keep));
      { assert forall i :: 0 <= i < |back| ==> back[i] == s[k + 1 + i];
        FilterKeepsAll(back, keep); }
      front + ([] + back);
      { assert [] + back == back; }
      front + back;
    }
  }

  predicate UniqueKeys<T>(s: seq<T>, key: T -> int) {
    forall i, j :: 0 <= i < j < |s| ==> key(s[i]) != key(s[j])
  }

  lemma ConsUniqueKeys<T>(x: T, s: seq<T>, key: T -> int)
    requires UniqueKeys(s, key)
    requires forall i :: 0 <= i < |s| ==> key(s[i]) != key(x)
    ensures UniqueKeys([x] + s, key)
  {
    var r := [x] + s;
    forall i, j | 0 <= i < j < |r|
      ensures key(r[i]) != key(r[j])
    {
      assert r[j] == s[j - 1];
      if i > 0 {
        assert r[i] == s[i - 1];
      }
    }
  }

  /** Deleting rows cannot make two remaining rows share a key. */
  lemma {:induction false} FilterKeepsUniqueKeys<T(!new)>(s: seq<T>, keep: T -> bool, key: T -> int)
    requires UniqueKeys(s, key)
    ensures UniqueKeys(Filter(s, keep), key)
  {
    if s != [] {
      var tail := s[1..];
      assert UniqueKeys(tail, key) by {
        forall i, j | 0 <= i < j < |tail|
          ensures key(tail[i]) != key(tail[j])
        {
          assert tail[i] == s[i + 1] && tail[j] == s[j + 1];
        }
      }
      FilterKeepsUniqueKeys(tail, keep, key);
      var rest := Filter(tail, keep);
      forall i | 0 <= i < |rest|
        ensures key(rest[i]) != key(s[0])
      {
        assert rest[i] in tail;
        var j :| 0 <= j < |tail| && tail[j] == rest[i];
        assert s[j + 1] == rest[i];
      }
      if keep(s[0]) {
        ConsUniqueKeys(s[0], rest, key);
      } else {
        assert [] + rest == rest;
      }
    }
  }

  /** The first row of `s` that `p` selects (a `filter_by(...).first()` query). */
  function First<T>(s: seq<T>, p: T -> bool): (r: Option<T>)
    ensures r.Some? ==> r.value in s && p(r.value)
    ensures r.None? <==> forall i :: 0 <= i < |s| ==> !p(s[i])
  {
    if s == [] then None
    else if p(s[0]) then Some(s[0])
    else
      var r := First(s[1..], p);
      assert r.None? ==> forall i :: 0 <= i < |s| ==> !p(s[i]) by {
        if r.None? {
          forall i | 0 <= i < |s|
            ensures !p(s[i])
          {
            if i > 0 {
              assert s[i] == s[1..][i - 1];
            }
          }
        }
      }
      r
  }

  /** Looking up rows that survive a filter is looking them up in the unfiltered table. */
  lemma {:induction false} FirstOfFilter<T(!new)>(s: seq<T>, keep: T -> bool, p: T -> bool)
    requires forall x :: p(x) ==> keep(x)
    ensures First(Filter(s, keep), p) == First(s, p)
  {
    if s != [] {
      FirstOfFilter(s[1..], keep, p);
      var rest := Filter(s[1..], keep);
      if keep(s[0]) {
        assert ([s[0]] + rest)[0] == s[0] && ([s[0]] + rest)[1..] == rest;
      } else {
        assert [] + rest == rest;
      }
    }
  }

  function HasId(id: int): Student -> bool {
    (s: Student) => s.id == id
  }

  function HasOtherId(id: int): Student -> bool {
    (s: Student) => s.id != id
  }

  function HasRoll(roll: int): Student -> bool {
    (s: Student) => s.rollNumber == roll
  }

  function IsOwnedBy(studentId: int): Grade -> bool {
    (g: Grade) => g.studentId == studentId
  }

  function IsNotOwnedBy(studentId: int): Grade -> bool {
    (g: Grade) => g.studentId != studentId
  }

  predicate HasStudent(students: seq<Student>, id: int) {
    exists i :: 0 <= i < |students| && students[i].id == id
  }

  predicate RollTaken(students: seq<Student>, roll: int) {
    exists i :: 0 <= i < |students| && students[i].rollNumber == roll
  }

  /** `Student.query.get(id)`: the student with that primary key, if any. */
  function FindStudent(students: seq<Student>, id: int): (r: Option<Student>)
    ensures r.None? <==> !HasStudent(students, id)
    ensures r.Some? ==> r.value in students && r.value.id == id
  {
    First(students, HasId(id))
  }

  /** `Student.query.filter_by(roll_number=roll).first()`. */
  function FindByRoll(students: seq<Student>, roll: int): (r: Option<Student>)
    ensures r.None? <==> !RollTaken(students, roll)
    ensures r.Some? ==> r.value in students && r.value.rollNumber == roll
  {
    First(students, HasRoll(roll))
  }

  /** `student.grades`: the grades whose foreign key names the student, in table order. */
  function GradesOf(grades: seq<Grade>, studentId: int): (r: seq<Grade>)
    ensures forall g :: g in r <==> g in grades && g.studentId == studentId
    ensures forall g :: Count(r, g) == if g.studentId == studentId then Count(grades, g) else 0
  {
    FilterCount(grades, IsOwnedBy(studentId));
    Filter(grades, IsOwnedBy(studentId))
  }

  /** The student table once the student `id` is deleted. */
  function WithoutStudent(students: seq<Student>, id: int): (r: seq<Student>)
    ensures forall s :: s in r <==> s in students && s.id != id
  {
    Filter(students, HasOtherId(id))
  }

  /** The grade table once the cascade has removed the grades of student `id`. */
  function WithoutGradesOf(grades: seq<Grade>, studentId: int): (r: seq<Grade>)
    ensures forall g :: g in r <==> g in grades && g.studentId != studentId
  {
    Filter(grades, IsNotOwnedBy(studentId))
  }

  /** The largest key in `s`, or 0 for an empty table. */
  function MaxKey<T>(s: seq<T>, key: T -> int): (m: int)
    ensures m >= 0
    ensures forall i :: 0 <= i < |s| ==> key(s[i]) <= m
  {
    if s == [] then 0
    else
      var rest := MaxKey(s[1..], key);
      assert forall i :: 1 <= i < |s| ==> key(s[i]) <= rest by {
        forall i | 1 <= i < |s|
          ensures key(s[i]) <= rest
        {
          assert s[i] == s[1..][i - 1];
        }
      }
      if key(s[0]) > rest then key(s[0]) else rest
  }

  function StudentKey(s: Student): int {
    s.id
  }

  function RollKey(s: Student): int {
    s.rollNumber
  }

  function GradeKey(g: Grade): int {
    g.id
  }

  /** The id SQLite gives a new student row: one more than the largest id, 1 in an empty table. */
  function NextStudentId(students: seq<Student>): (id: int)
    ensures id >= 1
    ensures !HasStudent(students, id)
  {
    MaxKey(students, StudentKey) + 1
  }

  /** The id SQLite gives a new grade row. */
  function NextGradeId(grades: seq<Grade>): (id: int)
    ensures id >= 1
    ensures forall i :: 0 <= i < |grades| ==> grades[i].id != id
  {
    MaxKey(grades, GradeKey) + 1
  }

  predicate UniqueStudentIds(students: seq<Student>) {
    forall i, j :: 0 <= i < j < |students| ==> students[i].id != students[j].id
  }

  /** The `unique=True` constraint on `roll_number`, kept by the check in `add_student`. */
  predicate UniqueRolls(students: seq<Student>) {
    forall i, j :: 0 <= i < j < |students| ==> students[i].rollNumber != students[j].rollNumber
  }

  predicate UniqueGradeIds(grades: seq<Grade>) {
    forall i, j :: 0 <= i < j < |grades| ==> grades[i].id != grades[j].id
  }

  /** Every grade's foreign key names a stored student. */
  predicate GradesOwned(db: Db) {
    forall i :: 0 <= i < |db.grades| ==> HasStudent(db.students, db.grades[i].studentId)
  }

  predicate ScoresInRange(grades: seq<Grade>) {
    forall i :: 0 <= i < |grades| ==> 0.0 <= grades[i].score <= 100.0
  }

  /** `nullable=False` plus the handlers' "required" checks: names and subjects are never empty. */
  predicate FieldsPresent(db: Db) {
    && (forall i :: 0 <= i < |db.students| ==> db.students[i].name != [])
    && (forall i :: 0 <= i < |db.grades| ==> db.grades[i].subject != [])
  }

  /** What every state reachable through the handlers satisfies. In such a state a roll
      number picks out exactly one student and every grade's owner can be looked up. */
  predicate Consistent(db: Db): (c: bool)
    ensures c ==> forall i :: 0 <= i < |db.students| ==>
      FindByRoll(db.students, db.students[i].rollNumber) == Some(db.students[i])
    ensures c ==> forall i :: 0 <= i < |db.grades| ==>
      FindStudent(db.students, db.grades[i].studentId).Some?
  {
    var c := ConsistentRules(db);
    assert c ==> forall i :: 0 <= i < |db.students| ==>
      FindByRoll(db.students, db.students[i].rollNumber) == Some(db.students[i]) by {
      if c {
        forall i | 0 <= i < |db.students|
          ensures FindByRoll(db.students, db.students[i].rollNumber) == Some(db.students[i])
        {
          var r := FindByRoll(db.students, db.students[i].rollNumber);
          var j :| 0 <= j < |db.students| && db.students[j] == r.value;
          assert i == j;
        }
      }
    }
    c
  }

  predicate ConsistentRules(db: Db) {
    && UniqueStudentIds(db.students)
    && UniqueRolls(db.students)
    && UniqueGradeIds(db.grades)
    && GradesOwned(db)
    && ScoresInRange(db.grades)
    && FieldsPresent(db)
  }
}
