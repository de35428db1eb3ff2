/**
  The reductions over grades: a student's average (`Student.calculate_average`), the
  average of one subject across the class, the top grade of a subject, and the sorted
  list of distinct subjects that the topper and class-average pages offer.
*/
module Aggregates {
  import opened Wrappers
  import opened Records
  import StringOrder

  /** Python's `sum`: starting from `acc`, add the scores one at a time from the left. */
  function Accumulate(acc: real, grades: seq<Grade>): real
    decreases |grades|
  {
    if grades == [] then acc else Accumulate(acc + grades[0].score, grades[1..])
  }

  lemma {:induction false} AccumulateShift(acc: real, grades: seq<Grade>)
    ensures Accumulate(acc, grades) == acc + Accumulate(0.0, grades)
    decreases |grades|
  {
    if grades != [] {
      AccumulateShift(acc + grades[0].score, grades[1..]);
      AccumulateShift(grades[0].score, grades[1..]);
    }
  }

  /** `sum(grade.score for grade in grades)`: the total that Python's left-to-right
      accumulation from 0 gives. */
  function Sum(grades: seq<Grade>): (r: real)
    ensures r == Accumulate(0.0, grades)
  {
    if grades == [] then 0.0
    else
      AccumulateShift(grades[0].score, grades[1..]);
      grades[0].score + Sum(grades[1..])
  }

  /** The mean score, 0 for no grades (the source rounds it to two decimals; see README). */
  function Mean(grades: seq<Grade>): (r: real)
    ensures grades == [] ==> r == 0.0
    ensures grades != [] ==> r * (|grades| as real) == Sum(grades)
  {
    if grades == [] then 0.0 else Sum(grades) / (|grades| as real)
  }

  lemma {:induction false} SumConcat(a: seq<Grade>, b: seq<Grade>)
    ensures Sum(a + b) == Sum(a) + Sum(b)
  {
    if a == [] {
      assert a + b == b;
    } else {
      assert (a + b)[1..] == a[1..] + b;
      SumConcat(a[1..], b);
    }
  }

  lemma SumRemove(b: seq<Grade>, k: int)
    requires 0 <= k < |b|
    ensures Sum(b) == b[k].score + Sum(b[..k] + b[k + 1..])
  {
    SumConcat(b[..k], [b[k]] + b[k + 1..]);
    SumConcat([b[k]], b[k + 1..]);
    SumConcat(b[..k], b[k + 1..]);
    assert ([b[k]] + b[k + 1..])[1..] == b[k + 1..];
    assert b[..k] + ([b[k]] + b[k + 1..]) == b;
  }

  lemma MultisetRemove(b: seq<Grade>, k: int)
    requires 0 <= k < |b|
    ensures multiset(b[..k] + b[k + 1..]) == multiset(b) - multiset{b[k]}
  {
    assert b == b[..k] + [b[k]] + b[k + 1..];
  }

  /** The total does not depend on the order the grades come in. */
  lemma {:induction false} SumPermutation(a: seq<Grade>, b: seq<Grade>)
    requires multiset(a) == multiset(b)
    ensures Sum(a) == Sum(b)
  {
    if a == [] {
      assert |b| == |multiset(b)| == 0;
    } else {
      var x := a[0];
      assert a == [x] + a[1..];
      assert x in multiset(b);
      var k :| 0 <= k < |b| && b[k] == x;
      var rest := b[..k] + b[k + 1..];
      MultisetRemove(b, k);
      assert multiset(a[1..]) == multiset(a) - multiset{x};
      SumPermutation(a[1..], rest);
      SumRemove(b, k);
    }
  }

  /** A student's average is the same whatever order `student.grades` is loaded in. */
  lemma MeanPermutation(a: seq<Grade>, b: seq<Grade>)
    requires multiset(a) == multiset(b)
    ensures Mean(a) == Mean(b)
  {
    assert |a| == |multiset(a)| == |multiset(b)| == |b|;
    SumPermutation(a, b);
  }

  lemma {:induction false} SumBounds(grades: seq<Grade>, lo: real, hi: real)
    requires forall i :: 0 <= i < |grades| ==> lo <= grades[i].score <= hi
    ensures (|grades| as real) * lo <= Sum(grades) <= (|grades| as real) * hi
  {
    if grades != [] {
      var rest := grades[1..];
      assert forall i :: 0 <= i < |rest| ==> rest[i] == grades[i + 1];
      SumBounds(rest, lo, hi);
      var m := |rest| as real;
      assert Sum(grades) == grades[0].score + Sum(rest);
      assert (|grades| as real) == m + 1.0;
      assert (m + 1.0) * lo == m * lo + lo && (m + 1.0) * hi == m * hi + hi;
    }
  }

  /** The mean of scores that all lie in [lo, hi] lies in [lo, hi]. */
  lemma MeanBounds(grades: seq<Grade>, lo: real, hi: real)
    requires grades != []
    requires forall i :: 0 <= i < |grades| ==> lo <= grades[i].score <= hi
    ensures lo <= Mean(grades) <= hi
  {
    var n := |grades| as real;
    SumBounds(grades, lo, hi);
    var m := Mean(grades);
    assert (m - lo) * n >= 0.0;
    assert (hi - m) * n >= 0.0;
  }

  /** Scores within 0..100 give an average within 0..100, also with no grades at all. */
  lemma MeanInRange(grades: seq<Grade>)
    requires ScoresInRange(grades)
    ensures 0.0 <= Mean(grades) <= 100.0
  {
    if grades != [] {
      MeanBounds(grades, 0.0, 100.0);
    }
  }

  /** A sub-table of in-range scores is in range. */
  lemma FilterScoresInRange(grades: seq<Grade>, keep: Grade -> bool)
    requires ScoresInRange(grades)
    ensures ScoresInRange(Filter(grades, keep))
  {
    var r := Filter(grades, keep);
    forall i | 0 <= i < |r|
      ensures 0.0 <= r[i].score <= 100.0
    {
      assert r[i] in grades;
    }
  }

  /** `Student.calculate_average`: 0 for a student without grades, otherwise the sum of the
      student's scores divided by their number. */
  function CalculateAverage(grades: seq<Grade>, studentId: int): (r: real)
    ensures (forall i :: 0 <= i < |grades| ==> grades[i].studentId != studentId) ==> r == 0.0
    ensures GradesOf(grades, studentId) != [] ==>
      r * (|GradesOf(grades, studentId)| as real) == Sum(GradesOf(grades, studentId))
  {
    var own := GradesOf(grades, studentId);
    if own == [] then 0.0
    else
      assert exists i :: 0 <= i < |grades| && grades[i].studentId == studentId by {
        assert own[0] in grades;
      }
      Mean(own)
  }

  lemma AverageInRange(grades: seq<Grade>, studentId: int)
    requires ScoresInRange(grades)
    ensures 0.0 <= CalculateAverage(grades, studentId) <= 100.0
  {
    FilterScoresInRange(grades, IsOwnedBy(studentId));
    MeanInRange(GradesOf(grades, studentId));
  }

  function InSubject(subject: string): Grade -> bool {
    (g: Grade) => g.subject == subject
  }

  /** `Grade.query.filter_by(subject=subject).all()`: exact, case-sensitive match. */
  function SubjectGrades(grades: seq<Grade>, subject: string): (r: seq<Grade>)
    ensures forall g :: g in r <==> g in grades && g.subject == subject
    ensures forall g :: Count(r, g) == if g.subject == subject then Count(grades, g) else 0
    ensures r == [] <==> forall i :: 0 <= i < |grades| ==> grades[i].subject != subject
  {
    FilterCount(grades, InSubject(subject));
    var r := Filter(grades, InSubject(subject));
    assert r != [] ==> r[0] in grades;
    assert forall i :: 0 <= i < |grades| && grades[i].subject == subject ==> grades[i] in r;
    r
  }

  /** The class average of `subject`: absent when no grade has exactly that subject,
      otherwise the mean of the matching scores. */
  function ClassAverage(grades: seq<Grade>, subject: string): (r: Option<real>)
    ensures r.None? <==> forall i :: 0 <= i < |grades| ==> grades[i].subject != subject
    ensures r.Some? ==>
      r.value * (|SubjectGrades(grades, subject)| as real) == Sum(SubjectGrades(grades, subject))
  {
    var matching := SubjectGrades(grades, subject);
    if matching == [] then None else Some(Mean(matching))
  }

  lemma ClassAverageInRange(grades: seq<Grade>, subject: string)
    requires ScoresInRange(grades)
    requires ClassAverage(grades, subject).Some?
    ensures 0.0 <= ClassAverage(grades, subject).value <= 100.0
  {
    FilterScoresInRange(grades, InSubject(subject));
    MeanInRange(SubjectGrades(grades, subject));
  }

  /** A grade of `subject` with the highest score (the first row of
      `filter_by(subject=subject).order_by(score.desc())`), absent when none matches. */
  function TopGrade(grades: seq<Grade>, subject: string): (r: Option<Grade>)
    ensures r.None? <==> forall i :: 0 <= i < |grades| ==> grades[i].subject != subject
    ensures r.Some? ==> r.value in grades && r.value.subject == subject
    ensures r.Some? ==>
      forall i :: 0 <= i < |grades| && grades[i].subject == subject ==> grades[i].score <= r.value.score
  {
    if grades == [] then None
    else
      var rest := TopGrade(grades[1..], subject);
      assert forall i :: 1 <= i < |grades| ==> grades[i] == grades[1..][i - 1];
      if grades[0].subject != subject then rest
      else if rest.None? || rest.value.score <= grades[0].score then Some(grades[0])
      else rest
  }

  function SubjectNames(grades: seq<Grade>): (r: seq<string>)
    ensures |r| == |grades| && forall i :: 0 <= i < |grades| ==> r[i] == grades[i].subject
  {
    seq(|grades|, i requires 0 <= i < |grades| => grades[i].subject)
  }

  /** `sorted(list(set(grade.subject for grade in grades)))`: ascending, without repeats,
      and holding exactly the subjects that occur in some grade. */
  function Subjects(grades: seq<Grade>): (r: seq<string>)
    ensures StringOrder.StrictlySorted(r)
    ensures forall i, j :: 0 <= i < j < |r| ==> r[i] != r[j]
    ensures forall x :: x in r <==> exists i :: 0 <= i < |grades| && grades[i].subject == x
  {
    var names := SubjectNames(grades);
    var r := StringOrder.SortedDistinct(names);
    StringOrder.SortedIsDistinct(r);
    assert forall x :: x in names <==> exists i :: 0 <= i < |grades| && grades[i].subject == x by {
      forall x
        ensures x in names <==> exists i :: 0 <= i < |grades| && grades[i].subject == x
      {
        if x in names {
          var i :| 0 <= i < |names| && names[i] == x;
          assert grades[i].subject == x;
        }
      }
    }
    r
  }

  /** The subject list is the only ascending, repeat-free listing of the stored subjects. */
  lemma SubjectsUnique(grades: seq<Grade>, listing: seq<string>)
    requires StringOrder.StrictlySorted(listing)
    requires forall x :: x in listing <==> exists i :: 0 <= i < |grades| && grades[i].subject == x
    ensures listing == Subjects(grades)
  {
    StringOrder.SortedUnique(listing, Subjects(grades));
  }
}
