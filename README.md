# Student tracker: record store and aggregations

A Dafny model of the core of a small Flask application that records students, their
per-subject grades and statistics derived from them. The HTTP routes are thin wrappers
around three kinds of logic, and those are what is modelled:

- **The record store** (`records.dfy`). It has two tables. `Student` rows have an id, a
  name and a roll number. `Grade` rows have an id, a subject, a score and the id of the
  owning student. `Consistent` states the integrity that every reachable state keeps:
  - ids are unique;
  - roll numbers are unique;
  - every grade's owner is a stored student;
  - every score lies in 0..100;
  - names and subjects are non-empty.
- **The mutating handlers** (`handlers.dfy`, `store.dfy`). `add_student`, `add_grade` and
  `delete_student` are pure step functions. Each takes a store state and the request's
  form fields, and gives the next state and an outcome. A failing handler returns the state
  unchanged with the reason, which is the `flash` category "error" of the source, or
  `NotFound` for `get_or_404`. `Store.Registry` is the store as the application changes it
  in place: a class with `students`/`grades` fields whose methods are proved equal to
  those step functions. Its `Index` method is the listing page's loop.
- **The reductions** (`aggregates.dfy`, `string_order.dfy`). They are a student's average,
  the class average of a subject, the top grade of a subject and the sorted list of
  distinct subjects.
- **Python's `int()`** (`py_int.dfy`), as `add_student` applies it to the roll number.
  Surrounding whitespace is stripped: ASCII tab, line feed, vertical tab, form feed,
  carriage return and space, and the non-ASCII characters that `str.isspace` accepts (the
  ASCII separators U+001C..U+001F are not stripped). An optional sign may lead. Digits may be grouped by
  single underscores. Any other text is a ValueError. The integer read is the one whose
  decimal spelling is the text without its `+` sign, underscores and leading zeros.

`scenarios.dfy` works through small concrete stores: a duplicate roll number is refused,
an add/grade/delete sequence empties the store, the score bounds are inclusive, and a
three-grade example gives a topper of 95 and a math average of 82.5.

Scores are `real`. `float(score_str)` is a parameter `parseFloat: string -> Option<real>`
of the handlers. It returns `None` where Python raises ValueError and also for NaN and the
infinities, which the range check rejects in the same way. New row ids follow SQLite's
rule for an integer primary key: one more than the largest id in the table, or 1 in an
empty table. SQLite is the application's default database.

Two behaviours of the code that a reader might not expect:
- A name or subject of whitespace only counts as present, because the code tests Python
  truthiness and not blank text. A roll number of whitespace only passes the "required"
  check and then fails the integer parse (`PyInt.ParseRejectsBlank`).
- The topper among equal top scores is whatever row the database returns first for
  `order_by(score.desc()).first()`. It is not necessarily the first grade in insertion order, so the
  model promises only that the chosen grade has a maximal score.

## Model

| member | source | states |
|---|---|---|
| Records.FindStudent | app.py:117 | `get_or_404`: absent exactly when no stored student has the id; otherwise a stored student with that id |
| Records.FindByRoll | app.py:100 | absent exactly when no student holds the roll number; otherwise a stored student holding it |
| Records.GradesOf | app.py:33 | `student.grades` holds exactly the stored grades whose foreign key names the student, each as many times as it is stored |
| Records.WithoutStudent | app.py:154 | the student table after the delete holds exactly the other students |
| Records.WithoutGradesOf | app.py:33 | the cascade keeps exactly the grades owned by other students |
| Records.NextStudentId | app.py:27 | the id given to a new student is at least 1 and not held by any stored student |
| Records.NextGradeId | app.py:50 | the id given to a new grade is at least 1 and not held by any stored grade |
| Records.Consistent | app.py:27-54 | the integrity rules (the primary keys and `unique=True` on roll numbers, `nullable=False` with the handlers' required checks, the foreign key from grade to student, scores within 0..100); in a consistent store a roll number looks up exactly the student holding it and every grade's owner can be looked up |
| Records.FilterCount | app.py:33 | a `filter_by` query returns every selected row as many times as it is stored, and no other row |
| Records.CountIsMultiplicity | app.py:33 | the occurrence count used above is the multiplicity of the row in the multiset of the table |
| Records.FilterKeepsUniqueKeys | app.py:29 | deleting rows never makes two remaining rows share a unique key |
| Aggregates.Sum | app.py:39 | the total of the scores equals Python's `sum`: adding them one at a time from the left, starting from 0 (also the sum at app.py:192) |
| Aggregates.Mean | app.py:35-40 | 0 for no grades; otherwise the value that, times the number of grades, gives their total |
| Aggregates.CalculateAverage | app.py:35-40 | 0 for a student with no grades; otherwise sum/len of that student's scores |
| Aggregates.SumPermutation | app.py:39 | the total of the scores does not depend on their order |
| Aggregates.MeanPermutation | app.py:35-40 | the average is the same whatever order the student's grades are loaded in |
| Aggregates.MeanInRange | app.py:35-40 | scores within 0..100 give a mean within 0..100, also for no grades |
| Aggregates.AverageInRange | app.py:35-40 | in a store whose scores lie in 0..100, every student's average lies in 0..100 |
| Aggregates.SubjectGrades | app.py:190 | the subject's grades are exactly the stored grades whose subject matches exactly, each as many times as it is stored; none exactly when no grade has the subject |
| Aggregates.ClassAverage | app.py:189-193 | absent exactly when no grade has that subject; otherwise the mean of the matching scores |
| Aggregates.ClassAverageInRange | app.py:189-193 | a present class average lies in 0..100 when every score does |
| Aggregates.TopGrade | app.py:171 | absent exactly when no grade has the subject; otherwise a stored grade of that subject whose score is at least every score of that subject |
| Aggregates.Subjects | app.py:178 | the subject list is strictly ascending, repeat-free and holds exactly the subjects of stored grades |
| Aggregates.SubjectsUnique | app.py:178 | any ascending repeat-free listing of the stored subjects is the subject list, so it is determined |
| StringOrder.LessIrreflexive | app.py:178 | no string sorts before itself |
| StringOrder.LessTransitive | app.py:178 | the string order used by `sorted` is transitive |
| StringOrder.LessTotal | app.py:178 | any two different strings are ordered one way or the other |
| StringOrder.SortedIsDistinct | app.py:178 | a strictly ascending list holds no element twice |
| StringOrder.Insert | app.py:178 | inserting into a strictly ascending list keeps it strictly ascending and adds exactly the new element |
| StringOrder.SortedDistinct | app.py:178 | `sorted(set(xs))` is strictly ascending and holds exactly the elements of `xs` |
| StringOrder.SortedUnique | app.py:178 | two strictly ascending lists with the same elements are equal |
| PyInt.ParseInt | app.py:94 | `int(roll_number)`: after surrounding whitespace (ASCII `\t\n\v\f\r` and space, plus the non-ASCII `str.isspace` characters) is stripped, an optional sign, then ASCII digits with single underscores between them, and `None` for any other text; the contract states that the parse succeeds exactly when the stripped text has that shape, and that a negative result was written with a minus sign |
| PyInt.ParseIntValue | app.py:94 | the integer read is the one whose decimal spelling is the stripped text with a `+` sign, underscores and leading zeros dropped (and the sign of a zero dropped): "+007" and "0_7" read as 7, "-0" as 0; together with `ParseInt` this says exactly which texts read as which integer |
| PyInt.ParsedMagnitude | app.py:94 | an accepted text reads as the value of its digits after the sign, negated exactly after a minus sign |
| PyInt.CanonicalMagnitude | app.py:94 | a run of digits and underscores, with underscores and leading zeros dropped, is the decimal spelling of its value |
| PyInt.ShowDigitsValue | app.py:94 | a digit string without leading zeros is the decimal spelling of its own value |
| PyInt.SignedShape | app.py:94 | a signed text has the integer shape exactly when what follows the sign is digits with single underscores between them |
| PyInt.StripStart | app.py:94 | `int()` drops leading whitespace (ASCII `\t\n\v\f\r` and space, plus the non-ASCII `str.isspace` characters) only: a suffix remains that does not start with a space |
| PyInt.StripEnd | app.py:94 | `int()` drops trailing whitespace (the same set) only: a prefix remains that does not end with a space |
| PyInt.ShowNatValue | app.py:94 | the digits of a natural number read back as that number |
| PyInt.ParseShowRoundTrip | app.py:94 | every integer's decimal spelling parses back to that integer |
| PyInt.ParsePaddedRoundTrip | app.py:94 | whitespace `int()` strips (ASCII `\t\n\v\f\r` and space, plus the non-ASCII `str.isspace` characters) around a roll number does not change the integer read |
| PyInt.ParseRejectsSeparator | app.py:93-97 | the ASCII file separator U+001C is not whitespace to `int()`: the text "\x1c5" is not an integer |
| PyInt.ParseRejectsBlank | app.py:89-97 | a whitespace-only roll number passes the required check but is not an integer |
| Handlers.AddStudent | app.py:82-109 | stated with `Present`, Python truthiness of a form field (sent and not empty, app.py:89): a missing name or roll number, a non-integer roll number, or a roll number already held each fail with their own error and change nothing; otherwise exactly one student with a fresh id is appended and the grades are untouched |
| Handlers.AddGrade | app.py:113-137 | stated with `Present` for the truthiness test at app.py:121: an unknown student id is the not-found failure; then a missing subject or score, then an unparsable or out-of-range score (bounds inclusive), each fail and change nothing; otherwise exactly one grade owned by that student is appended and the students are untouched |
| Handlers.DeleteStudent | app.py:149-157 | an unknown id is the not-found failure and changes nothing; otherwise the student and exactly the grades it owns are removed |
| Handlers.AddStudentKeepsConsistent | app.py:99-107 | `add_student` keeps ids and roll numbers unique and all the other store invariants |
| Handlers.AddGradeKeepsConsistent | app.py:121-135 | `add_grade` keeps every score in 0..100, every grade owned and all the other store invariants |
| Handlers.DeleteStudentKeepsConsistent | app.py:153-155 | the cascading delete leaves no grade referencing a missing student and keeps all the other store invariants |
| Handlers.DeleteRemovesExactlyOne | app.py:153-155 | deleting an existing student removes exactly its row and leaves the others in order |
| Handlers.DeleteLeavesNothingBehind | app.py:153-155 | after a delete the id is not found and no grade is owned by it |
| Handlers.DeleteKeepsOthers | app.py:153-155 | every other student, and the grades it owns, are unchanged by a delete |
| Handlers.RunKeepsConsistent | app.py:81-157 | any sequence of requests from a consistent store leads to a consistent store |
| Handlers.ReachableStatesConsistent | app.py:81-157 | every state reachable from the empty store has unique roll numbers, owned grades and scores in 0..100 |
| Handlers.RowOf | app.py:72-78 | a listing row carries the student's id, name and roll number, its grades as `student.grades` gives them (each stored grade it owns, as often as stored), and its average, which lies in 0..100 whenever the stored scores do |
| Handlers.StudentDetails | app.py:140-145 | not found exactly for an unknown id; otherwise that stored student with its grades as `student.grades` gives them |
| Handlers.SubjectTopper | app.py:162-179 | a topper only for a subject that is `Present` (the truthiness test at app.py:169), naming a stored student who owns a grade of that subject with the top score; in a consistent store there is a topper exactly when some grade has the subject; the subject list is always given |
| Handlers.ClassAveragePage | app.py:182-197 | an average exactly when the subject is `Present` (the truthiness test at app.py:189) and some grade has it, equal to the class average and within 0..100; the subject list is always given |
| Store.Registry.constructor | app.py:201-202 | a freshly created database has both tables empty and is consistent |
| Store.Registry.AddStudent | app.py:82-109 | the in-place insert performs exactly the `add_student` step and keeps the store consistent |
| Store.Registry.AddGrade | app.py:113-137 | the in-place insert performs exactly the `add_grade` step and keeps the store consistent |
| Store.Registry.DeleteStudent | app.py:149-157 | the in-place cascading delete performs exactly the `delete_student` step and keeps the store consistent |
| Store.Registry.Index | app.py:63-79 | on a consistent store, one row per student in table order, each the student's listing row (columns, grades, average), and every average within 0..100 |
| Scenarios.ParseOne | app.py:94 | the text "1" is the roll number 1 |
| Scenarios.DuplicateRollRefused | app.py:99-103 | a second student with the same roll number is refused and only the first is stored |
| Scenarios.DeleteEmptiesStore | app.py:105-155 | add a student, grade it, delete it: both tables are empty again |
| Scenarios.ScoreBoundsInclusive | app.py:127 | scores 0 and 100 are accepted; -0.01 and 100.01 are refused |
| Scenarios.TopperExample | app.py:171-175 | over math 70, math 95 and sci 60, the math top grade is the one scoring 95 |
| Scenarios.ClassAverageExample | app.py:189-193 | over the same grades the math average is 82.5 and there is no history average |
| Scenarios.SubjectListExample | app.py:196 | over the same grades the subject list is ["math", "sci"] |

## Left out

- Aggregates.CalculateAverage: returns the exact mean; the source rounds it with `round(x, 2)`, and floating-point rounding is not modelled.
- Aggregates.ClassAverage: returns the exact mean; the source rounds it to two decimals like the student average.
- Aggregates.TopGrade: states only that the chosen grade has a maximal score, because among equal scores the database's row order decides and that order is not part of the model.
- Handlers.AddGrade: the score parse `float(score_str)` is the parameter `parseFloat`. Floating-point parsing and representation are not modelled.
- Flask routing, `request.form`/`request.args` extraction, `redirect`, `url_for` and `render_template` are not modelled. Each handler takes its form fields as optional strings and returns an outcome.
- `flash` messages are not modelled. The outcome carries the error kind in place of the message text.
- SQLAlchemy sessions, `db.create_all`, the `DATABASE_URL` and secret-key configuration and the `postgres://` rewrite are not modelled. The tables are in-memory sequences, with SQLite's id rule.
- The race between the duplicate-roll check and the insert is not modelled: requests are served one at a time.
- The `String(100)` column width is not modelled: names and subjects are unbounded, as SQLite stores them.
- The 64-bit range of the integer columns is not modelled, nor Python's 4300-digit limit on `int()`.
- Non-ASCII Unicode decimal digits are not modelled: `int()` accepts them, and the model rejects them.
- Setting `topper.top_subject`/`topper.top_score` on the ORM object is not modelled as a mutation. The page's `Topper` value carries the subject and score instead.
