# GradePal grade aggregation and due-date filter, in Dafny

GradePal is a personal grade tracker. It keeps classes, weighted grades and
assignments in three tables and derives from them:

- the **weighted average** of a class: every grade contributes
  `grade * weight / 100` points, points and weights are summed, and the average is
  `points / weight * 100`, or exactly 0 when the weights sum to 0 (no grades
  included). The value is written back into the class's `current_avg`;
- the **term GPA** of a `(year, term)`: the unweighted mean of the freshly computed
  averages of the classes of that term, 0 when it has none;
- the **program GPA**: the unweighted mean of the term GPAs over the distinct
  `(year, term)` pairs, 0 when there are none;
- the **upcoming assignments**: the pending assignments, in table order, whose due
  date is at most now + 7 days. There is no lower bound, so overdue pending
  assignments stay listed. A due date that does not parse aborts the listing.

The model:

- `stats.dfy` (module `Stats`): sums and unweighted means of a measure over a
  sequence, with order independence and bounds.
- `grades.dfy` (module `Grades`): the weighted average of a sequence of
  `(grade, weight)` entries and its properties.
- `gpa.dfy` (module `Gpa`): the rows of the classes and grades tables, the three
  queries the aggregation runs, and the term and program GPA as functions of the
  table contents.
- `store.dfy` (module `Store`): class `RecordStore` holds the tables in memory.
  Its methods are GradePal's operations. The GPA methods run GradePal's loops
  with their accumulators. Each computing method is proved against the functions
  of `Gpa` or `Schedule`; each insert method states its new state in terms of the old.
- `schedule.dfy` (module `Schedule`): the pending-row query and the due-date filter.

Modelling choices:

- Grades, weights and averages are exact `real`s.
- A due date is kept as the text the user typed, as in the table. Parsing it is a
  parameter `parse: string -> Option<int>` giving a day number, or `None` for a
  text the date format rejects.
- "Now" is a parameter `Now(day, micros)`: a day number and the microseconds since
  that day's midnight. A parsed due date stands for midnight of its day.
- The rows of a query are taken in table order. GradePal's queries have no
  `ORDER BY`. Lemmas show that the class average does not depend on the order of
  the grade rows, and the term and program GPA not on the order of the class ids
  or of the (year, term) pairs.
- The `classes` table of GradePal's schema has no `year` or `term` column, but
  `add_class` and both GPA queries use them. The model gives every class row a
  `YearTerm`, as the rest of the program expects.
- Class ids are distinct and come from an AUTOINCREMENT counter (`nextClassId`).
  `RecordStore.Valid()` keeps this, and keeps `current_avg` defined for exactly
  the existing classes. `AddClass` returns the new id, which `add_class` does not.

## Model

| member | source | states |
|---|---|---|
| Grades.WeightedScoreIsRawScaled | GradePal.py:68 | the sum of grade·weight/100 is the sum of grade·weight divided by 100 |
| Grades.Average | GradePal.py:68-74 | 0 for no grades and whenever the weights sum to 0; otherwise Σ grade·weight / Σ weight |
| Grades.AverageScaleInvariant | GradePal.py:68-74 | multiplying every weight by the same positive factor leaves the average unchanged |
| Grades.ScoreBounds | GradePal.py:68-69 | with positive weights the total weight is positive and lo·Σw ≤ Σ grade·weight ≤ hi·Σw when all grades are in [lo, hi] |
| Grades.AverageWithin | GradePal.py:68-74 | with positive weights, the average of a non-empty class lies in any range that holds all its grades |
| Grades.AverageBetweenMinAndMax | GradePal.py:68-74 | with positive weights the average lies between the lowest and the highest grade |
| Grades.AveragePercentRange | GradePal.py:68-74 | grades in [0, 100] with positive weights give an average in [0, 100], also with no grades |
| Grades.AverageExamples | GradePal.py:68-74 | (90,50),(70,50) gives 80; (100,30),(50,20) gives 80; (80,0) gives 0 |
| Stats.SumByPermutation | GradePal.py:91-94 | a running total does not depend on the order of the items |
| Stats.MeanByPermutation | GradePal.py:114-122 | the mean does not depend on the order of the items |
| Stats.MeanByBounds | GradePal.py:119-122 | a mean of values in [lo, hi] is in [lo, hi] |
| Gpa.GradesOf | GradePal.py:65-66 | an entry is returned exactly when a grade row of that class holds it, and never more entries than rows |
| Gpa.GradesOfConcat | GradePal.py:65-69 | the entries of a table split in two are those of the first part followed by those of the second: one entry per matching row, in table order, so repeated equal grades each count in the sums |
| Gpa.GradesOfOne | GradePal.py:65-66 | a single row yields its (grade, weight) exactly when its class id matches, and nothing otherwise |
| Gpa.AverageSumsAreSums | GradePal.py:68-69 | the total weight and the unscaled points Σ grade·weight are running totals of a per-row measure, so the order-independence of sums applies to them |
| Gpa.AveragePermutation | GradePal.py:65-74 | the class average is the same for any order in which the grade query returns the class's rows |
| Gpa.ClassIdsIn | GradePal.py:85-89 | an id is returned exactly when a class row with that id has the given year and term, and with distinct class ids no id is returned twice, so the count is the number of classes in the term |
| Gpa.DistinctTerms | GradePal.py:108-109 | no pair is returned twice, and a pair is returned exactly when some class has it |
| Gpa.ClassIdsInMember | GradePal.py:85-86 | with distinct ids, a class is returned for a term exactly when it belongs to it |
| Gpa.TermGpaCases | GradePal.py:88-99 | a term without classes has GPA 0; otherwise the GPA is the sum of its class averages divided by their number |
| Gpa.TermGpaOrderIndependent | GradePal.py:85-99 | reading the term's class ids in any order gives the same term GPA |
| Gpa.ProgramGpaNoTerms | GradePal.py:108-122 | there are no distinct pairs exactly when there are no classes, and then the program GPA is 0 |
| Gpa.ProgramGpaOrderIndependent | GradePal.py:108-122 | reading the distinct pairs in any order gives the same program GPA |
| Gpa.ClassAveragePercent | GradePal.py:62-79 | percentage grades with positive weights give every class an average in [0, 100] |
| Gpa.TermGpaPercent | GradePal.py:82-102 | the same condition gives every term GPA in [0, 100] |
| Gpa.ProgramGpaPercent | GradePal.py:105-125 | the same condition gives a program GPA in [0, 100] |
| Gpa.ExampleClassAverages | GradePal.py:62-79 | the example classes average 90, 70 and 90 |
| Gpa.ExampleTermGpas | GradePal.py:82-102 | classes averaging 90 and 70 in one term give term GPA 80; the other term has GPA 90 |
| Gpa.ExampleProgramGpa | GradePal.py:105-125 | terms with GPA 80 and 90 give program GPA 85 |
| Schedule.DueWithinWindowIsDayBound | GradePal.py:135-136 | midnight of the due day is at most now + 7 days exactly when the due day is at most today + 7 |
| Schedule.PendingRows | GradePal.py:131-132 | a row is returned exactly when it is in the table with status pending |
| Schedule.UpcomingStep | GradePal.py:131-136 | on the first row: a non-pending row is skipped, an unparsable pending date is the error, a pending row due soon is listed first |
| Schedule.UpcomingOne | GradePal.py:131-136 | a one-row table: a completed row gives an empty listing, an unparsable pending date the error, a parsable one its (title, due date) exactly when due within the window |
| Schedule.UpcomingConcat | GradePal.py:131-136 | the listing of two tables one after the other is the first listing followed by the second: table order is kept, and the first error wins |
| Schedule.UpcomingError | GradePal.py:136 | the listing fails exactly when some pending row's date does not parse, and reports the first such row's date |
| Schedule.UpcomingMembers | GradePal.py:131-136 | a successful listing holds exactly the pending, parsable rows due within the window, as (title, due date) |
| Schedule.OverdueStaysListed | GradePal.py:135-136 | a pending row due before today is listed |
| Schedule.ListedAreDueSoon | GradePal.py:131-136 | every listed entry comes from a pending row due on or before today + 7 |
| Schedule.UpcomingExample | GradePal.py:131-136 | pending rows due today+3, today+10 and yesterday and a completed row list the first and the third only |
| Store.RecordStore.constructor | GradePal.py:5-33 | all tables start empty |
| Store.RecordStore.AddClass | GradePal.py:36-41 | appends a class row with a fresh id and current_avg 0.0, nothing else changes |
| Store.RecordStore.AddGrade | GradePal.py:44-50 | appends a grade row, nothing else changes |
| Store.RecordStore.AddAssignment | GradePal.py:53-59 | appends an assignment row with status pending, nothing else changes |
| Store.RecordStore.CalculateWeightedAverage | GradePal.py:62-79 | returns the class's weighted average and sets only that class's current_avg to it; grades and other classes are unchanged |
| Store.RecordStore.CalculateTermGpa | GradePal.py:82-102 | returns the term GPA; every class of the term gets its weighted average as current_avg, classes of other terms keep theirs |
| Store.RecordStore.CalculateProgramGpa | GradePal.py:105-125 | returns the program GPA; every class ends with its weighted average as current_avg |
| Store.RecordStore.GetUpcomingAssignments | GradePal.py:128-137 | fails exactly when a pending due date does not parse; otherwise lists exactly the pending rows due on or before today + 7, overdue ones included |

## Left out

- Database plumbing: connecting, cursors, `commit` and `close`. The tables are fields of `RecordStore`.
- The schema check `status IN ('pending', 'completed')` is the `Status` datatype. The unused `goal` column is not modelled.
- Grade ids and assignment ids are not modelled. The core never reads them.
- Foreign keys are not checked, as SQLite does not check them by default. A grade or an assignment may name any class id.
- The insert statements with `year` and `term` fail against the schema as written. The model gives classes a year and a term instead.
- `display_gpa_by_year_and_term`, `main` and the `:.2f` formatting are console I/O only.
- `datetime.now()` reads the clock, so "now" is a parameter.
- `strptime` with `%Y-%m-%d` is library parsing, modelled as the `parse` parameter. Where it fails, the listing returns `Err(MalformedDate(text))` instead of raising.
- Date overflow of `now + 7 days` near the last representable year is not modelled, because day numbers are unbounded integers.
- IEEE floating-point rounding is not modelled, because values are exact reals. Python returns the integer `0` in the zero branches, and the model returns `0.0`.
- The row order of queries without `ORDER BY` is unspecified. The model uses table order. For the grade, class-id and pair queries, order-independence lemmas cover any other order. The upcoming listing keeps the pending query's order, taken as table order, and so does the choice of which malformed date is reported. For another order, only which rows are listed (`UpcomingMembers`) and whether the listing fails (`UpcomingError`) are still established.
