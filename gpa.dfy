/** The tables the aggregation reads, the queries it runs on them, and the values
    calculate_weighted_average, calculate_term_gpa and calculate_program_gpa compute,
    as functions of the table contents. The rows of a query are taken in table order;
    the order-independence lemmas show that no average or GPA depends on that choice. */
module Gpa {
  import Grades
  import Stats

  datatype YearTerm = YearTerm(year: int, term: int)

  /** A row of the classes table (its cached current_avg is kept by the store). */
  datatype ClassRow = ClassRow(id: int, name: string, yearTerm: YearTerm)

  /** A row of the grades table. */
  datatype GradeRow = GradeRow(classId: int, assignmentName: string, grade: real, weight: real)

  predicate DistinctIds(classes: seq<ClassRow>)
  {
    forall j, k :: 0 <= j < k < |classes| ==> classes[j].id != classes[k].id
  }

  function ClassIds(classes: seq<ClassRow>): set<int>
  {
    set k | 0 <= k < |classes| :: classes[k].id
  }

  /** The (grade, weight) of every grade row of class id, one entry per row, in table order. */
  function GradesOf(grades: seq<GradeRow>, id: int): (r: seq<Grades.GradeEntry>)
    ensures |r| <= |grades|
    ensures forall e :: e in r <==>
              exists k :: 0 <= k < |grades| && grades[k].classId == id &&
                          e == Grades.GradeEntry(grades[k].grade, grades[k].weight)
  {
    if grades == [] then []
    else
      var rest := GradesOf(grades[1..], id);
      assert forall k :: 1 <= k < |grades| ==> grades[1..][k - 1] == grades[k];
      if grades[0].classId == id then [Grades.GradeEntry(grades[0].grade, grades[0].weight)] + rest
      else rest
  }

  /** The query returns one entry per matching grade row, in table order: the result
      for a table split in two is the result for the first part followed by the second. */
  lemma {:induction false} GradesOfConcat(a: seq<GradeRow>, b: seq<GradeRow>, id: int)
    ensures GradesOf(a + b, id) == GradesOf(a, id) + GradesOf(b, id)
  {
    if a == [] {
      assert a + b == b;
    } else {
      assert (a + b)[0] == a[0] && (a + b)[1..] == a[1..] + b;
      GradesOfConcat(a[1..], b, id);
    }
  }

  /** A one-row table yields that row's (grade, weight) exactly when it belongs to the class. */
  lemma GradesOfOne(row: GradeRow, id: int)
    ensures GradesOf([row], id) ==
      if row.classId == id then [Grades.GradeEntry(row.grade, row.weight)] else []
  {
    assert [row][1..] == [];
  }

  function EntryWeight(e: Grades.GradeEntry): real
  {
    e.weight
  }

  function EntryPoints(e: Grades.GradeEntry): real
  {
    e.grade * e.weight
  }

  /** The two sums of the weighted average are running totals of a measure per entry. */
  lemma {:induction false} AverageSumsAreSums(gs: seq<Grades.GradeEntry>)
    ensures Grades.TotalWeight(gs) == Stats.SumBy(gs, EntryWeight)
    ensures Grades.RawScore(gs) == Stats.SumBy(gs, EntryPoints)
  {
    if gs != [] {
      AverageSumsAreSums(gs[1..]);
      assert [gs[0]] + gs[1..] == gs;
      Stats.SumByCons(gs[0], gs[1..], EntryWeight);
      Stats.SumByCons(gs[0], gs[1..], EntryPoints);
    }
  }

  /** The class average does not depend on the order in which the grade query returns
      the class's rows. */
  lemma AveragePermutation(gs: seq<Grades.GradeEntry>, hs: seq<Grades.GradeEntry>)
    requires multiset(gs) == multiset(hs)
    ensures Grades.Average(gs) == Grades.Average(hs)
  {
    AverageSumsAreSums(gs);
    AverageSumsAreSums(hs);
    Stats.SumByPermutation(gs, hs, EntryWeight);
    Stats.SumByPermutation(gs, hs, EntryPoints);
  }

  /** The weighted average calculate_weighted_average returns for class id. */
  function ClassAverage(grades: seq<GradeRow>, id: int): real
  {
    Grades.Average(GradesOf(grades, id))
  }

  function ClassAverageOf(grades: seq<GradeRow>): int -> real
  {
    id => ClassAverage(grades, id)
  }

  /** The id of every class row of the given year and term, one per row, in table order. */
  function ClassIdsIn(classes: seq<ClassRow>, yt: YearTerm): (r: seq<int>)
    ensures |r| <= |classes|
    ensures forall id :: id in r <==>
              exists k :: 0 <= k < |classes| && classes[k].id == id && classes[k].yearTerm == yt
    ensures DistinctIds(classes) ==> forall i, j :: 0 <= i < j < |r| ==> r[i] != r[j]
  {
    if classes == [] then []
    else
      var rest := ClassIdsIn(classes[1..], yt);
      assert forall k :: 1 <= k < |classes| ==> classes[1..][k - 1] == classes[k];
      assert DistinctIds(classes) ==> DistinctIds(classes[1..]) && classes[0].id !in rest;
      if classes[0].yearTerm == yt then [classes[0].id] + rest else rest
  }

  /** Each (year, term) pair some class row has, once, in order of first occurrence. */
  function DistinctTerms(classes: seq<ClassRow>): (r: seq<YearTerm>)
    ensures forall i, j :: 0 <= i < j < |r| ==> r[i] != r[j]
    ensures forall yt :: yt in r <==> exists k :: 0 <= k < |classes| && classes[k].yearTerm == yt
  {
    if classes == [] then []
    else
      var n := |classes| - 1;
      var rest := DistinctTerms(classes[..n]);
      assert forall k :: 0 <= k < n ==> classes[..n][k] == classes[k];
      if classes[n].yearTerm in rest then rest else rest + [classes[n].yearTerm]
  }

  /** The unweighted mean of the class averages of ids; 0 when ids is empty. */
  function AverageOfClasses(grades: seq<GradeRow>, ids: seq<int>): real
  {
    Stats.MeanBy(ids, ClassAverageOf(grades))
  }

  /** The term GPA calculate_term_gpa returns. */
  function TermGpa(classes: seq<ClassRow>, grades: seq<GradeRow>, yt: YearTerm): real
  {
    AverageOfClasses(grades, ClassIdsIn(classes, yt))
  }

  function TermGpaOf(classes: seq<ClassRow>, grades: seq<GradeRow>): YearTerm -> real
  {
    yt => TermGpa(classes, grades, yt)
  }

  /** The program GPA calculate_program_gpa returns: the unweighted mean of the term GPAs. */
  function ProgramGpa(classes: seq<ClassRow>, grades: seq<GradeRow>): real
  {
    Stats.MeanBy(DistinctTerms(classes), TermGpaOf(classes, grades))
  }

  /** With distinct ids, a class is returned by the term query exactly when it is in that term. */
  lemma ClassIdsInMember(classes: seq<ClassRow>, yt: YearTerm, k: nat)
    requires DistinctIds(classes) && k < |classes|
    ensures classes[k].id in ClassIdsIn(classes, yt) <==> classes[k].yearTerm == yt
  {
  }

  /** A term without classes has GPA 0; otherwise its GPA is the sum of its classes'
      averages divided by their number. */
  lemma TermGpaCases(classes: seq<ClassRow>, grades: seq<GradeRow>, yt: YearTerm)
    ensures (forall k :: 0 <= k < |classes| ==> classes[k].yearTerm != yt) ==> TermGpa(classes, grades, yt) == 0.0
    ensures var ids := ClassIdsIn(classes, yt);
      (exists k :: 0 <= k < |classes| && classes[k].yearTerm == yt) ==>
        |ids| > 0 && TermGpa(classes, grades, yt) == Stats.SumBy(ids, ClassAverageOf(grades)) / (|ids| as real)
  {
  }

  /** The term GPA does not depend on the order in which the term's classes are read. */
  lemma TermGpaOrderIndependent(classes: seq<ClassRow>, grades: seq<GradeRow>, yt: YearTerm, ids: seq<int>)
    requires multiset(ids) == multiset(ClassIdsIn(classes, yt))
    ensures AverageOfClasses(grades, ids) == TermGpa(classes, grades, yt)
  {
    Stats.MeanByPermutation(ids, ClassIdsIn(classes, yt), ClassAverageOf(grades));
  }

  /** There are no distinct terms exactly when there are no classes, and then the
      program GPA is 0. */
  lemma ProgramGpaNoTerms(classes: seq<ClassRow>, grades: seq<GradeRow>)
    ensures DistinctTerms(classes) == [] <==> classes == []
    ensures classes == [] ==> ProgramGpa(classes, grades) == 0.0
  {
  }

  /** The program GPA does not depend on the order in which the distinct terms are read. */
  lemma ProgramGpaOrderIndependent(classes: seq<ClassRow>, grades: seq<GradeRow>, yts: seq<YearTerm>)
    requires multiset(yts) == multiset(DistinctTerms(classes))
    ensures Stats.MeanBy(yts, TermGpaOf(classes, grades)) == ProgramGpa(classes, grades)
  {
    Stats.MeanByPermutation(yts, DistinctTerms(classes), TermGpaOf(classes, grades));
  }

  /** The grade rows all hold a percentage with a positive weight. */
  ghost predicate PercentGrades(grades: seq<GradeRow>)
  {
    forall k :: 0 <= k < |grades| ==> 0.0 <= grades[k].grade <= 100.0 && grades[k].weight > 0.0
  }

  lemma ClassAveragePercent(grades: seq<GradeRow>, id: int)
    requires PercentGrades(grades)
    ensures 0.0 <= ClassAverage(grades, id) <= 100.0
  {
    var gs := GradesOf(grades, id);
    forall i | 0 <= i < |gs|
      ensures gs[i].weight > 0.0 && 0.0 <= gs[i].grade <= 100.0
    {
      assert gs[i] in gs;
    }
    Grades.AveragePercentRange(gs);
  }

  lemma TermGpaPercent(classes: seq<ClassRow>, grades: seq<GradeRow>, yt: YearTerm)
    requires PercentGrades(grades)
    ensures 0.0 <= TermGpa(classes, grades, yt) <= 100.0
  {
    var ids := ClassIdsIn(classes, yt);
    forall i | 0 <= i < |ids|
      ensures 0.0 <= ClassAverageOf(grades)(ids[i]) <= 100.0
    {
      ClassAveragePercent(grades, ids[i]);
    }
    Stats.MeanByBounds(ids, ClassAverageOf(grades), 0.0, 100.0);
  }

  /** Percentage grades with positive weights give a program GPA between 0 and 100. */
  lemma ProgramGpaPercent(classes: seq<ClassRow>, grades: seq<GradeRow>)
    requires PercentGrades(grades)
    ensures 0.0 <= ProgramGpa(classes, grades) <= 100.0
  {
    var yts := DistinctTerms(classes);
    forall i | 0 <= i < |yts|
      ensures 0.0 <= TermGpaOf(classes, grades)(yts[i]) <= 100.0
    {
      TermGpaPercent(classes, grades, yts[i]);
    }
    Stats.MeanByBounds(yts, TermGpaOf(classes, grades), 0.0, 100.0);
  }

  /** Worked case: classes averaging 90 and 70 in term (2024, 1) and one averaging 90 in
      (2024, 2) give term GPAs 80 and 90 and a program GPA of 85. */
  const ExampleClasses: seq<ClassRow> :=
    [ClassRow(1, "A", YearTerm(2024, 1)), ClassRow(2, "B", YearTerm(2024, 1)), ClassRow(3, "C", YearTerm(2024, 2))]
  const ExampleGrades: seq<GradeRow> :=
    [GradeRow(1, "a", 90.0, 100.0), GradeRow(2, "b", 70.0, 100.0), GradeRow(3, "c", 90.0, 100.0)]

  lemma ExampleClassAverages()
    ensures ClassAverage(ExampleGrades, 1) == 90.0
    ensures ClassAverage(ExampleGrades, 2) == 70.0
    ensures ClassAverage(ExampleGrades, 3) == 90.0
  {
  }

  lemma ExampleTermGpas()
    ensures TermGpa(ExampleClasses, ExampleGrades, YearTerm(2024, 1)) == 80.0
    ensures TermGpa(ExampleClasses, ExampleGrades, YearTerm(2024, 2)) == 90.0
  {
    ExampleClassAverages();
    var c := ExampleClasses;
    assert c[1..] == [c[1], c[2]] && c[1..][1..] == [c[2]] && c[1..][1..][1..] == [];
    var t1, t2 := ClassIdsIn(c, YearTerm(2024, 1)), ClassIdsIn(c, YearTerm(2024, 2));
    assert t1 == [1, 2] && t2 == [3];
    assert t1[..1] == [1] && [1][..0] == [] && t2[..0] == [];
    assert Stats.SumBy(t1, ClassAverageOf(ExampleGrades)) == 160.0;
    assert Stats.SumBy(t2, ClassAverageOf(ExampleGrades)) == 90.0;
  }

  lemma ExampleDistinctTerms()
    ensures DistinctTerms(ExampleClasses) == [YearTerm(2024, 1), YearTerm(2024, 2)]
  {
    var c := ExampleClasses;
    assert c[..2] == [c[0], c[1]] && c[..2][..1] == [c[0]] && c[..1] == [c[0]] && c[..1][..0] == [];
    assert DistinctTerms(c[..1]) == [YearTerm(2024, 1)];
    assert DistinctTerms(c[..2]) == [YearTerm(2024, 1)];
  }

  lemma ExampleProgramGpa()
    ensures ProgramGpa(ExampleClasses, ExampleGrades) == 85.0
  {
    ExampleTermGpas();
    ExampleDistinctTerms();
    var yts := DistinctTerms(ExampleClasses);
    assert yts[..1] == [YearTerm(2024, 1)] && yts[..1][..0] == [];
    var f := TermGpaOf(ExampleClasses, ExampleGrades);
    assert f(YearTerm(2024, 1)) == 80.0 && f(YearTerm(2024, 2)) == 90.0;
    assert Stats.SumBy(yts[..1], f) == 80.0;
    assert Stats.SumBy(yts, f) == 170.0;
  }
}
