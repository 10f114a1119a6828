/** The record store the aggregation works on: the classes, grades and assignments
    tables and the current_avg column of classes, held in memory instead of a
    database file. Its methods are GradePal's operations on the store; the ones that
    compute averages also write each class average back into current_avg. */
module Store {
  import Grades
  import Gpa
  import Schedule
  import Stats

  class RecordStore {
    var classes: seq<Gpa.ClassRow>
    var grades: seq<Gpa.GradeRow>
    /** current_avg of every class, by class id. */
    var averages: map<int, real>
    var assignments: seq<Schedule.Assignment>
    /** The id the next inserted class receives (the AUTOINCREMENT counter). */
    var nextClassId: int

    ghost predicate Valid()
      reads this
    {
      Gpa.DistinctIds(classes) &&
      averages.Keys == Gpa.ClassIds(classes) &&
      (forall k :: 0 <= k < |classes| ==> classes[k].id < nextClassId) &&
      nextClassId >= 1
    }

    /** Empty tables (initialize_database on a fresh file). */
    constructor ()
      ensures Valid()
      ensures classes == [] && grades == [] && averages == map[] && assignments == []
      ensures nextClassId == 1
    {
      classes, grades, averages, assignments := [], [], map[], [];
      nextClassId := 1;
    }

    /** Inserts a class with a fresh id and current_avg 0.0, and returns the id. */
    method AddClass(name: string, year: int, term: int) returns (id: int)
      requires Valid()
      modifies this`classes, this`averages, this`nextClassId
      ensures Valid()
      ensures id == old(nextClassId) && nextClassId == id + 1
      ensures id !in old(averages)
      ensures classes == old(classes) + [Gpa.ClassRow(id, name, Gpa.YearTerm(year, term))]
      ensures averages == old(averages)[id := 0.0]
    {
      id := nextClassId;
      assert id !in Gpa.ClassIds(classes);
      classes := classes + [Gpa.ClassRow(id, name, Gpa.YearTerm(year, term))];
      averages := averages[id := 0.0];
      nextClassId := nextClassId + 1;
      assert Gpa.ClassIds(classes) == Gpa.ClassIds(old(classes)) + {id} by {
        assert forall k :: 0 <= k < |old(classes)| ==> classes[k] == old(classes)[k];
        assert classes[|classes| - 1].id == id;
      }
    }

    /** Appends a grade row; the class id is not checked against the classes table. */
    method AddGrade(classId: int, assignmentName: string, grade: real, weight: real)
      requires Valid()
      modifies this`grades
      ensures Valid()
      ensures grades == old(grades) + [Gpa.GradeRow(classId, assignmentName, grade, weight)]
    {
      grades := grades + [Gpa.GradeRow(classId, assignmentName, grade, weight)];
    }

    /** Appends an assignment row with status pending. */
    method AddAssignment(classId: int, title: string, dueDate: string)
      requires Valid()
      modifies this`assignments
      ensures Valid()
      ensures assignments == old(assignments) + [Schedule.Assignment(classId, title, dueDate, Schedule.Pending)]
    {
      assignments := assignments + [Schedule.Assignment(classId, title, dueDate, Schedule.Pending)];
    }

    /** calculate_weighted_average: computes the class's weighted average and writes it
        into its current_avg; an id without a class row changes nothing. */
    method CalculateWeightedAverage(classId: int) returns (average: real)
      requires Valid()
      modifies this`averages
      ensures Valid()
      ensures average == Gpa.ClassAverage(grades, classId)
      ensures averages == if classId in old(averages) then old(averages)[classId := average] else old(averages)
    {
      var rows := Gpa.GradesOf(grades, classId);
      var totalWeightedScore := Grades.WeightedScore(rows);
      var totalWeight := Grades.TotalWeight(rows);
      if totalWeight == 0.0 {
        average := 0.0;
      } else {
        average := totalWeightedScore / totalWeight * 100.0;
      }
      if classId in averages {
        averages := averages[classId := average];
      }
    }

    /** calculate_term_gpa: the mean of the recomputed averages of the classes of
        (year, term); on the way every such class gets its current_avg refreshed. */
    method CalculateTermGpa(year: int, term: int) returns (termGpa: real)
      requires Valid()
      modifies this`averages
      ensures Valid()
      ensures termGpa == Gpa.TermGpa(classes, grades, Gpa.YearTerm(year, term))
      ensures averages.Keys == old(averages).Keys
      ensures forall k :: 0 <= k < |classes| ==>
                averages[classes[k].id] ==
                  if classes[k].yearTerm == Gpa.YearTerm(year, term) then Gpa.ClassAverage(grades, classes[k].id)
                  else old(averages)[classes[k].id]
    {
      var yt := Gpa.YearTerm(year, term);
      var classIds := Gpa.ClassIdsIn(classes, yt);
      var totalGpa := 0.0;
      var totalClasses := |classIds|;
      for i := 0 to |classIds|
        invariant Valid() && averages.Keys == old(averages).Keys
        invariant totalGpa == Stats.SumBy(classIds[..i], Gpa.ClassAverageOf(grades))
        invariant forall k :: 0 <= k < |classes| ==>
                    averages[classes[k].id] ==
                      if classes[k].id in classIds[..i] then Gpa.ClassAverage(grades, classes[k].id)
                      else old(averages)[classes[k].id]
      {
        var classId := classIds[i];
        assert classId in Gpa.ClassIds(classes) by {
          assert classId in classIds;
          var k :| 0 <= k < |classes| && classes[k].id == classId && classes[k].yearTerm == yt;
        }
        var average := CalculateWeightedAverage(classId);
        totalGpa := totalGpa + average;
        assert classIds[..i + 1][..i] == classIds[..i];
        assert forall id :: id in classIds[..i + 1] <==> id in classIds[..i] || id == classId;
      }
      if totalClasses == 0 {
        termGpa := 0.0;
      } else {
        termGpa := totalGpa / totalClasses as real;
      }
      assert classIds[..|classIds|] == classIds;
      forall k | 0 <= k < |classes|
        ensures classes[k].id in classIds <==> classes[k].yearTerm == yt
      {
        Gpa.ClassIdsInMember(classes, yt, k);
      }
    }

    /** calculate_program_gpa: the mean of the term GPAs over the distinct (year, term)
        pairs; every class gets its current_avg refreshed. */
    method CalculateProgramGpa() returns (programGpa: real)
      requires Valid()
      modifies this`averages
      ensures Valid()
      ensures programGpa == Gpa.ProgramGpa(classes, grades)
      ensures averages.Keys == old(averages).Keys
      ensures forall k :: 0 <= k < |classes| ==> averages[classes[k].id] == Gpa.ClassAverage(grades, classes[k].id)
    {
      var yearsTerms := Gpa.DistinctTerms(classes);
      var totalGpa := 0.0;
      var totalTerms := 0;
      for i := 0 to |yearsTerms|
        invariant Valid() && averages.Keys == old(averages).Keys
        invariant totalTerms == i
        invariant totalGpa == Stats.SumBy(yearsTerms[..i], Gpa.TermGpaOf(classes, grades))
        invariant forall k :: 0 <= k < |classes| ==>
                    averages[classes[k].id] ==
                      if classes[k].yearTerm in yearsTerms[..i] then Gpa.ClassAverage(grades, classes[k].id)
                      else old(averages)[classes[k].id]
      {
        var yt := yearsTerms[i];
        var termGpa := CalculateTermGpa(yt.year, yt.term);
        totalGpa := totalGpa + termGpa;
        totalTerms := totalTerms + 1;
        assert yearsTerms[..i + 1][..i] == yearsTerms[..i];
        assert forall t :: t in yearsTerms[..i + 1] <==> t in yearsTerms[..i] || t == yt;
      }
      if totalTerms == 0 {
        programGpa := 0.0;
      } else {
        programGpa := totalGpa / totalTerms as real;
      }
      assert yearsTerms[..|yearsTerms|] == yearsTerms;
      assert programGpa == Stats.MeanBy(yearsTerms, Gpa.TermGpaOf(classes, grades));
    }

    /** get_upcoming_assignments over the assignments table. It reads and changes nothing
        else; it fails exactly when a pending row's due date does not parse, and otherwise
        lists exactly the pending rows due no later than today + 7, overdue ones included. */
    method GetUpcomingAssignments(now: Schedule.Now, parse: string -> Schedule.Option<int>)
      returns (upcoming: Schedule.Result<seq<Schedule.Listing>>)
      requires Schedule.ValidNow(now)
      ensures upcoming == Schedule.Upcoming(assignments, now, parse)
      ensures upcoming.Err? <==> exists i :: 0 <= i < |assignments| && Schedule.Unparsable(assignments[i], parse)
      ensures upcoming.Ok? ==> forall l :: l in upcoming.value <==>
                exists i :: 0 <= i < |assignments| && assignments[i].status == Schedule.Pending &&
                  parse(assignments[i].dueDate).Some? &&
                  parse(assignments[i].dueDate).value <= now.day + Schedule.WindowDays &&
                  l == Schedule.Listing(assignments[i].title, assignments[i].dueDate)
    {
      upcoming := Schedule.Upcoming(assignments, now, parse);
      Schedule.UpcomingError(assignments, now, parse);
      if upcoming.Ok? {
        Schedule.UpcomingMembers(assignments, now, parse);
        forall i | 0 <= i < |assignments| && parse(assignments[i].dueDate).Some?
          ensures Schedule.DueWithinWindow(parse(assignments[i].dueDate).value, now) <==>
                  parse(assignments[i].dueDate).value <= now.day + Schedule.WindowDays
        {
          Schedule.DueWithinWindowIsDayBound(parse(assignments[i].dueDate).value, now);
        }
      }
    }
  }
}
