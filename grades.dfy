/** The weighted average of one class (calculate_weighted_average): every grade
    contributes grade * weight / 100 points, the points are summed, the weights are
    summed, and the average is points / weight * 100, or 0 when the weights sum to 0. */
module Grades {

  /** One (grade, weight) row of a class, as read from the grades table. */
  datatype GradeEntry = GradeEntry(grade: real, weight: real)

  /** Sum of grade * weight / 100 over the entries: the points earned. */
  function WeightedScore(gs: seq<GradeEntry>): real
  {
    if gs == [] then 0.0 else gs[0].grade * gs[0].weight / 100.0 + WeightedScore(gs[1..])
  }

  /** Sum of the weights. */
  function TotalWeight(gs: seq<GradeEntry>): real
  {
    if gs == [] then 0.0 else gs[0].weight + TotalWeight(gs[1..])
  }

  /** Sum of grade * weight, without the division by 100: the textbook numerator. */
  function RawScore(gs: seq<GradeEntry>): real
  {
    if gs == [] then 0.0 else gs[0].grade * gs[0].weight + RawScore(gs[1..])
  }

  lemma {:induction false} WeightedScoreIsRawScaled(gs: seq<GradeEntry>)
    ensures WeightedScore(gs) * 100.0 == RawScore(gs)
  {
    if gs != [] {
      WeightedScoreIsRawScaled(gs[1..]);
    }
  }

  /** The class average: 0 when there are no grades or the weights cancel out,
      otherwise the textbook weighted mean sum(grade * weight) / sum(weight). */
  function Average(gs: seq<GradeEntry>): (r: real)
    ensures gs == [] ==> r == 0.0
    ensures TotalWeight(gs) == 0.0 ==> r == 0.0
    ensures TotalWeight(gs) != 0.0 ==> r == RawScore(gs) / TotalWeight(gs)
  {
    WeightedScoreIsRawScaled(gs);
    if TotalWeight(gs) == 0.0 then 0.0 else WeightedScore(gs) / TotalWeight(gs) * 100.0
  }

  /** The entries with every weight multiplied by c. */
  function ScaleWeights(gs: seq<GradeEntry>, c: real): (r: seq<GradeEntry>)
    ensures |r| == |gs|
    ensures forall i :: 0 <= i < |gs| ==> r[i] == GradeEntry(gs[i].grade, c * gs[i].weight)
  {
    if gs == [] then [] else [GradeEntry(gs[0].grade, c * gs[0].weight)] + ScaleWeights(gs[1..], c)
  }

  lemma {:induction false} ScaledSums(gs: seq<GradeEntry>, c: real)
    ensures TotalWeight(ScaleWeights(gs, c)) == c * TotalWeight(gs)
    ensures RawScore(ScaleWeights(gs, c)) == c * RawScore(gs)
  {
    if gs != [] {
      var s := ScaleWeights(gs, c);
      assert s[1..] == ScaleWeights(gs[1..], c);
      ScaledSums(gs[1..], c);
      assert gs[0].grade * (c * gs[0].weight) == c * (gs[0].grade * gs[0].weight);
    }
  }

  /** Only the ratio of the weights matters: scaling them all by the same positive
      factor leaves the average unchanged, whether or not they sum to 100. */
  lemma AverageScaleInvariant(gs: seq<GradeEntry>, c: real)
    requires c > 0.0
    ensures Average(ScaleWeights(gs, c)) == Average(gs)
  {
    var s := ScaleWeights(gs, c);
    var t, p := TotalWeight(gs), RawScore(gs);
    ScaledSums(gs, c);
    assert TotalWeight(s) == c * t && RawScore(s) == c * p;
    if t == 0.0 {
      assert TotalWeight(s) == 0.0;
    } else {
      CancelFactor(p, t, c);
      assert Average(s) == (c * p) / (c * t);
    }
  }

  lemma CancelFactor(p: real, t: real, c: real)
    requires t != 0.0 && c > 0.0
    ensures c * t != 0.0 && (c * p) / (c * t) == p / t
  {
  }

  ghost predicate PositiveWeights(gs: seq<GradeEntry>)
  {
    forall i :: 0 <= i < |gs| ==> gs[i].weight > 0.0
  }

  ghost predicate GradesWithin(gs: seq<GradeEntry>, lo: real, hi: real)
  {
    forall i :: 0 <= i < |gs| ==> lo <= gs[i].grade <= hi
  }

  lemma {:induction false} ScoreBounds(gs: seq<GradeEntry>, lo: real, hi: real)
    requires PositiveWeights(gs) && GradesWithin(gs, lo, hi)
    ensures gs != [] ==> TotalWeight(gs) > 0.0
    ensures lo * TotalWeight(gs) <= RawScore(gs) <= hi * TotalWeight(gs)
  {
    if gs != [] {
      var g, w := gs[0].grade, gs[0].weight;
      assert PositiveWeights(gs[1..]) && GradesWithin(gs[1..], lo, hi) by {
        assert forall i :: 0 <= i < |gs| - 1 ==> gs[1..][i] == gs[i + 1];
      }
      ScoreBounds(gs[1..], lo, hi);
      assert w > 0.0 && lo <= g <= hi;
      assert (g - lo) * w >= 0.0;
      assert (hi - g) * w >= 0.0;
    }
  }

  /** With positive weights, the average of a non-empty class lies in the range of its grades. */
  lemma AverageWithin(gs: seq<GradeEntry>, lo: real, hi: real)
    requires gs != []
    requires PositiveWeights(gs) && GradesWithin(gs, lo, hi)
    ensures lo <= Average(gs) <= hi
  {
    ScoreBounds(gs, lo, hi);
    var t, p, a := TotalWeight(gs), RawScore(gs), Average(gs);
    assert a * t == p;
    assert (a - lo) * t >= 0.0;
    assert (hi - a) * t >= 0.0;
  }

  function MinGrade(gs: seq<GradeEntry>): (r: real)
    requires gs != []
    ensures forall i :: 0 <= i < |gs| ==> r <= gs[i].grade
    ensures exists i :: 0 <= i < |gs| && gs[i].grade == r
  {
    if |gs| == 1 then gs[0].grade
    else
      var m := MinGrade(gs[1..]);
      assert forall i :: 1 <= i < |gs| ==> gs[i] == gs[1..][i - 1];
      if gs[0].grade <= m then gs[0].grade else m
  }

  function MaxGrade(gs: seq<GradeEntry>): (r: real)
    requires gs != []
    ensures forall i :: 0 <= i < |gs| ==> gs[i].grade <= r
    ensures exists i :: 0 <= i < |gs| && gs[i].grade == r
  {
    if |gs| == 1 then gs[0].grade
    else
      var m := MaxGrade(gs[1..]);
      assert forall i :: 1 <= i < |gs| ==> gs[i] == gs[1..][i - 1];
      if gs[0].grade >= m then gs[0].grade else m
  }

  /** With positive weights, the average lies between the lowest and the highest grade. */
  lemma AverageBetweenMinAndMax(gs: seq<GradeEntry>)
    requires gs != [] && PositiveWeights(gs)
    ensures MinGrade(gs) <= Average(gs) <= MaxGrade(gs)
  {
    AverageWithin(gs, MinGrade(gs), MaxGrade(gs));
  }

  /** Percentage grades with positive weights give a percentage average (0 for no grades). */
  lemma AveragePercentRange(gs: seq<GradeEntry>)
    requires PositiveWeights(gs) && GradesWithin(gs, 0.0, 100.0)
    ensures 0.0 <= Average(gs) <= 100.0
  {
    if gs != [] {
      AverageWithin(gs, 0.0, 100.0);
    }
  }

  /** Worked cases: 90 and 70 at weight 50 each; 100 at 30 and 50 at 20; one grade of weight 0. */
  lemma AverageExamples()
    ensures Average([GradeEntry(90.0, 50.0), GradeEntry(70.0, 50.0)]) == 80.0
    ensures Average([GradeEntry(100.0, 30.0), GradeEntry(50.0, 20.0)]) == 80.0
    ensures Average([GradeEntry(80.0, 0.0)]) == 0.0
  {
  }
}
