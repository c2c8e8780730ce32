/** Looking up a student's grades and averaging them. Grade points are kept in
    integer tenths, so the average is an exact rational rather than a double. */
module Grading {
  import opened Wrappers
  import opened Records
  import opened Store

  /** `checkHasGrades`: the grade list of the first record with the name, when
      that record exists and has ever been graded. An emptied list passes. */
  function CheckHasGrades(list: Roster, name: string): (r: Option<seq<Grade>>)
    ensures Absent(list, name) ==> r.None?
    ensures !Absent(list, name) ==> r == list[IndexOf(list, name)].grades
  {
    match FirstIndex(list, name)
    case None => None
    case Some(i) => list[i].grades
  }

  /** The guard the average needs: like `CheckHasGrades`, but an empty list is
      refused too, so a list emptied by removals is reported as having no grades. */
  function GradesForAverage(list: Roster, name: string): (r: Option<seq<Grade>>)
    ensures r.Some? ==> |r.value| > 0 && CheckHasGrades(list, name) == r
    ensures r.None? <==> CheckHasGrades(list, name) in {None, Some([])}
  {
    match CheckHasGrades(list, name)
    case None => None
    case Some(gs) => if |gs| == 0 then None else Some(gs)
  }

  /** Removing the only grade of a once-graded student leaves an empty list that
      `CheckHasGrades` lets through to the division by the grade count. */
  lemma EmptiedGradesPassCheck()
    ensures var start := [Student("Kim", None)];
            var graded := SetGrade(start, Student("Kim", Some([Grade("Math", Some(A))])));
            var emptied := RemoveGrade(graded, Student("Kim", Some([Grade("Math", None)])));
            CheckHasGrades(emptied, "Kim") == Some([])
            && GradesForAverage(emptied, "Kim") == None
  {
  }

  /** Grade points in tenths. The switch has no case for D+ or D, so they fall
      to the default and score nothing, like F and a missing rating. */
  function Points10(r: Option<Rating>): (p: nat)
    ensures p <= 45
    ensures p == 0 <==> r in {None, Some(DPlus), Some(D), Some(F)}
  {
    match r
    case Some(APlus) => 45
    case Some(A) => 40
    case Some(BPlus) => 35
    case Some(B) => 30
    case Some(CPlus) => 25
    case Some(C) => 20
    case Some(F) => 0
    case _ => 0
  }

  /** Sum of the grade points of a list, in tenths. */
  function Sum10(gs: seq<Grade>): (s: nat)
    ensures s <= 45 * |gs|
  {
    if |gs| == 0 then 0 else Points10(gs[0].rating) + Sum10(gs[1..])
  }

  lemma {:induction false} Sum10Append(a: seq<Grade>, b: seq<Grade>)
    ensures Sum10(a + b) == Sum10(a) + Sum10(b)
    decreases |a|
  {
    if |a| == 0 {
      assert a + b == b;
    } else {
      Sum10Append(a[1..], b);
      assert (a + b)[0] == a[0];
      assert (a + b)[1..] == a[1..] + b;
    }
  }

  /** `calculateGradeAverage`: the grade points over the number of grades. Every
      grade counts in the denominator, including one that scores nothing. */
  function Average(gs: seq<Grade>): (avg: real)
    requires |gs| > 0
    ensures avg * (|gs| as real) == (Sum10(gs) as real) / 10.0
    ensures 0.0 <= avg <= 4.5
  {
    QuotientBounds(Sum10(gs), |gs|);
    (Sum10(gs) as real) / (10.0 * (|gs| as real))
  }

  /** The arithmetic behind `Average`, kept apart so its proof stays small: a
      total of at most 45 tenths per grade gives a quotient between 0 and 4.5. */
  lemma QuotientBounds(total: nat, count: nat)
    requires count > 0 && total <= 45 * count
    ensures ((total as real) / (10.0 * (count as real))) * (count as real) == (total as real) / 10.0
    ensures 0.0 <= (total as real) / (10.0 * (count as real)) <= 4.5
  {
    var s := total as real;
    var n := count as real;
    assert s <= 45.0 * n;
    var q := s / (10.0 * n);
    assert q * (10.0 * n) == s;
    assert (q * n) * 10.0 == s;
  }

  /** An A+ and an A average to 4.25; a lone F to zero; a D counts in the
      denominator while adding nothing. */
  lemma AverageExamples()
    ensures Average([Grade("Math", Some(APlus)), Grade("Art", Some(A))]) == 4.25
    ensures Average([Grade("Math", Some(F))]) == 0.0
    ensures Average([Grade("Math", Some(A)), Grade("Art", Some(D))]) == 2.0
  {
  }
}
