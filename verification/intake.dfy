/** Checking the tokens of a grade request (add or remove a grade) against the
    roster, and reading them from one input line. */
module Intake {
  import opened Wrappers
  import opened Records
  import opened Validation
  import opened Store

  /** Why a grade request is refused. A bad name, an unknown student and a bad
      subject all surface as one error: the unknown-student error is raised
      inside the block whose handler replaces every error with the
      name-or-subject one. */
  datatype InputError = WrongCount | BadNameOrSubject | BadRating

  /** All checks of a grade request pass. */
  predicate Acceptable(list: Roster, infos: seq<string>, count: nat)
    requires count >= 2
  {
    && |infos| == count
    && IsValidToken(infos[0])
    && !Absent(list, infos[0])
    && IsValidToken(infos[1])
    && (count >= 3 ==> ParseRating(infos[2]).Some?)
  }

  /** `validateInfos`: `count` tokens (name, subject and, from the third on, a
      rating), checked in that order, become a one-grade record for the named
      student. Fewer than two expected tokens would index past the end. */
  function ValidateInfos(list: Roster, infos: seq<string>, count: nat): (r: Result<Student, InputError>)
    requires count >= 2
    ensures r.Success? <==> Acceptable(list, infos, count)
    ensures |infos| != count ==> r == Failure(WrongCount)
    ensures |infos| == count && (!IsValidToken(infos[0]) || Absent(list, infos[0]) || !IsValidToken(infos[1])) ==>
              r == Failure(BadNameOrSubject)
    ensures (&& |infos| == count && IsValidToken(infos[0]) && !Absent(list, infos[0]) && IsValidToken(infos[1])
             && count >= 3 && ParseRating(infos[2]).None?) ==> r == Failure(BadRating)
    ensures r.Success? ==>
              && r.value.name == infos[0]
              && !Absent(list, r.value.name)
              && r.value.grades.Some? && |r.value.grades.value| == 1
              && r.value.grades.value[0].subject == infos[1]
              && (r.value.grades.value[0].rating.Some? <==> count >= 3)
              && (count >= 3 ==> Label(r.value.grades.value[0].rating.value) == infos[2])
  {
    if |infos| != count then Failure(WrongCount)
    else if !IsValidToken(infos[0]) || Absent(list, infos[0]) || !IsValidToken(infos[1]) then
      Failure(BadNameOrSubject)
    else if count >= 3 then
      match ParseRating(infos[2])
      case None => Failure(BadRating)
      case Some(q) => Success(Student(infos[0], Some([Grade(infos[1], Some(q))])))
    else
      Success(Student(infos[0], Some([Grade(infos[1], None)])))
  }

  /** The tokens an accepted record was built from: name, subject and, when
      the request carried one, the rating's label. */
  function InfoTokens(info: Student): seq<string>
    requires info.grades.Some? && |info.grades.value| >= 1
  {
    var g := info.grades.value[0];
    [info.name, g.subject] + (if g.rating.Some? then [Label(g.rating.value)] else [])
  }

  /** `readStudentInfos`: the line split on single spaces, then checked. A line
      whose single-space split has the wrong length is refused whatever it
      holds; an accepted line is exactly its tokens joined by single spaces,
      so nothing of it is dropped or reordered on the way to the record. */
  function ReadStudentInfos(list: Roster, line: string, count: nat): (r: Result<Student, InputError>)
    requires count >= 2
    ensures r.Success? <==> Acceptable(list, Split(line), count)
    ensures r.Failure? ==> r == ValidateInfos(list, Split(line), count)
    ensures |Split(line)| != count ==> r == Failure(WrongCount)
    ensures r.Success? ==> && IsValidToken(r.value.name) && !Absent(list, r.value.name)
                           && r.value.grades.Some? && |r.value.grades.value| == 1
                           && IsValidToken(r.value.grades.value[0].subject)
    ensures r.Success? && count <= 3 ==> Join(InfoTokens(r.value)) == line
  {
    var ts := Split(line);
    var r := ValidateInfos(list, ts, count);
    JoinSplit(line);
    assert r.Success? && count <= 3 ==> InfoTokens(r.value) == ts;
    r
  }

  /** A line that is space-free tokens joined by single spaces is checked as those tokens. */
  lemma ReadsAsTokens(list: Roster, ts: seq<string>, count: nat)
    requires count >= 2 && |ts| >= 1
    requires forall k :: 0 <= k < |ts| ==> ' ' !in ts[k]
    ensures ReadStudentInfos(list, Join(ts), count) == ValidateInfos(list, ts, count)
  {
    SplitJoin(ts);
  }

  /** A request line of a known student, with a single space between tokens,
      is accepted with the rating it names. */
  lemma AcceptsGradeLine(list: Roster)
    requires !Absent(list, "Kim")
    ensures ReadStudentInfos(list, "Kim Math A+", 3) == Success(Student("Kim", Some([Grade("Math", Some(APlus))])))
  {
    assert Join(["Kim", "Math", "A+"]) == "Kim Math A+";
    ReadsAsTokens(list, ["Kim", "Math", "A+"], 3);
    assert IsValidToken("Kim") && IsValidToken("Math");
  }

  /** A removal line carries no rating. */
  lemma AcceptsRemovalLine(list: Roster)
    requires !Absent(list, "Kim")
    ensures ReadStudentInfos(list, "Kim Math", 2) == Success(Student("Kim", Some([Grade("Math", None)])))
  {
    assert Join(["Kim", "Math"]) == "Kim Math";
    ReadsAsTokens(list, ["Kim", "Math"], 2);
    assert IsValidToken("Kim") && IsValidToken("Math");
  }

  /** A doubled space makes an empty token, so the count is wrong. */
  lemma RejectsDoubledSpace(list: Roster)
    ensures ReadStudentInfos(list, "Kim  Math", 2) == Failure(WrongCount)
  {
    assert Join(["Kim", "", "Math"]) == "Kim  Math";
    ReadsAsTokens(list, ["Kim", "", "Math"], 2);
  }

  /** A lower-case rating is refused once name and subject have passed. */
  lemma RejectsLowerCaseRating(list: Roster)
    requires !Absent(list, "Kim")
    ensures ReadStudentInfos(list, "Kim Math a+", 3) == Failure(BadRating)
  {
    assert Join(["Kim", "Math", "a+"]) == "Kim Math a+";
    ReadsAsTokens(list, ["Kim", "Math", "a+"], 3);
    assert IsValidToken("Kim") && IsValidToken("Math");
    assert ParseRating("a+") == None;
  }
}
