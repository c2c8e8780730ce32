/** The in-memory roster of the student manager and its operations: add and
    remove a student, append a grade, remove the first grade of a subject. */
module Store {
  import opened Wrappers
  import opened Records
  import opened Seqs

  /** The student list, in insertion order. */
  type Roster = seq<Student>

  /** Number of records with the given name: the length of the name filter. */
  function CountNamed(list: Roster, name: string): (n: nat)
    ensures n <= |list|
  {
    if |list| == 0 then 0
    else (if list[0].name == name then 1 else 0) + CountNamed(list[1..], name)
  }

  /** The count is zero exactly when no record has the name. */
  lemma {:induction false} CountNamedZero(list: Roster, name: string)
    ensures CountNamed(list, name) == 0 <==> forall i :: 0 <= i < |list| ==> list[i].name != name
    decreases |list|
  {
    if |list| > 0 {
      CountNamedZero(list[1..], name);
      assert forall i :: 1 <= i < |list| ==> list[i] == list[1..][i - 1];
    }
  }

  /** `checkStudentIsAdded`: despite its name, true exactly when NO record has the name. */
  function Absent(list: Roster, name: string): (b: bool)
    ensures b <==> forall i :: 0 <= i < |list| ==> list[i].name != name
  {
    CountNamedZero(list, name);
    CountNamed(list, name) == 0
  }

  /** No two records share a name. */
  predicate UniqueNames(list: Roster)
  {
    forall i, j :: 0 <= i < j < |list| ==> list[i].name != list[j].name
  }

  /** Index of the first record with the given name, if any. */
  function FirstIndex(list: Roster, name: string): (r: Option<nat>)
    ensures r.None? <==> Absent(list, name)
    ensures r.Some? ==> r.value < |list| && list[r.value].name == name
    ensures r.Some? ==> forall j :: 0 <= j < r.value ==> list[j].name != name
  {
    FirstIndexWhere(list, (s: Student) => s.name == name, 0)
  }

  /** `addStudentName`: an absent name gets a new, never-graded record at the end;
      a present name leaves the roster as it is. */
  function AddStudentName(list: Roster, name: string): (r: Roster)
    ensures !Absent(r, name)
    ensures |r| >= |list| && r[..|list|] == list
    ensures Absent(list, name) ==> |r| == |list| + 1 && r[|list|] == Student(name, None)
    ensures !Absent(list, name) ==> r == list
    ensures UniqueNames(list) ==> UniqueNames(r)
  {
    if Absent(list, name) then
      var r := list + [Student(name, None)];
      assert r[|list|].name == name;
      r
    else
      list
  }

  /** The roster without any record of the given name, order kept. */
  function RemoveNamed(list: Roster, name: string): (r: Roster)
    ensures |r| == |list| - CountNamed(list, name)
  {
    if |list| == 0 then []
    else (if list[0].name != name then [list[0]] else []) + RemoveNamed(list[1..], name)
  }

  /** The filter on a roster with a first record. */
  lemma RemoveNamedCons(x: Student, rest: Roster, name: string)
    ensures RemoveNamed([x] + rest, name) == (if x.name != name then [x] else []) + RemoveNamed(rest, name)
  {
    assert ([x] + rest)[1..] == rest;
  }

  /** Removing the records of one name distributes over concatenation, so the
      records kept stay in their original order. */
  lemma {:induction false} RemoveNamedAppend(a: Roster, b: Roster, name: string)
    ensures RemoveNamed(a + b, name) == RemoveNamed(a, name) + RemoveNamed(b, name)
    decreases |a|
  {
    if |a| == 0 {
      assert a + b == b;
    } else {
      RemoveNamedAppend(a[1..], b, name);
      assert a + b == [a[0]] + (a[1..] + b);
      assert a == [a[0]] + a[1..];
      RemoveNamedCons(a[0], a[1..] + b, name);
      RemoveNamedCons(a[0], a[1..], name);
      var head := if a[0].name != name then [a[0]] else [];
      assert head + (RemoveNamed(a[1..], name) + RemoveNamed(b, name))
          == (head + RemoveNamed(a[1..], name)) + RemoveNamed(b, name);
    }
  }

  /** The records kept are exactly the records of other names. */
  lemma {:induction false} RemoveNamedMembers(list: Roster, name: string)
    ensures forall s :: s in RemoveNamed(list, name) <==> s in list && s.name != name
    ensures Absent(RemoveNamed(list, name), name)
    decreases |list|
  {
    if |list| > 0 {
      RemoveNamedMembers(list[1..], name);
      assert list == [list[0]] + list[1..];
    }
    var r := RemoveNamed(list, name);
    forall i | 0 <= i < |r|
      ensures r[i].name != name
    {
      assert r[i] in r;
    }
  }

  /** A name nobody has removes nothing. */
  lemma {:induction false} RemoveNamedAbsent(list: Roster, name: string)
    requires Absent(list, name)
    ensures RemoveNamed(list, name) == list
    decreases |list|
  {
    if |list| > 0 {
      RemoveNamedAbsent(list[1..], name);
      assert list == [list[0]] + list[1..];
    }
  }

  /** Filtering a roster with unique names keeps the names unique. */
  lemma {:induction false} RemoveNamedUnique(list: Roster, name: string)
    ensures UniqueNames(list) ==> UniqueNames(RemoveNamed(list, name))
    decreases |list|
  {
    if |list| > 0 && UniqueNames(list) {
      RemoveNamedUnique(list[1..], name);
      RemoveNamedMembers(list[1..], name);
      var rest := RemoveNamed(list[1..], name);
      forall s | s in rest
        ensures s.name != list[0].name
      {
        var k :| 0 <= k < |list[1..]| && list[1..][k] == s;
        assert list[k + 1] == s;
      }
    }
  }

  /** `removeStudentWhenAdded`: a present name loses every record of that name,
      the others keep their order; an absent name leaves the roster as it is. */
  function RemoveStudentWhenAdded(list: Roster, name: string): (r: Roster)
    ensures Absent(r, name)
    ensures Absent(list, name) ==> r == list
    ensures |r| == |list| - CountNamed(list, name)
    ensures forall s :: s in r <==> s in list && s.name != name
    ensures !Absent(list, name) ==> r == RemoveNamed(list, name)
    ensures UniqueNames(list) ==> UniqueNames(r)
  {
    if Absent(list, name) then
      RemoveNamedAbsent(list, name);
      list
    else
      RemoveNamedUnique(list, name);
      RemoveNamedMembers(list, name);
      RemoveNamed(list, name)
  }

  /** Adding an absent student and removing it again restores the roster. */
  lemma AddThenRemove(list: Roster, name: string)
    requires Absent(list, name)
    ensures RemoveStudentWhenAdded(AddStudentName(list, name), name) == list
  {
    RemoveNamedAppend(list, [Student(name, None)], name);
    RemoveNamedAbsent(list, name);
  }

  /** Adding a name twice leaves exactly one record of it. */
  lemma AddTwiceKeepsOne(list: Roster, name: string)
    requires Absent(list, name)
    ensures AddStudentName(AddStudentName(list, name), name) == AddStudentName(list, name)
    ensures CountNamed(AddStudentName(list, name), name) == 1
  {
    CountNamedAppend(list, [Student(name, None)], name);
  }

  lemma {:induction false} CountNamedAppend(a: Roster, b: Roster, name: string)
    ensures CountNamed(a + b, name) == CountNamed(a, name) + CountNamed(b, name)
    decreases |a|
  {
    if |a| > 0 {
      CountNamedAppend(a[1..], b, name);
      assert (a + b)[0] == a[0];
      assert (a + b)[1..] == a[1..] + b;
    } else {
      assert a + b == b;
    }
  }

  /** The record an operation of the grade menu works on: the first with that name. */
  function IndexOf(list: Roster, name: string): (i: nat)
    requires !Absent(list, name)
    ensures i < |list| && list[i].name == name
    ensures forall j :: 0 <= j < i ==> list[j].name != name
  {
    FirstIndex(list, name).value
  }

  /** An info record whose grade list, when present, has a first element to read. */
  predicate HasFirstGrade(info: Student)
  {
    info.grades.Some? ==> |info.grades.value| > 0
  }

  /** `setGrade`: on the first record with the info's name, a never-graded list
      becomes the info's list and an existing list gets the info's first grade
      appended, even when a grade of that subject is already there. */
  function SetGrade(list: Roster, info: Student): (r: Roster)
    requires !Absent(list, info.name)
    requires HasFirstGrade(info)
    ensures |r| == |list|
    ensures forall j :: 0 <= j < |r| ==> r[j].name == list[j].name
    ensures forall j :: 0 <= j < |r| && j != IndexOf(list, info.name) ==> r[j] == list[j]
    ensures var i := IndexOf(list, info.name);
            list[i].grades.None? ==> r[i].grades == info.grades
    ensures var i := IndexOf(list, info.name);
            list[i].grades.Some? && info.grades.Some? ==>
              r[i].grades.Some? && r[i].grades.value == list[i].grades.value + [info.grades.value[0]]
    ensures var i := IndexOf(list, info.name);
            list[i].grades.Some? && info.grades.None? ==> r == list
  {
    var i := IndexOf(list, info.name);
    match list[i].grades
    case None => list[i := list[i].(grades := info.grades)]
    case Some(gs) =>
      match info.grades
      case None => list
      case Some(added) => list[i := list[i].(grades := Some(gs + [added[0]]))]
  }

  /** Index of the first grade of the given subject, if any. */
  function FirstSubject(gs: seq<Grade>, subject: string): (r: Option<nat>)
    ensures r.None? <==> forall j :: 0 <= j < |gs| ==> gs[j].subject != subject
    ensures r.Some? ==> r.value < |gs| && gs[r.value].subject == subject
    ensures r.Some? ==> forall j :: 0 <= j < r.value ==> gs[j].subject != subject
  {
    FirstIndexWhere(gs, (g: Grade) => g.subject == subject, 0)
  }

  /** `removeGrade`: on the first record with the info's name, the first grade
      whose subject is the info's first subject is removed; with no such
      record, no grade list, or no matching grade, nothing changes. */
  function RemoveGrade(list: Roster, info: Student): (r: Roster)
    requires HasFirstGrade(info)
    ensures |r| == |list|
    ensures forall j :: 0 <= j < |r| ==> r[j].name == list[j].name
    ensures info.grades.None? || Absent(list, info.name) ==> r == list
    ensures info.grades.Some? && !Absent(list, info.name) ==>
              forall j :: 0 <= j < |r| && j != IndexOf(list, info.name) ==> r[j] == list[j]
    ensures info.grades.Some? && !Absent(list, info.name) ==>
              var i := IndexOf(list, info.name);
              var subject := info.grades.value[0].subject;
              if list[i].grades.None? || FirstSubject(list[i].grades.value, subject).None? then r == list
              else r[i].grades == Some(RemoveAt(list[i].grades.value, FirstSubject(list[i].grades.value, subject).value))
  {
    match info.grades
    case None => list
    case Some(removed) =>
      match FirstIndex(list, info.name)
      case None => list
      case Some(i) =>
        match list[i].grades
        case None => list
        case Some(gs) =>
          match FirstSubject(gs, removed[0].subject)
          case None => list
          case Some(k) => list[i := list[i].(grades := Some(RemoveAt(gs, k)))]
  }

  /** Grading a subject twice keeps both grades: the second appends rather than
      replacing, starting from a never-graded student. */
  lemma DuplicateSubjectsCoexist(list: Roster, name: string, g1: Grade, g2: Grade)
    requires !Absent(list, name)
    requires list[IndexOf(list, name)].grades.None?
    requires g1.subject == g2.subject
    ensures var once := SetGrade(list, Student(name, Some([g1])));
            var twice := SetGrade(once, Student(name, Some([g2])));
            twice[IndexOf(list, name)].grades == Some([g1, g2])
  {
    var i := IndexOf(list, name);
    var once := SetGrade(list, Student(name, Some([g1])));
    assert IndexOf(once, name) == i;
    assert once[i].grades == Some([g1]);
    assert [g1] + [g2] == [g1, g2];
  }

  /** Appending a grade for a subject the student had no grade of, then removing
      that subject, restores the roster. */
  lemma SetThenRemove(list: Roster, name: string, g: Grade, request: Grade)
    requires !Absent(list, name)
    requires list[IndexOf(list, name)].grades.Some?
    requires forall h :: h in list[IndexOf(list, name)].grades.value ==> h.subject != g.subject
    requires request.subject == g.subject
    ensures RemoveGrade(SetGrade(list, Student(name, Some([g]))), Student(name, Some([request]))) == list
  {
    var i := IndexOf(list, name);
    var gs := list[i].grades.value;
    var once := SetGrade(list, Student(name, Some([g])));
    assert IndexOf(once, name) == i;
    assert once[i].grades == Some(gs + [g]);
    assert (gs + [g])[|gs|] == g;
    var k := FirstSubject(gs + [g], g.subject);
    assert k.Some?;
    assert RemoveAt(gs + [g], |gs|) == gs;
  }

  /** The first grade of a never-graded student, once removed, leaves an EMPTY
      list rather than no list. */
  lemma FirstGradeRemovedLeavesEmpty(list: Roster, name: string, g: Grade, request: Grade)
    requires !Absent(list, name)
    requires list[IndexOf(list, name)].grades.None?
    requires request.subject == g.subject
    ensures var r := RemoveGrade(SetGrade(list, Student(name, Some([g]))), Student(name, Some([request])));
            r[IndexOf(list, name)].grades == Some([])
  {
  }

  /** A removal takes out exactly one grade of the requested subject from the
      first record of the name, and only when it has one; all else stays. */
  lemma RemoveGradeRemovesOne(list: Roster, name: string, request: Grade)
    requires !Absent(list, name)
    requires list[IndexOf(list, name)].grades.Some?
    ensures var i := IndexOf(list, name);
            var gs := list[i].grades.value;
            var r := RemoveGrade(list, Student(name, Some([request])));
            r[i].grades.Some? &&
            ((exists g :: g in gs && g.subject == request.subject) ==>
               exists g :: g in gs && g.subject == request.subject &&
                 multiset(r[i].grades.value) + multiset{g} == multiset(gs)) &&
            ((forall g :: g in gs ==> g.subject != request.subject) ==> r == list)
  {
  }
}
