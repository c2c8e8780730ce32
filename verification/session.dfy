/** One command of the menu carried out against the roster, and the invariant
    every command keeps: unique, well-formed names and fully rated,
    well-formed grades. Console output is reduced to an `Event`. */
module Session {
  import opened Wrappers
  import opened Records
  import opened Validation
  import opened Store
  import opened Intake
  import opened Grading
  import Commands

  /** What a command reports. */
  datatype Event =
    | Added
    | AlreadyExists
    | Removed
    | NotFound
    | InvalidName                 // a name line failed the token check: back to the menu
    | Rejected(error: InputError)  // a grade request failed its checks
    | GradeStored
    | GradeRemovalDone
    | NoGrades
    | UndefinedAverage(grades: seq<Grade>)       // an emptied list: 0.0 / 0.0, printed as "nan"
    | Report(grades: seq<Grade>, average: real)
    | Exited

  datatype Reply = Reply(roster: Roster, event: Event)

  /** A stored grade: a valid subject token and a rating, so listing it never
      meets a missing rating. */
  predicate GradeWellFormed(g: Grade)
  {
    IsValidToken(g.subject) && g.rating.Some?
  }

  predicate StudentWellFormed(s: Student)
  {
    && IsValidToken(s.name)
    && (s.grades.Some? ==> forall g :: g in s.grades.value ==> GradeWellFormed(g))
  }

  /** The roster invariant. */
  predicate Valid(list: Roster)
  {
    UniqueNames(list) && forall i :: 0 <= i < |list| ==> StudentWellFormed(list[i])
  }

  /** `startCheckAverage`: not found when absent; no grades when never graded;
      otherwise the grade list with its average. A list emptied by removals
      passes the lookup and its average is the undefined 0.0 / 0.0. */
  function StartCheckAverage(list: Roster, name: string): (e: Event)
    ensures e.NotFound? <==> Absent(list, name)
    ensures e.NoGrades? <==> !Absent(list, name) && CheckHasGrades(list, name).None?
    ensures e.UndefinedAverage? <==> !Absent(list, name) && CheckHasGrades(list, name) == Some([])
    ensures e.UndefinedAverage? ==> e.grades == []
    ensures e.Report? ==> |e.grades| > 0 && Some(e.grades) == CheckHasGrades(list, name)
    ensures e.Report? ==> e.average == Average(e.grades)
    ensures e.NotFound? || e.NoGrades? || e.UndefinedAverage? || e.Report?
  {
    if Absent(list, name) then NotFound
    else
      match CheckHasGrades(list, name)
      case None => NoGrades
      case Some(gs) => if |gs| == 0 then UndefinedAverage(gs) else Report(gs, Average(gs))
  }

  /** `startCheckAverage` with the corrected lookup: an emptied list is
      reported as having no grades, so the average is always defined. */
  function StartCheckAverageCorrected(list: Roster, name: string): (e: Event)
    ensures !e.UndefinedAverage?
    ensures e.NotFound? <==> Absent(list, name)
    ensures e.NoGrades? <==> !Absent(list, name) && CheckHasGrades(list, name) in {None, Some([])}
    ensures e.Report? ==> e == StartCheckAverage(list, name)
    ensures e.NotFound? || e.NoGrades? || e.Report?
  {
    if Absent(list, name) then NotFound
    else
      match GradesForAverage(list, name)
      case None => NoGrades
      case Some(gs) => Report(gs, Average(gs))
  }

  /** The view command on a student whose only grade was removed: the source
      lists no grades and an undefined average; the corrected variant reports
      no grades. */
  lemma ViewAfterEmptying()
    ensures var start := [Student("Kim", None)];
            var graded := SetGrade(start, Student("Kim", Some([Grade("Math", Some(A))])));
            var emptied := RemoveGrade(graded, Student("Kim", Some([Grade("Math", None)])));
            && Execute(emptied, Commands.ViewAverage, "Kim").event == UndefinedAverage([])
            && StartCheckAverageCorrected(emptied, "Kim") == NoGrades
  {
    EmptiedGradesPassCheck();
  }

  /** One menu command applied to the line read for it: a bare name for adding,
      removing and viewing; a space-separated request for the grade commands. */
  function Execute(list: Roster, cmd: Commands.Command, line: string): (r: Reply)
    ensures cmd in {Commands.ViewAverage, Commands.Exit} ==> r.roster == list
    ensures r.event.InvalidName? || r.event.Rejected? || r.event.AlreadyExists? || r.event.NotFound? ==> r.roster == list
    ensures cmd == Commands.AddStudent && IsValidToken(line) ==>
              (r.event == Added <==> Absent(list, line)) && !Absent(r.roster, line)
    ensures cmd == Commands.RemoveStudent && IsValidToken(line) ==>
              (r.event == Removed <==> !Absent(list, line)) && Absent(r.roster, line)
    ensures cmd in {Commands.AddGrade, Commands.RemoveGrade} ==>
              |r.roster| == |list| && forall j :: 0 <= j < |list| ==> r.roster[j].name == list[j].name
    ensures r.event == Added ==> r.roster == list + [Student(line, None)]
    ensures cmd == Commands.AddStudent && IsValidToken(line) && !Absent(list, line) ==> r.event == AlreadyExists
    ensures r.event == Removed ==> r.roster == RemoveNamed(list, line)
    ensures r.event == Removed ==> forall s :: s in r.roster <==> s in list && s.name != line
    ensures cmd == Commands.AddGrade ==>
              var req := ReadStudentInfos(list, line, 3);
              if req.Success? then r == Reply(SetGrade(list, req.value), GradeStored)
              else r == Reply(list, Rejected(req.error))
    ensures cmd == Commands.RemoveGrade ==>
              var req := ReadStudentInfos(list, line, 2);
              if req.Success? then r == Reply(RemoveGrade(list, req.value), GradeRemovalDone)
              else r == Reply(list, Rejected(req.error))
    ensures cmd == Commands.RemoveStudent && IsValidToken(line) && Absent(list, line) ==> r == Reply(list, NotFound)
    ensures cmd == Commands.Exit ==> r == Reply(list, Exited)
    ensures cmd == Commands.ViewAverage && IsValidToken(line) ==> r.event == StartCheckAverage(list, line)
    ensures !IsValidToken(line) && cmd in {Commands.AddStudent, Commands.RemoveStudent, Commands.ViewAverage} ==>
              r == Reply(list, InvalidName)
  {
    if cmd.AddStudent? then
      if !IsValidToken(line) then Reply(list, InvalidName)
      else if Absent(list, line) then Reply(AddStudentName(list, line), Added)
      else Reply(list, AlreadyExists)
    else if cmd.RemoveStudent? then
      if !IsValidToken(line) then Reply(list, InvalidName)
      else if Absent(list, line) then Reply(list, NotFound)
      else Reply(RemoveStudentWhenAdded(list, line), Removed)
    else if cmd.AddGrade? then
      match ReadStudentInfos(list, line, 3)
      case Failure(e) => Reply(list, Rejected(e))
      case Success(info) => Reply(SetGrade(list, info), GradeStored)
    else if cmd.RemoveGrade? then
      match ReadStudentInfos(list, line, 2)
      case Failure(e) => Reply(list, Rejected(e))
      case Success(info) => Reply(RemoveGrade(list, info), GradeRemovalDone)
    else if cmd.ViewAverage? then
      if !IsValidToken(line) then Reply(list, InvalidName)
      else Reply(list, StartCheckAverage(list, line))
    else
      Reply(list, Exited)
  }

  /** Appending a well-formed grade keeps a record well formed. */
  lemma SetGradeKeepsValid(list: Roster, info: Student)
    requires Valid(list)
    requires !Absent(list, info.name)
    requires info.grades.Some? && |info.grades.value| == 1 && GradeWellFormed(info.grades.value[0])
    ensures Valid(SetGrade(list, info))
  {
  }

  /** Removing a grade keeps a record well formed. */
  lemma RemoveGradeKeepsValid(list: Roster, info: Student)
    requires Valid(list)
    requires HasFirstGrade(info)
    ensures Valid(RemoveGrade(list, info))
  {
  }

  /** Adding or removing a student keeps the roster invariant. */
  lemma RosterCommandsKeepValid(list: Roster, cmd: Commands.Command, line: string)
    requires Valid(list)
    requires cmd.AddStudent? || cmd.RemoveStudent?
    ensures Valid(Execute(list, cmd, line).roster)
  {
    var r := Execute(list, cmd, line);
    if r.event == Added {
      forall i | 0 <= i < |r.roster|
        ensures StudentWellFormed(r.roster[i])
      {
        if i < |list| {
          assert r.roster[i] == list[i];
        }
      }
    } else if r.event == Removed {
      forall i | 0 <= i < |r.roster|
        ensures StudentWellFormed(r.roster[i])
      {
        assert r.roster[i] in r.roster;
        var j :| 0 <= j < |list| && list[j] == r.roster[i];
      }
    }
  }

  /** Storing or removing a grade keeps the roster invariant. */
  lemma GradeCommandsKeepValid(list: Roster, cmd: Commands.Command, line: string)
    requires Valid(list)
    requires cmd.AddGrade? || cmd.RemoveGrade?
    ensures Valid(Execute(list, cmd, line).roster)
  {
    if cmd.AddGrade? {
      var req := ReadStudentInfos(list, line, 3);
      if req.Success? {
        assert Acceptable(list, Split(line), 3);
        SetGradeKeepsValid(list, req.value);
      }
    } else {
      var req := ReadStudentInfos(list, line, 2);
      if req.Success? {
        RemoveGradeKeepsValid(list, req.value);
      }
    }
  }

  /** Every command keeps the roster invariant. */
  lemma ExecutePreservesValid(list: Roster, cmd: Commands.Command, line: string)
    requires Valid(list)
    ensures Valid(Execute(list, cmd, line).roster)
  {
    if cmd.AddStudent? || cmd.RemoveStudent? {
      RosterCommandsKeepValid(list, cmd, line);
    } else if cmd.AddGrade? || cmd.RemoveGrade? {
      GradeCommandsKeepValid(list, cmd, line);
    }
  }

  /** On a valid roster every grade a report lists carries a rating, so listing
      it never unwraps a missing one. */
  lemma ReportedGradesAreRated(list: Roster, name: string)
    requires Valid(list)
    ensures var e := StartCheckAverage(list, name);
            e.Report? ==> forall g :: g in e.grades ==> g.rating.Some?
  {
  }

  /** As written, a name line that fails the token check starts a nested command
      loop; once that loop returns, the add command goes on to add the rejected
      name to whatever roster the nested loop left behind. */
  function AddStudentAfterRestart(inner: Roster, name: string): (r: Roster)
    ensures !Absent(r, name)
  {
    AddStudentName(inner, name)
  }

  /** The as-written restart lets an invalid name into a valid roster:
      menu line "1", name line "Kim!", then "X" in the nested loop. */
  lemma RestartAdmitsInvalidName(inner: Roster)
    requires Valid(inner)
    ensures !Valid(AddStudentAfterRestart(inner, "Kim!"))
    ensures Execute(inner, Commands.AddStudent, "Kim!") == Reply(inner, InvalidName)
  {
  }
}
