# MyCreditManager grade store, modelled in Dafny

MyCreditManager is a console program that keeps an in-memory list of
students, each with an optional list of grades, and offers six menu
commands: add a student, remove a student, add a grade, remove a grade, view
a student's grades with their average, and exit. This project models the
store behind those commands (`StudentManager`), the value types it keeps
(`Student`, `Grade`, `Rating`), the input rules it applies (alphanumeric
tokens, rating labels, the space-separated grade request) and the menu
command set (`UserInputCase`), as immutable datatypes and pure functions.

Modules, one per component:

- `Wrappers`: `Option` for Swift optionals, `Result` for thrown errors.
- `Seqs`: first index satisfying a predicate, removal at an index.
- `Records`: `Rating` and its labels, `Grade`, `Student` (`Student.swift`).
- `Validation`: the `[0-9A-Za-z]+` token check and the split of a line on
  single spaces.
- `Commands`: the six commands, their raw strings and what one pass of the
  menu loop does with a line (`Enum.swift`, the loop in `main.swift`).
- `Store`: the roster operations `checkStudentIsAdded` (as `Absent`, since it
  returns true when the name is missing), `addStudentName`,
  `removeStudentWhenAdded`, `setGrade` and `removeGrade`.
- `Intake`: `validateInfos` and `readStudentInfos`, the checks of a grade
  request.
- `Grading`: `checkHasGrades`, grade points in integer tenths and the average
  as an exact `real`.
- `Session`: one menu command carried out against the roster, and the roster
  invariant (unique, valid names; grades with valid subjects and a rating)
  that every command keeps.

Where the program's own messages and doc comments promise more than its code
does, the model follows the code:

- An unknown student in a grade request is not reported with the message
  thrown for it (main.swift:124). The error is raised inside a block whose
  handler turns every error into the "invalid name or subject" one, so the
  model has one error, `BadNameOrSubject`.
- `removeGrade` for an unknown student is not the silent no-op its doc
  comment describes (main.swift:210-211) at the command level: the request
  is refused by `validateInfos` first.
- `checkHasGrades` is documented to send a student without grades back to
  the menu (main.swift:244), but only a never-graded student (nil list)
  takes that path. A list emptied by removals is `[]` and reaches the
  division; `Session.StartCheckAverage` models this as `UndefinedAverage`
  (see Findings).

## Model

| member | source | states |
|---|---|---|
| Records.Label | MyCreditManager/Student.swift:25-35 | each raw label is a grade letter, followed by '+' exactly for the four plus ratings |
| Records.ParseRating | MyCreditManager/Student.swift:25-35 | a parsed rating is one whose label is the input; a refusal means no label equals the input |
| Records.LabelInjective | MyCreditManager/Student.swift:25-35 | the nine raw labels are pairwise distinct |
| Records.RatingRoundTrip | MyCreditManager/Student.swift:25-35 | parsing any rating's raw value gives back that rating |
| Records.ParseRatingAcceptsExactlyLabels | MyCreditManager/Student.swift:25-35 | the parser accepts exactly the nine labels, case-sensitively |
| Records.ParseRatingRejects | MyCreditManager/Student.swift:25-35 | "a", "A++", "" and "a+" are rejected |
| Records.GradeEqualityIsStructural | MyCreditManager/Student.swift:20-23 | two grades are equal iff subject and rating are |
| Validation.FindDisallowed | MyCreditManager/main.swift:154 | the search finds nothing iff every character from the start index is in [0-9A-Za-z]; a hit is the first disallowed character |
| Validation.IsValidToken | MyCreditManager/main.swift:153-157 | a token is accepted iff it is non-empty and every character is an ASCII letter or digit |
| Validation.InvalidTokens | MyCreditManager/main.swift:153-157 | a token holding any character outside [0-9A-Za-z] is rejected, as is the empty token |
| Validation.Split | MyCreditManager/main.swift:104 | splitting yields at least one token and no token contains a space |
| Validation.JoinSplit | MyCreditManager/main.swift:104 | joining the split tokens with single spaces gives back the line |
| Validation.SplitJoin | MyCreditManager/main.swift:104 | splitting a line of space-free tokens joined by single spaces gives back the tokens |
| Commands.RawValue | MyCreditManager/Enum.swift:10-17 | each raw value is one character among "1".."5" and "X", and it is "X" exactly for exit |
| Commands.ParseCommand | MyCreditManager/Enum.swift:10-17 | a parsed command is one whose raw value is the input; a refusal means no raw value equals it |
| Commands.RawValueInjective | MyCreditManager/Enum.swift:10-17 | the six raw values are pairwise distinct |
| Commands.CommandRoundTrip | MyCreditManager/Enum.swift:10-17 | parsing a command's raw value gives back that command |
| Commands.ParseCommandAcceptsExactlyRawValues | MyCreditManager/Enum.swift:10-17 | exactly "1".."5" and "X" parse |
| Commands.RawValueIsValidInput | MyCreditManager/main.swift:47-49 | every command's raw value passes `validateInput` |
| Commands.NextStep | MyCreditManager/main.swift:17-44 | the loop aborts iff the line is no command's raw value, quits iff it is "X", and otherwise dispatches the command it names |
| Commands.UnknownLinesAbort | MyCreditManager/main.swift:20-25 | "x", the empty line and "6" end the loop instead of re-prompting |
| Seqs.FirstIndexWhere | MyCreditManager/main.swift:214-216 | the result is the least index whose element satisfies the predicate, and none exactly when no element does |
| Seqs.RemoveAt | MyCreditManager/main.swift:220 | removal keeps the elements before and after the index in order and removes exactly one copy of the element there |
| Store.CountNamed | MyCreditManager/main.swift:189 | the number of records with the name never exceeds the roster's length |
| Store.CountNamedZero | MyCreditManager/main.swift:189 | the count of records with the name is zero iff no record has it |
| Store.Absent | MyCreditManager/main.swift:188-190 | `checkStudentIsAdded` is true iff no record has the name |
| Store.FirstIndex | MyCreditManager/main.swift:214-216 | the first record with the name, and none exactly when the name is absent |
| Store.AddStudentName | MyCreditManager/main.swift:163-170 | afterwards the name is present; the old roster is a prefix; an absent name gets a never-graded record at the end, a present one changes nothing; unique names stay unique |
| Store.RemoveNamed | MyCreditManager/main.swift:179 | the filtered roster is shorter by exactly the number of records with the name (which records survive is Store.RemoveNamedMembers) |
| Store.RemoveNamedMembers | MyCreditManager/main.swift:179 | a record survives the filter iff it was there and has another name |
| Store.RemoveNamedAppend | MyCreditManager/main.swift:179 | the filter distributes over concatenation, so kept records keep their order |
| Store.RemoveNamedAbsent | MyCreditManager/main.swift:179 | filtering out an absent name changes nothing |
| Store.RemoveNamedUnique | MyCreditManager/main.swift:179 | filtering keeps names unique |
| Store.RemoveStudentWhenAdded | MyCreditManager/main.swift:175-182 | afterwards the name is absent; an absent name changes nothing; otherwise the result is the order-keeping filter of the name, so exactly the records of other names remain, uniqueness kept |
| Store.AddThenRemove | MyCreditManager/main.swift:163-182 | adding an absent name and removing it restores the roster |
| Store.AddTwiceKeepsOne | MyCreditManager/main.swift:163-170 | adding a name twice leaves exactly one record of it |
| Store.IndexOf | MyCreditManager/main.swift:198 | the record the grade commands act on is the first with the name |
| Store.SetGrade | MyCreditManager/main.swift:197-205 | names and all other records unchanged; a nil list becomes the request's list; an existing list gets the request's grade appended at the end |
| Store.DuplicateSubjectsCoexist | MyCreditManager/main.swift:197-205 | two grades of one subject on a never-graded student give a two-grade list, the first one kept |
| Store.FirstSubject | MyCreditManager/main.swift:217-219 | the first grade of the subject, and none exactly when no grade has it |
| Store.RemoveGrade | MyCreditManager/main.swift:212-222 | names and other records unchanged; with no such student, no list or no matching grade nothing changes; otherwise only the first grade of the subject is removed, the rest in order |
| Store.RemoveGradeRemovesOne | MyCreditManager/main.swift:212-222 | a removal takes out exactly one grade (as a multiset) of the requested subject when there is one, and is a no-op when there is none |
| Store.SetThenRemove | MyCreditManager/main.swift:197-222 | appending a grade of a new subject and removing that subject restores the roster |
| Store.FirstGradeRemovedLeavesEmpty | MyCreditManager/main.swift:197-222 | removing the first grade of a never-graded student leaves an empty list, not nil |
| Intake.ValidateInfos | MyCreditManager/main.swift:119-138 | accepted iff the count matches, name valid, student present, subject valid and (from three tokens) the rating parses; each failure gets its error; success is a one-grade record whose rating is present exactly when three or more tokens are expected, with the typed label |
| Intake.ReadStudentInfos | MyCreditManager/main.swift:102-111 | a line is accepted exactly when its single-space split passes `validateInfos`, and a refusal carries that check's error; a line whose split has the wrong length is refused with the count error; an accepted line names a present student with valid name and subject and yields one grade; for two or three tokens the accepted line is exactly its tokens joined by single spaces |
| Intake.AcceptsGradeLine | MyCreditManager/main.swift:102-138 | "Kim Math A+" for a known Kim yields Kim with one A+ grade in Math |
| Intake.AcceptsRemovalLine | MyCreditManager/main.swift:102-138 | "Kim Math" as a removal request yields a grade without rating |
| Intake.RejectsDoubledSpace | MyCreditManager/main.swift:102-120 | a doubled space gives an empty token and a wrong count |
| Intake.RejectsLowerCaseRating | MyCreditManager/main.swift:102-138 | a lower-case rating is refused as a bad rating |
| Grading.CheckHasGrades | MyCreditManager/main.swift:245-253 | an absent student has no grades; otherwise the first record's list, nil or not, empty or not |
| Grading.GradesForAverage | MyCreditManager/main.swift:245-253 | the corrected lookup returns only non-empty lists and refuses exactly the nil and the empty one |
| Grading.EmptiedGradesPassCheck | MyCreditManager/main.swift:245-253 | after one grade is added and removed, the lookup as written yields an empty list; the corrected one refuses it |
| Grading.Points10 | MyCreditManager/main.swift:262-279 | points are at most 4.5; they are zero exactly for F, D+, D and a missing rating |
| Grading.Sum10 | MyCreditManager/main.swift:260-280 | the total of a list is at most 4.5 points per grade |
| Grading.Sum10Append | MyCreditManager/main.swift:261-280 | the total of two lists is the sum of their totals |
| Grading.Average | MyCreditManager/main.swift:259-282 | the average times the number of grades is the total points; it lies between 0 and 4.5 |
| Grading.AverageExamples | MyCreditManager/main.swift:259-282 | [A+, A] averages 4.25, [F] 0, [A, D] 2.0 |
| Session.StartCheckAverage | MyCreditManager/main.swift:227-253 | not found iff absent; no grades iff present with a nil list; an undefined average iff present with an emptied list; otherwise a report of that non-empty list with its average |
| Session.StartCheckAverageCorrected | MyCreditManager/main.swift:227-253 | never an undefined average: no grades iff the list is nil or empty; any report agrees with the as-written view |
| Session.ViewAfterEmptying | MyCreditManager/main.swift:227-253 | adding and removing Kim's only grade, then viewing, gives an undefined average as written and "no grades" corrected |
| Session.Execute | MyCreditManager/main.swift:62-95 | viewing and exit never change the roster, nor does any refusal; an invalid name line is refused; adding a valid name reports Added iff it was absent (the roster gains exactly its never-graded record) and AlreadyExists otherwise; removing reports Removed iff present, and then the roster is the filter of that name, while an absent name gives NotFound with the roster unchanged; a grade command stores or removes the parsed request when it is accepted and otherwise reports its error with the roster unchanged; viewing a valid name reports the as-written average view; exit reports Exited and changes nothing |
| Session.SetGradeKeepsValid | MyCreditManager/main.swift:197-205 | appending a well-formed grade keeps the roster invariant |
| Session.RemoveGradeKeepsValid | MyCreditManager/main.swift:212-222 | removing a grade keeps the roster invariant |
| Session.RosterCommandsKeepValid | MyCreditManager/main.swift:163-182 | adding or removing a student keeps names unique and valid and every stored grade rated |
| Session.GradeCommandsKeepValid | MyCreditManager/main.swift:197-222 | storing or removing an accepted grade request keeps the roster invariant |
| Session.ExecutePreservesValid | MyCreditManager/main.swift:62-95 | every menu command keeps names unique and valid and every stored grade rated with a valid subject |
| Session.ReportedGradesAreRated | MyCreditManager/main.swift:234-236 | on a valid roster every reported grade has a rating, so listing it cannot unwrap nil |
| Session.AddStudentAfterRestart | MyCreditManager/main.swift:141-150 | the add command, resumed after the nested loop, leaves the rejected name present |
| Session.RestartAdmitsInvalidName | MyCreditManager/main.swift:141-150 | resuming after the restart puts "Kim!" into a valid roster and breaks the invariant; the corrected command leaves the roster unchanged |

## Left out

- Console I/O: `readLine`, `print` and the message texts are not modelled. Each command's output is an `Event`; a missing input line is the empty string, as `readLine() ?? ""` makes it.
- The `MyCreditManager.shared` singleton and the `while` loop of `start()`: the model gives one pass of the loop (`Commands.NextStep`) and one command (`Session.Execute`), not the sequence of them.
- Session.Execute: on a name line that fails the token check the source calls `manager.start()` recursively; the model ends the command with `InvalidName` and an unchanged roster instead (see Findings). The same holds for the restart `checkHasGrades` makes after "no grades".
- Floating point: the average is an exact `real` from integer tenths; `Double` rounding and the `%.2f` formatting are not modelled.
- The regular-expression engine: replaced by a per-character check on `char`; Swift's grapheme-cluster `Character` is not modelled.
- Reference semantics of the `Student` class: the record is updated at the index of the first record with the name, which is what `filter(_:).first` reaches through the shared reference.
- Store.SetGrade: requires the student to be present, excluding the absent name on which the source's `first!` traps (main.swift:198); the one caller checks presence in `validateInfos` first. It also requires a present grade list of the request record to be non-empty. The source traps on `[0]` only when it appends; the one caller always passes exactly one grade.
- Store.RemoveGrade: requires a present grade list of the request record to be non-empty. The source reads `[startIndex]` only while scanning a non-empty list; the one caller always passes exactly one grade.
- Intake.ValidateInfos: requires at least two expected tokens, because the source indexes the second token unconditionally; the callers pass 2 and 3.
- Intake.ReadStudentInfos: the round trip to the line is stated for two or three expected tokens only, the counts the callers use; with more, the tokens past the third are ignored.

## Findings

| source | as written | input that shows it | evidently intended | confidence | as-written member | corrected member |
|---|---|---|---|---|---|---|
| MyCreditManager/main.swift:245-253 | `checkHasGrades` refuses only a nil grade list; a list emptied by `removeGrade` is `[]`, passes, and the average divides 0.0 by 0, printing "nan" | add "Kim"; add grade "Kim Math A"; remove grade "Kim Math"; view average of "Kim" | report that the student has no grades | medium, not executed | Session.ViewAfterEmptying | Session.StartCheckAverageCorrected |
| MyCreditManager/main.swift:141-150 | after an invalid name, `readStudentName` runs a nested loop and, when it returns, still returns the rejected line, which `addStudentName` adds | menu "1", name "Kim!", then "X" in the nested loop | drop the rejected name and return to the menu | medium, not executed | Session.RestartAdmitsInvalidName | Session.RosterCommandsKeepValid |
