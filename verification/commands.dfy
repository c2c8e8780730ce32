/** The menu: the six commands with their raw strings, and the classification
    of one line read at the top of the command loop. */
module Commands {
  import opened Wrappers
  import Validation

  datatype Command = AddStudent | RemoveStudent | AddGrade | RemoveGrade | ViewAverage | Exit

  /** The raw value typed to select each command. */
  function RawValue(c: Command): (s: string)
    ensures |s| == 1 && s[0] in "12345X"
    ensures s == "X" <==> c == Exit
  {
    match c
    case AddStudent => "1"
    case RemoveStudent => "2"
    case AddGrade => "3"
    case RemoveGrade => "4"
    case ViewAverage => "5"
    case Exit => "X"
  }

  /** The failable initialiser from a raw value: an exact, case-sensitive match. */
  function ParseCommand(s: string): (r: Option<Command>)
    ensures r.Some? ==> RawValue(r.value) == s
    ensures r.None? ==> forall c: Command :: RawValue(c) != s
  {
    if s == "1" then Some(AddStudent)
    else if s == "2" then Some(RemoveStudent)
    else if s == "3" then Some(AddGrade)
    else if s == "4" then Some(RemoveGrade)
    else if s == "5" then Some(ViewAverage)
    else if s == "X" then Some(Exit)
    else None
  }

  /** The six raw values are pairwise distinct. */
  lemma RawValueInjective(c1: Command, c2: Command)
    ensures RawValue(c1) == RawValue(c2) ==> c1 == c2
  {
  }

  /** Parsing a command's raw value gives back that command. */
  lemma CommandRoundTrip(c: Command)
    ensures ParseCommand(RawValue(c)) == Some(c)
  {
  }

  /** The parser accepts exactly the six raw values. */
  lemma ParseCommandAcceptsExactlyRawValues(s: string)
    ensures ParseCommand(s).Some? <==> s in {"1", "2", "3", "4", "5", "X"}
  {
  }

  /** `validateInput`, applied to the raw value of a parsed command, always passes:
      every raw value is a one-character alphanumeric token. */
  lemma RawValueIsValidInput(c: Command)
    ensures Validation.IsValidToken(RawValue(c))
  {
  }

  /** What the loop does with one line it has read. */
  datatype Step =
    | Dispatch(cmd: Command)  // run the command, then prompt again
    | Quit                    // the exit command: the loop condition ends the loop
    | Abort                   // not a command: the loop returns without re-prompting

  /** One pass of the command loop: an unknown line (the empty line that a
      missing input becomes included) ends the loop at once; `X` ends it after
      its branch; every other command is dispatched. */
  function NextStep(line: string): (k: Step)
    ensures k == Abort <==> forall c: Command :: RawValue(c) != line
    ensures k == Quit <==> line == RawValue(Exit)
    ensures k.Dispatch? ==> k.cmd != Exit && RawValue(k.cmd) == line
  {
    match ParseCommand(line)
    case None => Abort
    case Some(c) =>
      // the `validateInput` guard on the raw value never fails, so the
      // else-branch cannot be reached and its value is arbitrary (the source
      // would skip the switch and prompt again)
      if Validation.IsValidToken(RawValue(c)) then
        if c == Exit then Quit else Dispatch(c)
      else
        assert false; Abort
  }

  /** Lower-case `x`, the empty line and an unlisted digit all abort the loop. */
  lemma UnknownLinesAbort()
    ensures NextStep("x") == Abort
    ensures NextStep("") == Abort
    ensures NextStep("6") == Abort
  {
  }
}
