/** The main body of the script: load the table at start-up, then one pass
    of the `while (True)` loop per menu choice until option 5. Console input
    arrives as parameters: the raw choice line and, for options 1 and 2, the
    name and amount the user typed. */
module MainLoop {
  import opened Wrappers
  import opened Processor
  import opened IO

  /** The script's state: the in-memory table and the data file. */
  datatype Session = Session(table: seq<Row>, disk: Disk)

  /** One pass of the loop: the next state, the total shown by option 4,
      and whether the loop was left. */
  datatype StepResult = StepResult(next: Session, total: Option<real>, done: bool)

  /** What the user types during one pass. `name` and `amount` are read only
      by options 1 and 2. */
  datatype Command = Command(line: string, name: string, amount: real)

  /** Start-up: the table is whatever `load_data_from_file` returns. */
  function Start(disk: Disk): (r: Result<Session, LoadError>)
    ensures disk.Missing? ==> r == Success(Session([], disk))
    ensures disk.Stored? ==> r == Success(Session(disk.rows, disk))
    ensures r.Failure? <==> disk.Unreadable?
  {
    match LoadDataFromFile(disk, [])
    case Success(rows) => Success(Session(rows, disk))
    case Failure(e) => Failure(e)
  }

  /** True iff the line selects option 5. */
  predicate IsExit(line: string) {
    Strip(line) == "5"
  }

  /** One pass of the loop body, after the table and menu are shown. The
      test for option 1 strips the already stripped choice once more; the
      other options compare the choice as returned. */
  function Step(s: Session, cmd: Command): (r: StepResult)
    ensures r.done <==> IsExit(cmd.line)
    ensures Strip(cmd.line) == "1" ==>
              r.next.table == AddDataToList(cmd.name, cmd.amount, s.table)
    ensures Strip(cmd.line) == "2" ==> r.next.table == RemoveRows(s.table, cmd.name)
    ensures Strip(cmd.line) != "1" && Strip(cmd.line) != "2" ==> r.next.table == s.table
    ensures Strip(cmd.line) == "3" ==>
              r.next.disk == Stored(s.table) && LoadDataFromFile(r.next.disk, []) == Success(s.table)
    ensures Strip(cmd.line) != "3" ==> r.next.disk == s.disk
    ensures r.total.Some? <==> Strip(cmd.line) == "4"
    ensures r.total.Some? ==> r.total.value == Sum(s.table)
    ensures !InputMenuChoice(cmd.line).1 ==> r == StepResult(s, None, false)
  {
    var choice := InputMenuChoice(cmd.line).0;
    StripIdempotent(cmd.line);
    if Strip(choice) == "1" then
      StepResult(s.(table := AddDataToList(cmd.name, cmd.amount, s.table)), None, false)
    else if choice == "2" then
      StepResult(s.(table := RemoveRows(s.table, cmd.name)), None, false)
    else if choice == "3" then
      var saved := PickleDataToFile(s.disk, s.table);
      StepResult(Session(saved.0, saved.1), None, false)
    else if choice == "4" then
      StepResult(s, Some(Sum(s.table)), false)
    else if choice == "5" then
      StepResult(s, None, true)
    else
      StepResult(s, None, false)
  }

  /** Where a run over a finite stretch of input ends. */
  datatype RunResult = RunResult(session: Session, consumed: nat, exited: bool)

  /** Feeds commands to the loop until option 5 or the input runs out. */
  function Run(s: Session, cmds: seq<Command>): (r: RunResult)
    ensures r.consumed <= |cmds|
    ensures !r.exited ==> r.consumed == |cmds|
    ensures r.exited ==> r.consumed > 0 && IsExit(cmds[r.consumed - 1].line)
    decreases |cmds|
  {
    if |cmds| == 0 then RunResult(s, 0, false)
    else
      var st := Step(s, cmds[0]);
      if st.done then RunResult(st.next, 1, true)
      else
        var rest := Run(st.next, cmds[1..]);
        assert rest.exited ==> cmds[rest.consumed] == cmds[1..][rest.consumed - 1];
        RunResult(rest.session, rest.consumed + 1, rest.exited)
  }

  /** The loop is left at the first line that strips to "5" and only there:
      no earlier line is an exit, and a run that does not exit met none. */
  lemma {:induction false} RunExitsAtFirstExit(s: Session, cmds: seq<Command>)
    ensures forall m :: 0 <= m && m + 1 < Run(s, cmds).consumed ==> !IsExit(cmds[m].line)
    ensures !Run(s, cmds).exited ==> forall m :: 0 <= m < |cmds| ==> !IsExit(cmds[m].line)
    decreases |cmds|
  {
    if |cmds| > 0 {
      var st := Step(s, cmds[0]);
      if !st.done {
        RunExitsAtFirstExit(st.next, cmds[1..]);
        forall m | 0 < m < |cmds|
          ensures cmds[m] == cmds[1..][m - 1]
        {
        }
      }
    }
  }

  /** Saving, showing the total, exiting and invalid choices never touch the
      table: only options 1 and 2 change it. */
  lemma {:induction false} RunReadOnly(s: Session, cmds: seq<Command>)
    requires forall m :: 0 <= m < |cmds| ==> Strip(cmds[m].line) != "1" && Strip(cmds[m].line) != "2"
    ensures Run(s, cmds).session.table == s.table
    decreases |cmds|
  {
    if |cmds| > 0 {
      var st := Step(s, cmds[0]);
      if !st.done {
        RunReadOnly(st.next, cmds[1..]);
      }
    }
  }

  /** Input after the first exit line is never read. */
  lemma {:induction false} RunIgnoresAfterExit(s: Session, cmds: seq<Command>, more: seq<Command>)
    requires Run(s, cmds).exited
    ensures Run(s, cmds + more) == Run(s, cmds)
    decreases |cmds|
  {
    assert (cmds + more)[0] == cmds[0];
    var st := Step(s, cmds[0]);
    if !st.done {
      assert (cmds + more)[1..] == cmds[1..] + more;
      RunIgnoresAfterExit(st.next, cmds[1..], more);
    }
  }
}
