/** BulkCommands/main.py: run every command of commands.csv on every switch
    of switches.csv, log each session, and tally the outcomes. The CSV files
    arrive already split into cells; each SSH call's outcome and whether
    each log append succeeds are inputs. */
module BulkCommands {
  import opened Common
  import opened Text

  /** Why `load_csv_column` raised its ValueError. */
  datatype CsvError =
    | ColumnNotFound  // no header row, or the column is not one of its names
    | MissingField    // a row too short to reach the column: `None.strip()` fails
    | NoItems         // every cell of the column is blank

  /** The position `csv.DictReader` reads a column from: with repeated
      header names the last one wins, since `dict(zip(...))` keeps the last. */
  function LastIndex(header: seq<string>, column: string): (r: Option<nat>)
    ensures r.Some? <==> column in header
    ensures r.Some? ==> r.value < |header| && header[r.value] == column
    ensures r.Some? ==> forall j :: r.value < j < |header| ==> header[j] != column
    decreases |header|
  {
    if |header| == 0 then None
    else if header[|header| - 1] == column then Some(|header| - 1)
    else
      assert header == header[..|header| - 1] + [header[|header| - 1]];
      LastIndex(header[..|header| - 1], column)
  }

  /** A row `csv.DictReader` yields: blank lines (no cells) are skipped. */
  predicate Counted(row: seq<string>)
  {
    row != []
  }

  /** Every row `csv.DictReader` yields reaches position `idx`. */
  predicate RowsReach(rows: seq<seq<string>>, idx: nat)
    decreases |rows|
  {
    |rows| == 0 || ((Counted(rows[0]) ==> idx < |rows[0]|) && RowsReach(rows[1..], idx))
  }

  /** `RowsReach` row by row. */
  lemma {:induction false} RowsReachIff(rows: seq<seq<string>>, idx: nat)
    ensures RowsReach(rows, idx) <==> forall i :: 0 <= i < |rows| && Counted(rows[i]) ==> idx < |rows[i]|
    decreases |rows|
  {
    if |rows| > 0 {
      RowsReachIff(rows[1..], idx);
      assert forall i :: 1 <= i < |rows| ==> rows[i] == rows[1..][i - 1];
    }
  }

  /** Values as the loader keeps them: stripped and non-empty. */
  predicate CleanValues(vs: seq<string>)
  {
    forall k :: 0 <= k < |vs| ==> vs[k] != "" && IsTrimmed(vs[k])
  }

  /** What one row contributes: its stripped cell, unless that is empty;
      a blank line (or a row the load rejects) contributes nothing. */
  function Cell(row: seq<string>, idx: nat): (r: seq<string>)
    ensures CleanValues(r) && |r| <= 1
    ensures Counted(row) && idx < |row| ==> (r == [] <==> IsBlank(row[idx]))
    ensures r != [] ==> idx < |row| && r[0] == Trim(row[idx])
  {
    if !Counted(row) || idx >= |row| then []
    else
      var v := Trim(row[idx]);
      if v == "" then [] else [v]
  }

  /** The stripped, non-empty cells at position `idx`, in row order. */
  function Cells(rows: seq<seq<string>>, idx: nat): (r: seq<string>)
    ensures |r| <= |rows| && CleanValues(r)
    decreases |rows|
  {
    if |rows| == 0 then [] else Cell(rows[0], idx) + Cells(rows[1..], idx)
  }

  /** The reading loop of `load_csv_column`: a counted row too short to have
      the cell fails the whole load, since its value is `None`. */
  function ColumnValues(rows: seq<seq<string>>, idx: nat): (r: Result<seq<string>, CsvError>)
    ensures r.Ok? <==> RowsReach(rows, idx)
    ensures r.Err? ==> r.error == MissingField
    ensures r.Ok? ==> r.value == Cells(rows, idx)
  {
    if RowsReach(rows, idx) then Ok(Cells(rows, idx)) else Err(MissingField)
  }

  /** No non-blank cell of the column is lost. */
  lemma {:induction false} CellsKeepNonBlank(rows: seq<seq<string>>, idx: nat, i: nat)
    requires i < |rows| && Counted(rows[i])
    requires idx < |rows[i]| && Trim(rows[i][idx]) != ""
    ensures Trim(rows[i][idx]) in Cells(rows, idx)
    decreases |rows|
  {
    var v := Trim(rows[i][idx]);
    assert Cells(rows, idx) == Cell(rows[0], idx) + Cells(rows[1..], idx);
    if i > 0 {
      assert rows[i] == rows[1..][i - 1];
      CellsKeepNonBlank(rows[1..], idx, i - 1);
      assert v in Cells(rows[1..], idx);
    } else {
      assert Cell(rows[0], idx) == [v];
    }
  }

  /** The short-row check is row by row: two stretches pass it exactly when both do. */
  lemma {:induction false} RowsReachAppend(a: seq<seq<string>>, b: seq<seq<string>>, idx: nat)
    ensures RowsReach(a + b, idx) <==> RowsReach(a, idx) && RowsReach(b, idx)
    decreases |a|
  {
    if |a| == 0 {
      assert a + b == b;
    } else {
      assert (a + b)[1..] == a[1..] + b && (a + b)[0] == a[0];
      RowsReachAppend(a[1..], b, idx);
    }
  }

  /** Rows are read in file order: the values of two stretches of rows are
      the values of the first followed by those of the second. */
  lemma {:induction false} CellsAppend(a: seq<seq<string>>, b: seq<seq<string>>, idx: nat)
    ensures Cells(a + b, idx) == Cells(a, idx) + Cells(b, idx)
    decreases |a|
  {
    if |a| == 0 {
      assert a + b == b;
    } else {
      assert (a + b)[1..] == a[1..] + b && (a + b)[0] == a[0];
      CellsAppend(a[1..], b, idx);
      var c := Cell(a[0], idx);
      assert c + (Cells(a[1..], idx) + Cells(b, idx)) == (c + Cells(a[1..], idx)) + Cells(b, idx);
    }
  }

  /** `load_csv_column(csv_path, column_name)` on the header row and the
      data rows of the file. */
  function LoadCsvColumn(header: seq<string>, rows: seq<seq<string>>, column: string): (r: Result<seq<string>, CsvError>)
    ensures column !in header ==> r == Err(ColumnNotFound)
    ensures r.Ok? ==> |r.value| > 0 && CleanValues(r.value)
    ensures column in header ==> match ColumnValues(rows, LastIndex(header, column).value)
      case Err(e) => r == Err(e)
      case Ok(vs) => r == if vs == [] then Err(NoItems) else Ok(vs)
  {
    match LastIndex(header, column)
    case None => Err(ColumnNotFound)
    case Some(i) =>
      match ColumnValues(rows, i)
      case Err(e) => Err(e)
      case Ok(vs) => if vs == [] then Err(NoItems) else Ok(vs)
  }

  /** A repeated column name reads the cells under its last occurrence. */
  lemma DuplicateHeaderLastWins(first: string, second: string)
    requires Trim(second) != ""
    ensures LoadCsvColumn(["hostname", "hostname"], [[first, second]], "hostname") == Ok([Trim(second)])
  {
    assert LastIndex(["hostname", "hostname"], "hostname") == Some(1);
    var rows := [[first, second]];
    assert rows[1..] == [];
    assert RowsReach(rows[1..], 1) && Cells(rows[1..], 1) == [];
    assert RowsReach(rows, 1);
    assert Cell(rows[0], 1) == [Trim(second)];
    assert Cells(rows, 1) == [Trim(second)] + [];
    assert [Trim(second)] + [] == [Trim(second)];
    assert ColumnValues(rows, 1) == Ok([Trim(second)]);
  }

  /** A data row shorter than the header fails the load, even when its
      neighbours are fine. */
  lemma ShortRowFails(header: seq<string>, column: string, before: seq<seq<string>>, row: seq<string>, after: seq<seq<string>>)
    requires column in header
    requires row != [] && |row| <= LastIndex(header, column).value
    ensures LoadCsvColumn(header, before + [row] + after, column) == Err(MissingField)
  {
    var rows := before + [row] + after;
    assert rows[|before|] == row;
    RowsReachIff(rows, LastIndex(header, column).value);
  }

  /** Both CSV files of a run: the switches' "hostname" column and the
      commands' "command" column. Either failing stops the run. */
  function LoadInputs(switchHeader: seq<string>, switchRows: seq<seq<string>>,
                      commandHeader: seq<string>, commandRows: seq<seq<string>>): (r: Result<(seq<string>, seq<string>), CsvError>)
    ensures r.Ok? <==> LoadCsvColumn(switchHeader, switchRows, "hostname").Ok? && LoadCsvColumn(commandHeader, commandRows, "command").Ok?
    ensures r.Ok? ==> |r.value.0| > 0 && |r.value.1| > 0
    ensures r.Ok? ==> r.value == (LoadCsvColumn(switchHeader, switchRows, "hostname").value, LoadCsvColumn(commandHeader, commandRows, "command").value)
  {
    match LoadCsvColumn(switchHeader, switchRows, "hostname")
    case Err(e) => Err(e)
    case Ok(switches) =>
      match LoadCsvColumn(commandHeader, commandRows, "command")
      case Err(e) => Err(e)
      case Ok(commands) => Ok((switches, commands))
  }

  /** The characters `get_log_file_path` replaces in a switch name. */
  predicate IsPathSeparator(c: char)
  {
    c == '/' || c == '\\' || c == ':'
  }

  /** The per-switch log directory name: '/', '\' and ':' each become '_'. */
  function SanitizeSwitchName(name: string): (r: string)
    ensures |r| == |name|
    ensures forall i :: 0 <= i < |r| ==> !IsPathSeparator(r[i])
    ensures forall i :: 0 <= i < |r| ==> r[i] == (if IsPathSeparator(name[i]) then '_' else name[i])
  {
    ReplaceChar(ReplaceChar(ReplaceChar(name, '/', '_'), '\\', '_'), ':', '_')
  }

  /** Sanitising a sanitised name changes nothing, and a name without
      separators is used as it is. */
  lemma SanitizeIdempotent(name: string)
    ensures SanitizeSwitchName(SanitizeSwitchName(name)) == SanitizeSwitchName(name)
    ensures (forall i :: 0 <= i < |name| ==> !IsPathSeparator(name[i])) ==> SanitizeSwitchName(name) == name
  {
  }

  /** What `ssh.exec_command` and the reads of its streams did. */
  datatype ExecOutcome =
    | Completed(stdout: string, stderr: string)  // both streams read and decoded
    | TimedOut                                   // `socket.timeout`
    | Raised(message: string)                    // any other exception, as `str(e)`

  /** `execute_command`'s `(output, error, success)`; the elapsed time is not modelled. */
  datatype ExecResult = ExecResult(output: string, error: string, success: bool)

  const TimeoutMessage: string := "Command execution timed out"

  /** `execute_command`: never raises; a failure yields empty output and the
      failure's message as the error text. */
  function ExecuteCommand(outcome: ExecOutcome): (r: ExecResult)
    ensures r.success <==> outcome.Completed?
    ensures outcome.Completed? ==> r.output == outcome.stdout && r.error == outcome.stderr
    ensures !r.success ==> r.output == ""
    ensures outcome.TimedOut? ==> r.error == TimeoutMessage
  {
    match outcome
    case Completed(out, err) => ExecResult(out, err, true)
    case TimedOut => ExecResult("", TimeoutMessage, false)
    case Raised(message) => ExecResult("", message, false)
  }

  /** The status `process_switch` logs for a command. */
  datatype Status = Success | CompletedWithErrors | Failed

  function Classify(e: ExecResult): (s: Status)
    ensures s == Success <==> e.success && e.error == ""
    ensures s == CompletedWithErrors <==> e.success && e.error != ""
    ensures s == Failed <==> !e.success
  {
    if e.success && e.error == "" then Success
    else if e.success then CompletedWithErrors
    else Failed
  }

  /** Only a command that ran and wrote nothing to stderr is a success; a
      timeout or any other exception is a failure. */
  lemma ClassifyOutcome(outcome: ExecOutcome)
    ensures Classify(ExecuteCommand(outcome)) == Success <==> outcome.Completed? && outcome.stderr == ""
    ensures Classify(ExecuteCommand(outcome)) == Failed <==> !outcome.Completed?
  {
  }

  /** One command on one switch: the SSH outcome, whether appending its log
      entry succeeded, and whether the fallback entry written in the
      `except` branch succeeded (consulted only when the first append failed). */
  datatype CommandRun = CommandRun(outcome: ExecOutcome, logOk: bool, fallbackLogOk: bool)

  /** One switch: whether `get_connection` returned, whether the header was
      appended, the runs of the commands in order, and whether the footer was
      appended. */
  datatype HostRun = HostRun(connected: bool, headerOk: bool, commands: seq<CommandRun>, footerOk: bool)

  /** `process_switch`'s stats dictionary. */
  datatype HostStats = HostStats(total: nat, success: nat, errors: nat, connectionFailed: bool)

  predicate IsSuccess(c: CommandRun)
  {
    Classify(ExecuteCommand(c.outcome)) == Success
  }

  /** Both log appends of a command failed: the exception leaves the command loop. */
  predicate Aborts(c: CommandRun)
  {
    !c.logOk && !c.fallbackLogOk
  }

  /** Reference count of the commands that succeed. */
  function SuccessCount(cs: seq<CommandRun>): (n: nat)
    ensures n <= |cs|
    decreases |cs|
  {
    if |cs| == 0 then 0 else (if IsSuccess(cs[0]) then 1 else 0) + SuccessCount(cs[1..])
  }

  /** The position of the first command whose exception escapes, or `|cs|` if none does. */
  function FirstAbort(cs: seq<CommandRun>): (n: nat)
    ensures n <= |cs|
    ensures forall i :: 0 <= i < n ==> !Aborts(cs[i])
    ensures n < |cs| ==> Aborts(cs[n])
    decreases |cs|
  {
    if |cs| == 0 then 0
    else if Aborts(cs[0]) then 0
    else
      var n := FirstAbort(cs[1..]);
      assert forall i :: 1 <= i <= n ==> cs[i] == cs[1..][i - 1];
      1 + n
  }

  /** The counters after one command, counted once by its classification. */
  function Count(s: HostStats, c: CommandRun): HostStats
  {
    if IsSuccess(c) then s.(total := s.total + 1, success := s.success + 1)
    else s.(total := s.total + 1, errors := s.errors + 1)
  }

  /** The command loop of `process_switch` as written: a command whose log
      append raises is counted again as an error by the `except` branch, on
      top of the count its classification already added. The flag says that
      the fallback append raised as well, which ends the loop. */
  function RunCommandsAsWritten(s: HostStats, cs: seq<CommandRun>): (r: (HostStats, bool))
    ensures r.0.total == s.total + (if r.1 then FirstAbort(cs) + 1 else |cs|)
    ensures r.1 <==> FirstAbort(cs) < |cs|
    ensures r.0.success + r.0.errors >= r.0.total + s.success + s.errors - s.total
    ensures r.0.connectionFailed == s.connectionFailed
    decreases |cs|
  {
    if |cs| == 0 then (s, false)
    else
      var c := cs[0];
      var counted := Count(s, c);
      if c.logOk then RunCommandsAsWritten(counted, cs[1..])
      else
        var again := counted.(errors := counted.errors + 1);
        if c.fallbackLogOk then RunCommandsAsWritten(again, cs[1..]) else (again, true)
  }

  /** The command loop with every command counted exactly once. A failing
      fallback append still ends the loop, as in the source. */
  function RunCommands(s: HostStats, cs: seq<CommandRun>): (r: (HostStats, bool))
    ensures r.1 <==> FirstAbort(cs) < |cs|
    ensures r.0.total == s.total + (if r.1 then FirstAbort(cs) + 1 else |cs|)
    ensures r.0.success + r.0.errors + s.total == s.success + s.errors + r.0.total
    ensures r.0.success == s.success + SuccessCount(cs[..r.0.total - s.total])
    ensures r.0.connectionFailed == s.connectionFailed
    decreases |cs|
  {
    if |cs| == 0 then (s, false)
    else
      var c := cs[0];
      var counted := Count(s, c);
      var r := if Aborts(c) then (counted, true) else RunCommands(counted, cs[1..]);
      SuccessCountPrefix(cs, r.0.total - s.total);
      r
  }

  lemma SuccessCountPrefix(cs: seq<CommandRun>, k: nat)
    requires 1 <= k <= |cs|
    ensures SuccessCount(cs[..k]) == (if IsSuccess(cs[0]) then 1 else 0) + SuccessCount(cs[1..][..k - 1])
  {
    assert cs[..k][1..] == cs[1..][..k - 1];
  }

  /** With every per-command log append succeeding, the loop as written and
      the corrected loop agree. */
  lemma {:induction false} RunCommandsAgreeWhenLogged(s: HostStats, cs: seq<CommandRun>)
    requires forall i :: 0 <= i < |cs| ==> cs[i].logOk
    ensures RunCommandsAsWritten(s, cs) == RunCommands(s, cs)
    decreases |cs|
  {
    if |cs| > 0 {
      assert forall i :: 0 <= i < |cs[1..]| ==> cs[1..][i] == cs[i + 1];
      RunCommandsAgreeWhenLogged(Count(s, cs[0]), cs[1..]);
    }
  }

  /** `process_switch` as written. A failure to connect, to append the
      header, or to append the footer, and an exception escaping the command
      loop all end in the outer `except`, which reports a connection failure
      with whatever had been counted. */
  function ProcessSwitchAsWritten(run: HostRun): (r: HostStats)
    ensures !run.connected || !run.headerOk ==> r == HostStats(0, 0, 0, true)
    ensures r.total <= |run.commands|
    ensures r.success + r.errors >= r.total
    ensures !r.connectionFailed ==> r.total == |run.commands|
  {
    var zero := HostStats(0, 0, 0, false);
    if !run.connected || !run.headerOk then zero.(connectionFailed := true)
    else
      var (s, escaped) := RunCommandsAsWritten(zero, run.commands);
      if escaped || !run.footerOk then s.(connectionFailed := true) else s
  }

  /** A command that succeeds but whose log append fails is counted both as
      a success and as an error: one command, two counts. */
  lemma DoubleCountAsWritten()
    ensures var r := ProcessSwitchAsWritten(HostRun(true, true, [CommandRun(Completed("", ""), false, true)], true));
      r == HostStats(1, 1, 1, false) && r.success + r.errors > r.total
  {
    var c := CommandRun(Completed("", ""), false, true);
    assert IsSuccess(c);
    var zero := HostStats(0, 0, 0, false);
    assert [c][1..] == [];
    assert RunCommandsAsWritten(zero, [c]) == RunCommandsAsWritten(HostStats(1, 1, 1, false), []);
  }

  /** Python's `all(...)`: the switch was reached and every log append the
      run needs succeeded, so nothing reached the outer `except`. */
  predicate Uninterrupted(run: HostRun)
  {
    run.connected && run.headerOk && FirstAbort(run.commands) == |run.commands| && run.footerOk
  }

  /** `process_switch` with each command counted once: the counters always
      balance, and a switch is reported failed exactly when something on it
      raised past the command loop. */
  function ProcessSwitch(run: HostRun): (r: HostStats)
    ensures r.success + r.errors == r.total
    ensures r.total <= |run.commands|
    ensures r.connectionFailed <==> !Uninterrupted(run)
    ensures !run.connected || !run.headerOk ==> r == HostStats(0, 0, 0, true)
    ensures !r.connectionFailed ==> r.total == |run.commands| && r.success == SuccessCount(run.commands)
  {
    var zero := HostStats(0, 0, 0, false);
    if !run.connected || !run.headerOk then zero.(connectionFailed := true)
    else
      var (s, escaped) := RunCommands(zero, run.commands);
      assert !escaped ==> run.commands[..s.total] == run.commands;
      if escaped || !run.footerOk then s.(connectionFailed := true) else s
  }

  /** The double count touches only the success and error counters: the
      command total and the failure flag of `process_switch` as written are
      those of the corrected one on every run. */
  lemma ProcessSwitchSameTotal(run: HostRun)
    ensures ProcessSwitchAsWritten(run).total == ProcessSwitch(run).total
    ensures ProcessSwitchAsWritten(run).connectionFailed == ProcessSwitch(run).connectionFailed
  {
    if run.connected && run.headerOk {
      var zero := HostStats(0, 0, 0, false);
      var a := RunCommandsAsWritten(zero, run.commands);
      var b := RunCommands(zero, run.commands);
      assert a.1 == b.1 && a.0.total == b.0.total;
    }
  }

  /** When every per-command log append succeeds, the source's tally is the corrected one. */
  lemma ProcessSwitchAgreesWhenLogged(run: HostRun)
    requires forall i :: 0 <= i < |run.commands| ==> run.commands[i].logOk
    ensures ProcessSwitchAsWritten(run) == ProcessSwitch(run)
  {
    if run.connected && run.headerOk {
      RunCommandsAgreeWhenLogged(HostStats(0, 0, 0, false), run.commands);
    }
  }

  /** A footer that cannot be appended marks the switch as a connection
      failure even though every command ran and was counted. */
  lemma FooterFailureReportedAsConnectionFailure(run: HostRun)
    requires run.connected && run.headerOk && !run.footerOk
    requires FirstAbort(run.commands) == |run.commands|
    ensures ProcessSwitch(run).connectionFailed
    ensures ProcessSwitch(run).total == |run.commands|
  {
    var (s, escaped) := RunCommands(HostStats(0, 0, 0, false), run.commands);
    assert !escaped;
  }

  /** `run_bulk_commands`'s `overall_stats`. */
  datatype Summary = Summary(totalSwitches: nat, processed: nat, connectionFailures: nat,
                             totalCommands: nat, totalSuccess: nat, totalErrors: nat)

  /** Reference count of the switches reported as connection failures. */
  function FailureCount(runs: seq<HostRun>): (n: nat)
    ensures n <= |runs|
    decreases |runs|
  {
    if |runs| == 0 then 0
    else FailureCount(runs[..|runs| - 1]) + (if Uninterrupted(runs[|runs| - 1]) then 0 else 1)
  }

  /** Reference sum of the commands counted on each switch. */
  function CommandTotal(runs: seq<HostRun>): nat
    decreases |runs|
  {
    if |runs| == 0 then 0
    else CommandTotal(runs[..|runs| - 1]) + ProcessSwitch(runs[|runs| - 1]).total
  }

  /** Reference sums of the per-switch success and error counters, as the
      corrected `process_switch` reports them. */
  function SuccessTotal(runs: seq<HostRun>): nat
    decreases |runs|
  {
    if |runs| == 0 then 0
    else SuccessTotal(runs[..|runs| - 1]) + ProcessSwitch(runs[|runs| - 1]).success
  }

  function ErrorTotal(runs: seq<HostRun>): nat
    decreases |runs|
  {
    if |runs| == 0 then 0
    else ErrorTotal(runs[..|runs| - 1]) + ProcessSwitch(runs[|runs| - 1]).errors
  }

  /** The same sums over `process_switch` as written. */
  function SuccessTotalAsWritten(runs: seq<HostRun>): nat
    decreases |runs|
  {
    if |runs| == 0 then 0
    else SuccessTotalAsWritten(runs[..|runs| - 1]) + ProcessSwitchAsWritten(runs[|runs| - 1]).success
  }

  function ErrorTotalAsWritten(runs: seq<HostRun>): nat
    decreases |runs|
  {
    if |runs| == 0 then 0
    else ErrorTotalAsWritten(runs[..|runs| - 1]) + ProcessSwitchAsWritten(runs[|runs| - 1]).errors
  }

  /** Counted once per command, the summed successes and errors make up the
      summed command total. */
  lemma {:induction false} TotalsBalance(runs: seq<HostRun>)
    ensures SuccessTotal(runs) + ErrorTotal(runs) == CommandTotal(runs)
    decreases |runs|
  {
    if |runs| > 0 {
      TotalsBalance(runs[..|runs| - 1]);
    }
  }

  /** Counted as written, the summed successes and errors make up at least
      the summed command total. */
  lemma {:induction false} TotalsOvercount(runs: seq<HostRun>)
    ensures SuccessTotalAsWritten(runs) + ErrorTotalAsWritten(runs) >= CommandTotal(runs)
    decreases |runs|
  {
    if |runs| > 0 {
      TotalsOvercount(runs[..|runs| - 1]);
      ProcessSwitchSameTotal(runs[|runs| - 1]);
    }
  }

  /** Every switch that ran uninterrupted contributes all its commands, and
      no switch contributes more than it has. */
  lemma {:induction false} CommandTotalBounds(runs: seq<HostRun>, n: nat)
    requires forall i :: 0 <= i < |runs| ==> |runs[i].commands| == n
    ensures (|runs| - FailureCount(runs)) * n <= CommandTotal(runs) <= |runs| * n
    decreases |runs|
  {
    if |runs| > 0 {
      var init := runs[..|runs| - 1];
      var last := runs[|runs| - 1];
      assert forall i :: 0 <= i < |init| ==> init[i] == runs[i];
      CommandTotalBounds(init, n);
      TotalBoundsStep(|init|, FailureCount(init), CommandTotal(init), n, ProcessSwitch(last).total, !Uninterrupted(last));
    }
  }

  /** No switch fails when every switch runs uninterrupted. */
  lemma {:induction false} FailureCountZero(runs: seq<HostRun>)
    requires forall i :: 0 <= i < |runs| ==> Uninterrupted(runs[i])
    ensures FailureCount(runs) == 0
    decreases |runs|
  {
    if |runs| > 0 {
      var init := runs[..|runs| - 1];
      assert forall i :: 0 <= i < |init| ==> init[i] == runs[i];
      FailureCountZero(init);
    }
  }

  /** The per-switch loop of `run_bulk_commands`, one run per switch of
      switches.csv, each running all of commands.csv. */
  method RunBulk(commands: seq<string>, runs: seq<HostRun>) returns (summary: Summary)
    requires forall i :: 0 <= i < |runs| ==> |runs[i].commands| == |commands|
    ensures summary.totalSwitches == |runs| && summary.processed == |runs|
    ensures summary.connectionFailures == FailureCount(runs)
    ensures summary.totalCommands == CommandTotal(runs)
    ensures summary.totalSuccess == SuccessTotal(runs) && summary.totalErrors == ErrorTotal(runs)
    ensures summary.totalSuccess + summary.totalErrors == summary.totalCommands
    ensures (|runs| - summary.connectionFailures) * |commands| <= summary.totalCommands <= |runs| * |commands|
    ensures (forall i :: 0 <= i < |runs| ==> Uninterrupted(runs[i])) ==>
      summary.connectionFailures == 0 && summary.totalCommands == |runs| * |commands|
  {
    summary := Summary(|runs|, 0, 0, 0, 0, 0);
    var i := 0;
    while i < |runs|
      invariant 0 <= i <= |runs|
      invariant summary.totalSwitches == |runs| && summary.processed == i
      invariant summary.connectionFailures == FailureCount(runs[..i])
      invariant summary.totalCommands == CommandTotal(runs[..i])
      invariant summary.totalSuccess == SuccessTotal(runs[..i]) && summary.totalErrors == ErrorTotal(runs[..i])
    {
      var stats := ProcessSwitch(runs[i]);
      TallyStep(runs, i);
      summary := summary.(
        processed := summary.processed + 1,
        totalCommands := summary.totalCommands + stats.total,
        totalSuccess := summary.totalSuccess + stats.success,
        totalErrors := summary.totalErrors + stats.errors,
        connectionFailures := summary.connectionFailures + (if stats.connectionFailed then 1 else 0));
      i := i + 1;
    }
    assert runs[..i] == runs;
    TotalsBalance(runs);
    CommandTotalBounds(runs, |commands|);
    if forall k :: 0 <= k < |runs| ==> Uninterrupted(runs[k]) {
      FailureCountZero(runs);
    }
  }

  /** Every per-command log append on every switch succeeds. */
  predicate AllLogged(runs: seq<HostRun>)
  {
    forall i, k :: 0 <= i < |runs| && 0 <= k < |runs[i].commands| ==> runs[i].commands[k].logOk
  }

  /** `run_bulk_commands` as written, summing `process_switch` as written:
      the command total and the failure count are the corrected ones, while
      success plus errors can exceed the command total; only when every log
      append succeeds do those two counters match the corrected tally. */
  method RunBulkAsWritten(commands: seq<string>, runs: seq<HostRun>) returns (summary: Summary)
    requires forall i :: 0 <= i < |runs| ==> |runs[i].commands| == |commands|
    ensures summary.totalSwitches == |runs| && summary.processed == |runs|
    ensures summary.connectionFailures == FailureCount(runs)
    ensures summary.totalCommands == CommandTotal(runs)
    ensures summary.totalSuccess == SuccessTotalAsWritten(runs) && summary.totalErrors == ErrorTotalAsWritten(runs)
    ensures summary.totalSuccess + summary.totalErrors >= summary.totalCommands
    ensures summary.totalCommands <= |runs| * |commands|
    ensures AllLogged(runs) ==>
      && summary.totalSuccess == SuccessTotal(runs) && summary.totalErrors == ErrorTotal(runs)
      && summary.totalSuccess + summary.totalErrors == summary.totalCommands
  {
    summary := Summary(|runs|, 0, 0, 0, 0, 0);
    var i := 0;
    while i < |runs|
      invariant 0 <= i <= |runs|
      invariant summary.totalSwitches == |runs| && summary.processed == i
      invariant summary.connectionFailures == FailureCount(runs[..i])
      invariant summary.totalCommands == CommandTotal(runs[..i])
      invariant summary.totalSuccess == SuccessTotalAsWritten(runs[..i])
      invariant summary.totalErrors == ErrorTotalAsWritten(runs[..i])
      invariant AllLogged(runs) ==>
        summary.totalSuccess == SuccessTotal(runs[..i]) && summary.totalErrors == ErrorTotal(runs[..i])
    {
      var stats := ProcessSwitchAsWritten(runs[i]);
      TallyStepAsWritten(runs, i);
      summary := summary.(
        processed := summary.processed + 1,
        totalCommands := summary.totalCommands + stats.total,
        totalSuccess := summary.totalSuccess + stats.success,
        totalErrors := summary.totalErrors + stats.errors,
        connectionFailures := summary.connectionFailures + (if stats.connectionFailed then 1 else 0));
      i := i + 1;
    }
    assert runs[..i] == runs;
    TotalsOvercount(runs);
    if AllLogged(runs) {
      TotalsBalance(runs);
    }
    CommandTotalBounds(runs, |commands|);
  }

  /** On a fully logged run, switch `i` is tallied as the corrected loop tallies it. */
  lemma LoggedSwitchAgrees(runs: seq<HostRun>, i: nat)
    requires i < |runs| && AllLogged(runs)
    ensures ProcessSwitchAsWritten(runs[i]) == ProcessSwitch(runs[i])
  {
    assert forall k :: 0 <= k < |runs[i].commands| ==> runs[i].commands[k].logOk;
    ProcessSwitchAgreesWhenLogged(runs[i]);
  }

  lemma TallyStep(runs: seq<HostRun>, i: nat)
    requires i < |runs|
    ensures FailureCount(runs[..i + 1]) == FailureCount(runs[..i]) + (if Uninterrupted(runs[i]) then 0 else 1)
    ensures CommandTotal(runs[..i + 1]) == CommandTotal(runs[..i]) + ProcessSwitch(runs[i]).total
    ensures SuccessTotal(runs[..i + 1]) == SuccessTotal(runs[..i]) + ProcessSwitch(runs[i]).success
    ensures ErrorTotal(runs[..i + 1]) == ErrorTotal(runs[..i]) + ProcessSwitch(runs[i]).errors
    ensures SuccessTotalAsWritten(runs[..i + 1]) == SuccessTotalAsWritten(runs[..i]) + ProcessSwitchAsWritten(runs[i]).success
    ensures ErrorTotalAsWritten(runs[..i + 1]) == ErrorTotalAsWritten(runs[..i]) + ProcessSwitchAsWritten(runs[i]).errors
  {
    assert runs[..i + 1][..i] == runs[..i] && runs[..i + 1][i] == runs[i];
  }

  /** One more switch of the loop as written moves every reference sum by
      that switch's as-written counters. */
  lemma TallyStepAsWritten(runs: seq<HostRun>, i: nat)
    requires i < |runs|
    ensures var stats := ProcessSwitchAsWritten(runs[i]);
      && FailureCount(runs[..i + 1]) == FailureCount(runs[..i]) + (if stats.connectionFailed then 1 else 0)
      && CommandTotal(runs[..i + 1]) == CommandTotal(runs[..i]) + stats.total
      && SuccessTotalAsWritten(runs[..i + 1]) == SuccessTotalAsWritten(runs[..i]) + stats.success
      && ErrorTotalAsWritten(runs[..i + 1]) == ErrorTotalAsWritten(runs[..i]) + stats.errors
      && (AllLogged(runs) ==>
        && SuccessTotal(runs[..i + 1]) == SuccessTotal(runs[..i]) + stats.success
        && ErrorTotal(runs[..i + 1]) == ErrorTotal(runs[..i]) + stats.errors)
  {
    TallyStep(runs, i);
    ProcessSwitchSameTotal(runs[i]);
    if AllLogged(runs) {
      LoggedSwitchAgrees(runs, i);
    }
  }

  /** One more switch keeps the command total between the uninterrupted
      switches' share and the full share. */
  lemma TotalBoundsStep(i: int, failures: int, total: int, n: nat, t: nat, failed: bool)
    requires (i - failures) * n <= total <= i * n
    requires t <= n && (!failed ==> t == n)
    ensures (i + 1 - (failures + if failed then 1 else 0)) * n <= total + t <= (i + 1) * n
  {
    MulStep(i, n);
    MulStep(i - failures, n);
  }

  lemma MulStep(a: int, n: int)
    ensures (a + 1) * n == a * n + n
  {
  }
}
