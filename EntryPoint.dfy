/**
 * The program's entry point: how the command-line arguments select help,
 * the overview report or the matrix report, and the run that follows. The
 * file named by the last argument is given to `Run` as the lines reading it
 * yields, or None when it cannot be opened or read.
 */
module EntryPoint {

  import opened Tally
  import opened LineSpec
  import opened Summariser

  const HelpFlag: string := "--help"
  const OverviewFlag: string := "--overview"

  datatype Command =
    | ShowHelp
    | OverviewOf(path: string)
    | MatrixOf(path: string)

  datatype Option<T> = None | Some(value: T)

  /** What a run produces. */
  datatype Outcome =
    | HelpShown
    | OverviewShown(overview: Overview)
    | MatrixShown(table: Table, check: Check)  // the check comes after the table is written
    | Aborted(error: RunError)

  datatype RunError =
    | Unreadable(path: string)  // the file could not be opened or read
    | Rejected(error: Error)    // the pass over the lines failed its sense check

  /** Help without arguments or with --help first; otherwise the last
      argument names the file, and --overview first selects the overview. */
  function Dispatch(args: seq<string>): (c: Command)
    ensures c.ShowHelp? <==> |args| == 0 || args[0] == HelpFlag
    ensures !c.ShowHelp? ==> c.path == args[|args| - 1]
    ensures c.OverviewOf? <==> |args| > 0 && args[0] == OverviewFlag
  {
    if |args| > 0 then
      if args[0] == HelpFlag then ShowHelp
      else if args[0] == OverviewFlag then OverviewOf(args[|args| - 1])
      else MatrixOf(args[|args| - 1])
    else ShowHelp
  }

  /** Arguments between the first and the last are ignored. */
  lemma MiddleArgumentsIgnored(first: string, middle: seq<string>, last: string)
    ensures Dispatch([first] + middle + [last]) == Dispatch([first, last])
  {
  }

  /** A lone argument other than --help is taken as the file name, even when
      it is --overview, which then also selects the overview. */
  lemma LoneArgumentIsPath(arg: string)
    requires arg != HelpFlag
    ensures Dispatch([arg]) == if arg == OverviewFlag then OverviewOf(arg) else MatrixOf(arg)
  {
  }

  /** Every non-empty line of the input is processed. By
      `MismatchIffMalformedLine`, this holds exactly when no line of the
      input is `Malformed`. */
  predicate WellFormed(input: seq<string>)
  {
    NonEmptyLines(input) == ProcessedLines(input)
  }

  /** Runs the program on `args`; `file` is what reading the named file yields. */
  method Run(args: seq<string>, file: Option<seq<string>>) returns (out: Outcome)
    ensures Dispatch(args).ShowHelp? <==> out.HelpShown?
    ensures !Dispatch(args).ShowHelp? && file.None? ==> out == Aborted(Unreadable(Dispatch(args).path))
    ensures !Dispatch(args).ShowHelp? && file.Some? && !WellFormed(file.value) ==>
              out == Aborted(Rejected(LineCountMismatch(NonEmptyLines(file.value), ProcessedLines(file.value))))
    ensures Dispatch(args).OverviewOf? && file.Some? && WellFormed(file.value) ==>
              var counted := Recorded(file.value);
              out == OverviewShown(Overview(|Firsts(counted)|, Col1Index + 1, |Seconds(counted)|, Col2Index + 1,
                                            ProcessedLines(file.value)))
    ensures Dispatch(args).MatrixOf? && file.Some? && WellFormed(file.value) ==>
              && out.MatrixShown? && IsReportOf(out.table, Recorded(file.value))
              && TableTotal(out.table.rows) == NonEmptyLines(file.value) && out.check == Pass
  {
    var command := Dispatch(args);
    if command.ShowHelp? {
      out := HelpShown;
    } else if file.None? {
      out := Aborted(Unreadable(command.path));
    } else {
      out := SummariseFile(command.OverviewOf?, file.value);
    }
  }

  /** One pass over the lines of a readable file, then the report asked for. */
  method SummariseFile(overview: bool, input: seq<string>) returns (out: Outcome)
    ensures !WellFormed(input) ==>
              out == Aborted(Rejected(LineCountMismatch(NonEmptyLines(input), ProcessedLines(input))))
    ensures overview && WellFormed(input) ==>
              var counted := Recorded(input);
              out == OverviewShown(Overview(|Firsts(counted)|, Col1Index + 1, |Seconds(counted)|, Col2Index + 1,
                                            ProcessedLines(input)))
    ensures !overview && WellFormed(input) ==>
              && out.MatrixShown? && IsReportOf(out.table, Recorded(input))
              && TableTotal(out.table.rows) == NonEmptyLines(input) && out.check == Pass
  {
    var summariser := new LastzSummariser();
    var check := summariser.Summarise(input);
    assert summariser.matrix.recorded == Recorded(input);
    if check.Fail? {
      return Aborted(Rejected(check.error));
    }
    if overview {
      out := OverviewShown(summariser.PrintOverview());
    } else {
      var table, total := summariser.PrintMatrix();
      out := MatrixShown(table, total);
    }
  }
}
