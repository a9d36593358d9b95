/**
 The distribution tester's entry point (`main` in test_suite.py): check the
 run count, launch the selector that many times, count the outputs and
 report.

 Reading the command line is left to the caller: `numRunsArg` is the run
 count as Python's `int()` parsed it, or `None` when it raised
 `ValueError`. Launching the selector is the parameter `launch`, which
 gives the outcome of the launch with index `i`.
 */
module Tester {
  import opened Wrappers
  import opened Tally
  import opened Statistics

  datatype UsageError = NotAnInteger | NotPositive

  /** What one invocation of the tester did: its exit status, the usage
      error it reported if any, the selector launches it made in order, and
      the report it printed if it got that far. */
  datatype Session = Session(exitCode: int, error: Option<UsageError>, runs: seq<RunOutcome>, report: Option<Report>)

  /** The first `n` launches, in order. */
  function Launches(n: nat, launch: nat -> RunOutcome): (runs: seq<RunOutcome>)
    ensures |runs| == n
    ensures forall i :: 0 <= i < n ==> runs[i] == launch(i)
  {
    seq(n, i requires 0 <= i < n => launch(i))
  }

  /** `main`. A run count that is not an integer, or is zero or negative,
      ends the program with status 1 before the selector is launched even
      once; otherwise it is launched exactly that many times, in order, and
      the report's successful-run figure is the number of launches that
      exited with status zero. */
  function Main(numRunsArg: Option<int>, launch: nat -> RunOutcome): (s: Session)
    ensures s.exitCode == 1 <==> numRunsArg.None? || numRunsArg.value <= 0
    ensures s.exitCode == 0 || s.exitCode == 1
    ensures s.exitCode == 1 ==> |s.runs| == 0 && s.report.None?
    ensures numRunsArg.None? ==> s.error == Some(NotAnInteger)
    ensures numRunsArg.Some? && numRunsArg.value <= 0 ==> s.error == Some(NotPositive)
    ensures s.exitCode == 0 ==>
              && s.error.None?
              && |s.runs| == numRunsArg.value
              && (forall i :: 0 <= i < |s.runs| ==> s.runs[i] == launch(i))
              && s.report.Some?
              && s.report.value.totalRuns == numRunsArg.value
              && s.report.value.successfulRuns == Successes(s.runs) <= numRunsArg.value
  {
    match numRunsArg
    case None => Session(1, Some(NotAnInteger), [], None)
    case Some(n) =>
      if n <= 0 then Session(1, Some(NotPositive), [], None)
      else
        var runs := Launches(n, launch);
        Session(0, None, runs, Some(Display(RunSelection(runs), n)))
  }
}
