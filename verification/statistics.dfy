/**
 The report of the distribution tester (`display_statistics` in
 test_suite.py): the number of runs, the number of successful runs, the
 table of names with their counts in the order of `Ordering`, and — when at
 least one name was seen — the number of distinct names that the expected
 uniform share `100 / len(counts)` is divided among.

 The percentages, the expected share and the deviations are floating-point
 values the program only prints; they are not part of this model.
 */
module Statistics {
  import opened Wrappers
  import opened Tally
  import opened Ordering

  /** What the report states. `uniformDivisor` is `len(counts)` when the
      expected-share section is printed, and `None` when it is skipped. */
  datatype Report = Report(totalRuns: int, successfulRuns: nat, table: seq<Entry>, uniformDivisor: Option<nat>)

  /** `display_statistics`. The successful-run figure is the sum of the
      counts; the table lists every name once, ordered by count descending
      then name ascending; the expected-share section is reached only when
      there is at least one name, so its divisor is never zero. */
  function Display(counts: Counter, numRuns: int): (report: Report)
    ensures report.totalRuns == numRuns
    ensures report.successfulRuns == Total(counts) == Total(report.table)
    ensures Ordered(report.table)
    ensures multiset(report.table) == multiset(counts)
    ensures Keys(report.table) == Keys(counts)
    ensures Valid(counts) ==> Valid(report.table)
    ensures report.uniformDivisor.Some? <==> |counts| > 0
    ensures report.uniformDivisor.Some? ==> report.uniformDivisor.value > 0
  {
    var table := Sort(counts);
    if |counts| > 0 then
      Report(numRuns, Total(counts), table, Some(|counts|))
    else
      Report(numRuns, Total(counts), table, None)
  }

  /** The expected share is divided among the distinct names seen. */
  lemma DisplayDivisor(counts: Counter, numRuns: int)
    requires Valid(counts) && |counts| > 0
    ensures Display(counts, numRuns).uniformDivisor == Some(|Keys(counts)|)
  {
    KeysCount(counts);
  }

  /** A valid counter has one entry per name. */
  lemma {:induction false} KeysCount(c: Counter)
    requires Valid(c)
    ensures |Keys(c)| == |c|
  {
    if |c| > 0 {
      KeysCount(c[1..]);
    }
  }

  /** The table is exactly the list Python's `sorted` produces: any
      ordering of the counter's entries by the sort key is this one. */
  lemma DisplayTableUnique(counts: Counter, numRuns: int, other: seq<Entry>)
    requires Ordered(other) && multiset(other) == multiset(counts)
    ensures Display(counts, numRuns).table == other
  {
    OrderedUnique(Display(counts, numRuns).table, other);
  }
}
