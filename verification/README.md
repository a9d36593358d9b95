# Random name selector — Dafny model

The repository is a small Python program, `rns.py`, that picks one name
at random from a newline-separated list. It gets its random number from an
online "true random" service. A companion script, `test_suite.py`,
launches that program many times and reports how often each name was
picked.

This project models the logic of both scripts:

- **Selector** (`selector.dfy`, module `Selector`). The file contents
  are split on `'\n'`. The draw `r` comes in as a parameter. The program
  asks the service for an integer in 1..100, but the model accepts any
  integer. The selected name is the piece at index `r % (pieces - 1)`.
  The divisor is one less than the number of pieces, exactly as the
  program computes it. So the last piece is never selected. A text with
  no newline gives a zero divisor, and selection then fails with
  `ZeroDivision`. Both are reproduced as written.
- **String operations** (`strings.dfy`, module `Strings`). These are
  `str.split` with a one-character separator, its inverse `str.join`, and
  `str.strip()` with Python's whitespace set.
- **Run loop** (`tally.dfy`, module `Tally`). Each launch of the
  selector ends in one `RunOutcome`: it exited with a return code and some
  standard output, it timed out, or launching it raised an exception. The
  stripped outputs of the runs that exited with status zero are counted
  into a `Counter`. The `Counter` is a list of (name, count) entries in
  first-seen order, like a Python dictionary.
- **Report ordering** (`ordering.dfy`, module `Ordering`). The report
  lists the counter's entries by count descending, then by name ascending
  in Python's code-point order.
- **Report** (`statistics.dfy`, module `Statistics`). The report states
  the total runs, the successful runs, the ordered table, and whether the
  expected-share section is printed.
- **Tester entry point** (`tester.dfy`, module `Tester`). It checks the
  run count, then launches the selector that many times.
- **The two together** (`pipeline.dfy`, module `Pipeline`). The tester
  drives the selector on fixed file contents with a sequence of draws.

Every operation is a pure function. Selection is therefore a function of
the contents and the draw alone.

## Model

| member | source | states |
|---|---|---|
| `Strings.Split` | rns.py:34 | `split('\n')` always returns at least one piece, even for empty contents |
| `Strings.SplitCount` | rns.py:34 | splitting on `'\n'` gives one piece more than there are newlines, so the list of names is never empty |
| `Strings.SplitOmitsSeparator` | rns.py:34 | no piece contains the separator |
| `Strings.JoinSplit` | rns.py:34 | joining the pieces with the separator gives back the original contents |
| `Strings.SplitJoin` | rns.py:34 | splitting the join of separator-free pieces gives back those pieces (the other direction of the round trip) |
| `Strings.PieceAt` | rns.py:34 | piece `i` sits in the contents at its offset, with a newline before it (unless first) and after it (unless last), so the pieces keep file order |
| `Strings.SplitTrailing` | rns.py:34 | contents ending in a newline have an empty last piece, one more than without that newline |
| `Strings.TrimStart` | test_suite.py:36 | the result is a suffix of the input, everything removed is whitespace, and the result does not start with whitespace |
| `Strings.TrimEnd` | test_suite.py:36 | the result is a prefix of the input, everything removed is whitespace, and the result does not end with whitespace |
| `Strings.Strip` | test_suite.py:36 | the stripped output neither starts nor ends with whitespace |
| `Strings.StripIsTrims` | test_suite.py:36 | stripping is exactly removing the leading whitespace and then the trailing whitespace, so by the `TrimStart` and `TrimEnd` contracts the result is the slice of the input between its whitespace ends |
| `Strings.StripIdempotent` | test_suite.py:36 | stripping twice equals stripping once |
| `Strings.StripTrailingSpace` | test_suite.py:36 | the newline that `print` appends to the selected name does not change the stripped output |
| `Selector.SelectIndex` | rns.py:38 | the index fails with a zero divisor exactly when the contents hold no newline; otherwise it is the draw modulo the number of newlines, and at most `pieces - 2` |
| `Selector.Select` | rns.py:33-39 | selection fails exactly when there is no newline; otherwise it returns, unmodified, the piece at the selected index, which is one of the pieces other than the last and holds no newline |
| `Selector.ReachableIndices` | rns.py:35-38 | for draws in 1..100: when the divisor `m` is at most 100, every index below `m` is reached; otherwise exactly the indices 1..100 are reached, so the first name can never be selected |
| `Selector.CandidatesAreTerminatedLines` | rns.py:34-39 | the selectable names (all pieces but the last) are exactly the complete lines of the file that are followed by a newline |
| `Selector.SelectedIsTerminatedLine` | rns.py:38-39 | every selected name is a complete line of the file followed by a newline |
| `Selector.TrailingEmptyPieceExcluded` | rns.py:34-38 | when the contents end in a newline, the last piece is the empty text after it and the selected index always lies before it |
| `Selector.ThreeNames` | rns.py:33-39 | for "A\nB\nC" every draw selects "A" or "B" and never "C"; draw 1 selects "B" and draw 2 selects "A" |
| `Tally.Observations` | test_suite.py:25-38 | the `results` list gets at most one entry per run |
| `Tally.ObservationsCount` | test_suite.py:25-37 | there is one observation per run that exited with status zero, so at most one per run |
| `Tally.ObservationSource` | test_suite.py:35-37 | every observation is the stripped output of a run that exited with status zero |
| `Tally.ObservationsAppend` | test_suite.py:25-45 | runs are observed in order: the observations of consecutive runs are concatenated |
| `Tally.Add` | test_suite.py:47 | counting one more occurrence of a name raises its count by one and changes no other count; a new name goes at the end; names stay distinct and counts positive |
| `Tally.CounterOf` | test_suite.py:47 | `Counter(results)` gives each name the number of times it occurs in `results`; its names are exactly the elements of `results`, and its counts sum to their number |
| `Tally.RunSelection` | test_suite.py:25-47 | the counter is valid; the sum of its counts equals the number of successful runs and is at most the number of runs; it has no more names than successful runs |
| `Tally.RunSelectionStep` | test_suite.py:35-45 | a successful run adds exactly one observation, its stripped output; a non-zero exit, a timeout or an exception leaves the counter unchanged |
| `Tally.RunSelectionKeys` | test_suite.py:35-47 | every counted name is the stripped output of some successful run |
| `Ordering.LexLe` | test_suite.py:66 | in Python's string order a prefix never comes after the longer string |
| `Ordering.LexLeFirstDifference` | test_suite.py:66 | the string comparison holds exactly when the first string is a prefix of the second or, at the first position where they differ, holds the smaller code point |
| `Ordering.Before` | test_suite.py:66 | under the key `(-count, name)` an entry with a higher count always comes first, and never after one with a lower count, whatever the names |
| `Ordering.BeforeTotal` | test_suite.py:66 | any two entries are comparable under the sort key |
| `Ordering.BeforeTransitive` | test_suite.py:66 | the sort key's order is transitive |
| `Ordering.BeforeAntisymmetric` | test_suite.py:66 | two entries that are each at most the other under the sort key are the same entry |
| `Ordering.Insert` | test_suite.py:66 | inserting into an ordered list keeps it ordered and adds exactly the one entry |
| `Ordering.Sort` | test_suite.py:66 | the sorted list is ordered by count descending, then name ascending, and is a permutation of the counter's entries with the same names, counts and total |
| `Ordering.OrderedUnique` | test_suite.py:66 | two ordered permutations of the same entries are equal, so the order is fully determined by the sort key |
| `Statistics.Display` | test_suite.py:50-79 | the report gives the requested run count, a successful-run figure equal to the sum of the counts, and the ordered table of the counter's entries; the expected-share divisor is present exactly when there is a name and is then positive |
| `Statistics.DisplayDivisor` | test_suite.py:78-79 | the expected-share divisor is the number of distinct names |
| `Statistics.DisplayTableUnique` | test_suite.py:66 | any ordering of the counter's entries by the sort key is the table the report prints |
| `Tester.Main` | test_suite.py:99-114 | a run count that is not an integer, or is zero or less, exits with status 1 after zero selector launches; otherwise exactly that many launches are made in order, and the successful-run figure is the number of zero-status launches, at most the run count |
| `Pipeline.SelectorRun` | rns.py:41-53 | a selector process exits with status 0 exactly when the contents hold a newline, and its stripped output is then the stripped selected name |
| `Pipeline.SessionSuccesses` | rns.py:33-39 | with a newline in the file every launch that obtains a draw succeeds; without one, no launch succeeds |
| `Pipeline.CountedNamesAreLines` | test_suite.py:35-47 | every name the tester counts is a stripped, complete, newline-terminated line of the file |
| `Pipeline.ThreeNamesCounted` | rns.py:38-39 | driving the selector on "A\nB\nC", the tester only ever counts "A" or "B" |

## Left out

- The HTTP request to the random-number service and the parsing of its
  reply (rns.py:35-37). They are network I/O and a foreign library. The
  draw is a parameter instead. A failed request or a non-numeric reply
  ends the selector with an uncaught exception, which is not modelled.
- Reading the file and its error messages (rns.py:9-31). This is process
  I/O. Python's universal-newline translation on read is also left out.
  The model starts from the contents as read.
- The argument-count checks and usage messages (rns.py:44-46,
  test_suite.py:92-95), and all printing. These are process I/O.
- Parsing the run count with `int()` (test_suite.py:100). `Tester.Main`
  receives its outcome: the integer, or `None` for `ValueError`.
- Launching subprocesses, the 10-second timeout and capturing output and
  errors (test_suite.py:28-45). The tester sees each launch only as an
  abstract `RunOutcome`.
- The percentage, expected-percentage and deviation figures
  (test_suite.py:71-87). They are floating-point values that are only
  printed. The report records only whether the expected-share section is
  reached, and its divisor.
- `Statistics.Display`: states the report's content, not its
  fixed-width text layout.
