/**
 The tester driving the real selector: every launch runs `rns.py` on the
 same file contents with its own draw. The selector prints the selected
 name followed by a newline and exits with status 0; when the file has no
 newline the modulus is zero, Python raises `ZeroDivisionError`, and the
 uncaught exception ends the process with status 1.
 */
module Pipeline {
  import opened Wrappers
  import opened Strings
  import opened Selector
  import opened Tally

  /** One launch of the selector on `contents` with draw `r`. */
  function SelectorRun(contents: string, r: int): (o: RunOutcome)
    ensures o.Exited?
    ensures Succeeded(o) <==> NewLine in contents
    ensures Succeeded(o) ==> Strip(o.stdout) == Strip(Select(contents, r).value)
  {
    match Select(contents, r)
    case Success(name) =>
      StripTrailingSpace(name, NewLine);
      Exited(0, name + [NewLine])
    case Failure(_) => Exited(1, "")
  }

  /** The launches of one tester session, one per draw. */
  function SelectorRuns(contents: string, draws: seq<int>): (runs: seq<RunOutcome>)
    ensures |runs| == |draws|
    ensures forall i :: 0 <= i < |draws| ==> runs[i] == SelectorRun(contents, draws[i])
  {
    seq(|draws|, i requires 0 <= i < |draws| => SelectorRun(contents, draws[i]))
  }

  /** With at least one newline in the file every launch that obtains a
      draw succeeds; without one, none does and the counter stays empty. */
  lemma {:induction false} SessionSuccesses(contents: string, draws: seq<int>)
    ensures NewLine in contents ==> Successes(SelectorRuns(contents, draws)) == |draws|
    ensures NewLine !in contents ==> Successes(SelectorRuns(contents, draws)) == 0
    decreases |draws|
  {
    if |draws| > 0 {
      SessionSuccesses(contents, draws[1..]);
      assert SelectorRuns(contents, draws)[1..] == SelectorRuns(contents, draws[1..]);
    }
  }

  /** Every name the tester counts is a newline-terminated line of the
      file, stripped: the file's last line is never counted unless it also
      occurs earlier. */
  lemma CountedNamesAreLines(contents: string, draws: seq<int>, k: string)
    requires k in Keys(RunSelection(SelectorRuns(contents, draws)))
    ensures exists v, p :: TerminatedLineAt(contents, p, v) && k == Strip(v)
  {
    var runs := SelectorRuns(contents, draws);
    RunSelectionKeys(runs, k);
    var i :| Produced(runs, i, k);
    var v := Select(contents, draws[i]).value;
    SelectedIsTerminatedLine(contents, draws[i]);
    var p :| TerminatedLineAt(contents, p, v);
  }

  /** For the file "A\nB\nC" only "A" and "B" are ever counted. */
  lemma ThreeNamesCounted(draws: seq<int>)
    ensures forall k :: k in Keys(RunSelection(SelectorRuns("A\nB\nC", draws))) ==> k == "A" || k == "B"
  {
    var runs := SelectorRuns("A\nB\nC", draws);
    forall k | k in Keys(RunSelection(runs)) ensures k == "A" || k == "B" {
      RunSelectionKeys(runs, k);
      var i :| Produced(runs, i, k);
      var r := draws[i];
      ThreeNames(r);
      var v := Select("A\nB\nC", r).value;
      assert k == Strip(v);
      assert v == "A" || v == "B";
      StripLetters();
    }
  }

  lemma StripLetters()
    ensures Strip("A") == "A" && Strip("B") == "B"
  {
  }
}
