/**
 The selector (rns.py): split the file contents into lines and pick the
 line at index `draw % (number of lines - 1)`, where the draw is an integer
 the program requests from a remote service in the range 1..100.

 The draw is a parameter here. The divisor is one less than the number of
 pieces, exactly as the program computes it, so the last piece is never
 picked and a text without a newline makes the divisor zero.
 */
module Selector {
  import opened Wrappers
  import opened Strings

  /** The separator the program splits the file contents on. */
  const NewLine: char := '\n'

  /** The range the program asks the random-number service for. */
  const DrawMin: int := 1
  const DrawMax: int := 100

  /** The one way selection fails: the modulus is zero. */
  datatype SelectError = ZeroDivision

  predicate ValidDraw(r: int) {
    DrawMin <= r <= DrawMax
  }

  /** The list of names: the contents split on newlines. */
  function Names(contents: string): (names: seq<string>)
    ensures |names| >= 1
  {
    Split(contents, NewLine)
  }

  /** Index of the selected piece. The divisor `|names| - 1` is the number
      of newlines in the contents; with none, Python raises
      `ZeroDivisionError`. Python's `%` agrees with Dafny's for a positive
      divisor, whatever the sign of the draw. */
  function SelectIndex(contents: string, r: int): (i: Result<nat, SelectError>)
    ensures i.Failure? <==> NewLine !in contents
    ensures i.Success? ==> i.value == r % multiset(contents)[NewLine]
    ensures i.Success? ==> i.value <= |Names(contents)| - 2
  {
    SplitCount(contents, NewLine);
    var m := |Names(contents)| - 1;
    if m == 0 then Failure(ZeroDivision) else Success(r % m)
  }

  /** `select_random` with the draw as a parameter: the piece at the
      selected index, returned unmodified. */
  function Select(contents: string, r: int): (name: Result<string, SelectError>)
    ensures name.Failure? <==> NewLine !in contents
    ensures name.Success? ==> name.value in Names(contents)[..|Names(contents)| - 1]
    ensures name.Success? ==> NewLine !in name.value
    ensures name.Success? ==> name.value == Names(contents)[SelectIndex(contents, r).value]
  {
    match SelectIndex(contents, r)
    case Success(i) =>
      SplitOmitsSeparator(contents, NewLine);
      Success(Names(contents)[i])
    case Failure(e) => Failure(e)
  }

  /* ---------------------------------------------------------------------
     Which indices a draw in 1..100 can reach
     --------------------------------------------------------------------- */

  ghost predicate DrawSelects(contents: string, r: int, i: int) {
    ValidDraw(r) && SelectIndex(contents, r) == Success(i)
  }

  /** With `m` the divisor (number of newlines): when `m <= 100` every index
      below `m` is reached by some draw, so every piece but the last can be
      selected; when `m > 100` exactly the indices 1..100 are reached, so the
      first name and every piece after index 100 can never be selected. */
  lemma ReachableIndices(contents: string, i: int)
    requires NewLine in contents
    ensures var m := |Names(contents)| - 1;
            (exists r :: DrawSelects(contents, r, i)) <==>
            (0 <= i < m && (m <= DrawMax || DrawMin <= i <= DrawMax))
  {
    SplitCount(contents, NewLine);
    var m := |Names(contents)| - 1;
    forall r ensures DrawSelects(contents, r, i) <==> DrawHits(m, r, i) {
    }
    DrawResidues(m, i);
  }

  ghost predicate DrawHits(m: int, r: int, i: int)
    requires m > 0
  {
    ValidDraw(r) && r % m == i
  }

  /** The residues modulo `m` that draws in 1..100 produce. */
  lemma DrawResidues(m: int, i: int)
    requires m > 0
    ensures (exists r :: DrawHits(m, r, i)) <==>
            (0 <= i < m && (m <= DrawMax || DrawMin <= i <= DrawMax))
  {
    if 0 <= i < m && (m <= DrawMax || DrawMin <= i <= DrawMax) {
      if i == 0 {
        ModSelf(m);
        assert DrawHits(m, m, i);
      } else {
        ModSmall(i, m);
        assert DrawHits(m, i, i);
      }
    }
    if exists r :: DrawHits(m, r, i) {
      var r :| DrawHits(m, r, i);
      if m > DrawMax {
        ModSmall(r, m);
      }
    }
  }

  lemma ModSelf(m: int)
    requires m > 0
    ensures m % m == 0
  {
  }

  lemma ModSmall(x: int, m: int)
    requires 0 <= x < m
    ensures x % m == x
  {
  }

  /* ---------------------------------------------------------------------
     Selected names are newline-terminated lines of the file
     --------------------------------------------------------------------- */

  /** `v` is a complete line of `s` that starts at `k` and is followed by
      a newline. */
  ghost predicate TerminatedLineAt(s: string, k: int, v: string) {
    && 0 <= k && k + |v| < |s|
    && (k == 0 || s[k - 1] == NewLine)
    && s[k..k + |v|] == v
    && s[k + |v|] == NewLine
    && NewLine !in v
  }

  /** Index of the first occurrence of `c` in `s`. */
  function FirstIndex(s: string, c: char): (j: nat)
    requires c in s
    ensures j < |s| && s[j] == c && c !in s[..j]
  {
    if s[0] == c then 0
    else
      assert c in s[1..] by { assert s == [s[0]] + s[1..]; }
      var j := FirstIndex(s[1..], c);
      assert s[..j + 1] == [s[0]] + s[1..][..j];
      j + 1
  }

  /** Every piece but the last is a newline-terminated line. */
  lemma CandidateIsTerminatedLine(contents: string, i: nat)
    requires i < |Names(contents)| - 1
    ensures TerminatedLineAt(contents, Offset(Names(contents), i), Names(contents)[i])
  {
    JoinSplit(contents, NewLine);
    SplitOmitsSeparator(contents, NewLine);
    PieceAt(Names(contents), NewLine, i);
  }

  /** Splitting at the first newline. */
  lemma NamesAtFirst(s: string)
    requires NewLine in s
    ensures var j := FirstIndex(s, NewLine);
            Names(s) == [s[..j]] + Names(s[j + 1..])
  {
    var j := FirstIndex(s, NewLine);
    assert s == s[..j] + [NewLine] + s[j + 1..];
    SplitAtFirst(s[..j], s[j + 1..], NewLine);
  }

  /** A line at the very start ends at the first newline. */
  lemma LineAtStart(s: string, v: string)
    requires TerminatedLineAt(s, 0, v)
    ensures FirstIndex(s, NewLine) == |v|
  {
  }

  /** A line further in is a line of the text after the first newline. */
  lemma LineAfterFirst(s: string, k: int, v: string)
    requires TerminatedLineAt(s, k, v) && k > 0
    ensures var j := FirstIndex(s, NewLine);
            j < k && TerminatedLineAt(s[j + 1..], k - (j + 1), v)
  {
  }

  /** Every newline-terminated line is a piece other than the last. */
  lemma {:induction false} TerminatedLineIsCandidate(contents: string, k: int, v: string)
    requires TerminatedLineAt(contents, k, v)
    ensures v in Names(contents)[..|Names(contents)| - 1]
    decreases |contents|
  {
    var j := FirstIndex(contents, NewLine);
    var rest := contents[j + 1..];
    var names := Names(contents);
    NamesAtFirst(contents);
    if k == 0 {
      LineAtStart(contents, v);
      assert names[0] == v;
    } else {
      LineAfterFirst(contents, k, v);
      TerminatedLineIsCandidate(rest, k - (j + 1), v);
      assert names[1..] == Names(rest);
      assert Names(rest)[..|Names(rest)| - 1] == names[1..|names| - 1];
    }
  }

  /** The names that can be selected are exactly the newline-terminated
      lines of the file: the last piece is left out whatever the draw. */
  lemma CandidatesAreTerminatedLines(contents: string, v: string)
    ensures v in Names(contents)[..|Names(contents)| - 1]
            <==> exists k :: TerminatedLineAt(contents, k, v)
  {
    var names := Names(contents);
    if v in names[..|names| - 1] {
      var i :| 0 <= i < |names| - 1 && names[i] == v;
      CandidateIsTerminatedLine(contents, i);
    }
    if exists k :: TerminatedLineAt(contents, k, v) {
      var k :| TerminatedLineAt(contents, k, v);
      TerminatedLineIsCandidate(contents, k, v);
    }
  }

  /** A selected name is always a complete line of the file that is
      followed by a newline. */
  lemma SelectedIsTerminatedLine(contents: string, r: int)
    requires Select(contents, r).Success?
    ensures exists k :: TerminatedLineAt(contents, k, Select(contents, r).value)
  {
    CandidatesAreTerminatedLines(contents, Select(contents, r).value);
  }

  /** When the file ends with a newline its last piece is the empty text
      after it, and that is the piece that is never selected. */
  lemma TrailingEmptyPieceExcluded(contents: string, r: int)
    requires |contents| > 0 && contents[|contents| - 1] == NewLine
    ensures Names(contents)[|Names(contents)| - 1] == ""
    ensures SelectIndex(contents, r).Success?
    ensures SelectIndex(contents, r).value < |Names(contents)| - 1
  {
    var t := contents[..|contents| - 1];
    assert contents == t + [NewLine];
    SplitTrailing(t, NewLine);
  }

  /** The example of three names without a trailing newline: every draw
      selects "A" or "B", never "C", and both are selected by some draw. */
  lemma ThreeNames(r: int)
    ensures Select("A\nB\nC", r) in {Success("A"), Success("B")}
    ensures Select("A\nB\nC", 1) == Success("B")
    ensures Select("A\nB\nC", 2) == Success("A")
  {
    ThreeNamesSplit();
  }

  lemma ThreeNamesSplit()
    ensures Names("A\nB\nC") == ["A", "B", "C"]
  {
    var pieces := ["A", "B", "C"];
    assert Join(pieces, NewLine) == "A\nB\nC" by {
      assert Join(pieces[2..], NewLine) == "C";
      assert Join(pieces[1..], NewLine) == "B\nC";
    }
    SplitJoin(pieces, NewLine);
  }
}
