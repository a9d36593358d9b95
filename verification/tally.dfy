/**
 The run loop of the distribution tester (`run_selection` in
 test_suite.py): each run of the selector ends in one outcome; the outputs
 of the successful runs, stripped, are collected in run order and counted
 into a `Counter`.

 A `Counter` is a Python dictionary: one entry per distinct name, in the
 order the names were first seen, each with a positive count.
 */
module Tally {
  import opened Strings

  /** How one launch of the selector ended: it exited with a return code
      and printed `stdout`, it ran past the timeout, or launching it raised
      some other exception. */
  datatype RunOutcome = Exited(returnCode: int, stdout: string) | TimedOut | Raised

  /** A run is successful when the selector exited with status zero. */
  predicate Succeeded(o: RunOutcome) {
    o.Exited? && o.returnCode == 0
  }

  /** The number of successful runs. */
  function Successes(outcomes: seq<RunOutcome>): nat
  {
    if |outcomes| == 0 then 0
    else (if Succeeded(outcomes[0]) then 1 else 0) + Successes(outcomes[1..])
  }

  /** The list `results`: the stripped output of every successful run, in
      run order. Non-zero exits, timeouts and exceptions contribute nothing. */
  function Observations(outcomes: seq<RunOutcome>): (results: seq<string>)
    ensures |results| <= |outcomes|
  {
    if |outcomes| == 0 then []
    else
      var o := outcomes[0];
      (if Succeeded(o) then [Strip(o.stdout)] else []) + Observations(outcomes[1..])
  }

  /** There is one observation per successful run, so at most one per run. */
  lemma {:induction false} ObservationsCount(outcomes: seq<RunOutcome>)
    ensures |Observations(outcomes)| == Successes(outcomes) <= |outcomes|
    decreases |outcomes|
  {
    if |outcomes| > 0 {
      ObservationsCount(outcomes[1..]);
    }
  }

  /** Run `i` succeeded and printed `x` once stripped. */
  ghost predicate Produced(outcomes: seq<RunOutcome>, i: int, x: string) {
    0 <= i < |outcomes| && Succeeded(outcomes[i]) && x == Strip(outcomes[i].stdout)
  }

  /** Every observation is the stripped output of a successful run. */
  lemma {:induction false} ObservationSource(outcomes: seq<RunOutcome>, x: string)
    requires x in Observations(outcomes)
    ensures exists i :: Produced(outcomes, i, x)
    decreases |outcomes|
  {
    if !Produced(outcomes, 0, x) {
      ObservedLater(outcomes, x);
      ObservationSource(outcomes[1..], x);
      var i :| Produced(outcomes[1..], i, x);
      ProducedShift(outcomes, i, x);
    }
  }

  lemma ObservedLater(outcomes: seq<RunOutcome>, x: string)
    requires x in Observations(outcomes)
    requires !Produced(outcomes, 0, x)
    ensures x in Observations(outcomes[1..])
  {
  }

  lemma ProducedShift(outcomes: seq<RunOutcome>, i: int, x: string)
    requires |outcomes| > 0 && Produced(outcomes[1..], i, x)
    ensures Produced(outcomes, i + 1, x)
  {
  }

  /** The runs are observed one after the other: the observations of two
      consecutive stretches of runs are those of the first, then those of
      the second. */
  lemma {:induction false} ObservationsAppend(a: seq<RunOutcome>, b: seq<RunOutcome>)
    ensures Observations(a + b) == Observations(a) + Observations(b)
    decreases |a|
  {
    if |a| == 0 {
      assert a + b == b;
    } else {
      assert (a + b)[0] == a[0];
      assert (a + b)[1..] == a[1..] + b;
      ObservationsAppend(a[1..], b);
    }
  }

  /* ---------------------------------------------------------------------
     The counter
     --------------------------------------------------------------------- */

  /** One name of the counter and how often it was seen. */
  datatype Entry = Entry(name: string, count: nat)

  /** The counter's entries in insertion order. */
  type Counter = seq<Entry>

  /** The names of a counter. */
  function Keys(c: Counter): set<string> {
    if |c| == 0 then {} else {c[0].name} + Keys(c[1..])
  }

  /** What a Python `Counter` guarantees: distinct names, positive counts. */
  ghost predicate Valid(c: Counter) {
    |c| == 0 || (c[0].count >= 1 && c[0].name !in Keys(c[1..]) && Valid(c[1..]))
  }

  /** `counter[k]`: the count of `k`, zero when absent. */
  function Lookup(c: Counter, k: string): nat {
    if |c| == 0 then 0
    else if c[0].name == k then c[0].count
    else Lookup(c[1..], k)
  }

  /** `sum(counter.values())`. */
  function Total(c: Counter): nat {
    if |c| == 0 then 0 else c[0].count + Total(c[1..])
  }

  /** A name is a key exactly when its count is positive. */
  lemma {:induction false} LookupPositive(c: Counter, k: string)
    requires Valid(c)
    ensures Lookup(c, k) > 0 <==> k in Keys(c)
  {
    if |c| > 0 {
      LookupPositive(c[1..], k);
    }
  }

  /** With every count at least one there are at most as many names as
      observations. */
  lemma {:induction false} SizeAtMostTotal(c: Counter)
    requires Valid(c)
    ensures |c| <= Total(c)
  {
    if |c| > 0 {
      SizeAtMostTotal(c[1..]);
    }
  }

  /** Recording one observation of `k`: its count goes up by one and no
      other count changes; a new name goes at the end. */
  function Add(c: Counter, k: string): (r: Counter)
    requires Valid(c)
    ensures Valid(r)
    ensures Lookup(r, k) == Lookup(c, k) + 1
    ensures forall k' :: k' != k ==> Lookup(r, k') == Lookup(c, k')
    ensures Keys(r) == Keys(c) + {k}
    ensures Total(r) == Total(c) + 1
    ensures k in Keys(c) ==> |r| == |c|
    ensures k !in Keys(c) ==> r == c + [Entry(k, 1)]
  {
    if |c| == 0 then [Entry(k, 1)]
    else if c[0].name == k then [Entry(k, c[0].count + 1)] + c[1..]
    else
      var r := [c[0]] + Add(c[1..], k);
      assert r[1..] == Add(c[1..], k);
      r
  }

  /** `Counter(results)`: the count of every name is the number of times it
      occurs in `results`; the names are exactly the elements of `results`;
      there is one observation per element. */
  function CounterOf(results: seq<string>): (c: Counter)
    ensures Valid(c)
    ensures forall k :: Lookup(c, k) == multiset(results)[k]
    ensures forall k :: k in Keys(c) <==> k in results
    ensures Total(c) == |results|
  {
    if |results| == 0 then []
    else
      var init := results[..|results| - 1];
      var last := results[|results| - 1];
      assert results == init + [last];
      var c := Add(CounterOf(init), last);
      assert forall k :: k in Keys(c) <==> k in results by {
        forall k ensures k in Keys(c) <==> k in results {
          LookupPositive(c, k);
        }
      }
      c
  }

  /** `run_selection`: the counter of the stripped outputs of the
      successful runs. Its total is the number of successful runs, at most
      the number of runs; every name in it was seen at least once, so there
      are no more names than successful runs. */
  function RunSelection(outcomes: seq<RunOutcome>): (c: Counter)
    ensures Valid(c)
    ensures Total(c) == Successes(outcomes) <= |outcomes|
    ensures |c| <= Successes(outcomes)
    ensures forall k :: Lookup(c, k) == multiset(Observations(outcomes))[k]
  {
    var c := CounterOf(Observations(outcomes));
    ObservationsCount(outcomes);
    SizeAtMostTotal(c);
    c
  }

  /** One more run: a successful run records its stripped output once; any
      other outcome leaves the counter as it was. */
  lemma RunSelectionStep(outcomes: seq<RunOutcome>, o: RunOutcome)
    ensures Succeeded(o) ==> RunSelection(outcomes + [o]) == Add(RunSelection(outcomes), Strip(o.stdout))
    ensures !Succeeded(o) ==> RunSelection(outcomes + [o]) == RunSelection(outcomes)
  {
    ObservationsAppend(outcomes, [o]);
    var before := Observations(outcomes);
    var obs := Observations(outcomes + [o]);
    if Succeeded(o) {
      assert Observations([o]) == [Strip(o.stdout)];
      assert obs == before + [Strip(o.stdout)];
      CounterOfSnoc(before, Strip(o.stdout));
    } else {
      assert Observations([o]) == [];
      assert obs == before;
    }
  }

  lemma CounterOfSnoc(results: seq<string>, x: string)
    ensures CounterOf(results + [x]) == Add(CounterOf(results), x)
  {
  }

  /** Every name in the counter is the stripped output of some successful
      run. */
  lemma RunSelectionKeys(outcomes: seq<RunOutcome>, k: string)
    requires k in Keys(RunSelection(outcomes))
    ensures exists i :: Produced(outcomes, i, k)
  {
    ObservationSource(outcomes, k);
  }
}
