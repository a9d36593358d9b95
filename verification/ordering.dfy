/**
 The order in which the statistics table lists the counter's entries:
 `sorted(counts.items(), key=lambda x: (-x[1], x[0]))` — by count, highest
 first, and among equal counts by name in Python's string order
 (lexicographic by code point).
 */
module Ordering {
  import opened Tally

  /** Python's `a <= b` on strings: a prefix never comes after the longer
      string. */
  predicate LexLe(a: string, b: string)
    ensures a <= b ==> LexLe(a, b)
  {
    if |a| == 0 then true
    else if |b| == 0 then false
    else if a[0] != b[0] then a[0] < b[0]
    else LexLe(a[1..], b[1..])
  }

  /** `a` and `b` agree before position `k` and differ there, with the
      smaller character in `a`. */
  predicate SmallerAt(a: string, b: string, k: nat) {
    k < |a| && k < |b| && a[..k] == b[..k] && a[k] < b[k]
  }

  /** `LexLe` is Python's string order as the language defines it: `a` is a
      prefix of `b`, or at the first position where they differ `a` holds
      the smaller code point. */
  lemma {:induction false} LexLeFirstDifference(a: string, b: string)
    ensures LexLe(a, b) <==> (a <= b || exists k: nat :: SmallerAt(a, b, k))
    decreases |a|
  {
    if |a| == 0 {
    } else if |b| == 0 {
      assert forall k: nat :: !SmallerAt(a, b, k);
    } else if a[0] < b[0] {
      assert a[..0] == b[..0];
      assert SmallerAt(a, b, 0);
    } else if a[0] > b[0] {
      assert forall k: nat :: !SmallerAt(a, b, k);
    } else {
      LexLeFirstDifference(a[1..], b[1..]);
      assert a <= b <==> a[1..] <= b[1..] by {
        assert a == [a[0]] + a[1..] && b == [b[0]] + b[1..];
      }
      forall k: nat | SmallerAt(a[1..], b[1..], k)
        ensures SmallerAt(a, b, k + 1)
      {
        assert a[..k + 1] == [a[0]] + a[1..][..k];
        assert b[..k + 1] == [b[0]] + b[1..][..k];
      }
      forall k: nat | SmallerAt(a, b, k)
        ensures k > 0 && SmallerAt(a[1..], b[1..], k - 1)
      {
        assert a[1..][..k - 1] == a[..k][1..];
        assert b[1..][..k - 1] == b[..k][1..];
      }
    }
  }

  lemma {:induction false} LexReflexive(a: string)
    ensures LexLe(a, a)
  {
    if |a| > 0 {
      LexReflexive(a[1..]);
    }
  }

  lemma {:induction false} LexTotal(a: string, b: string)
    ensures LexLe(a, b) || LexLe(b, a)
  {
    if |a| > 0 && |b| > 0 && a[0] == b[0] {
      LexTotal(a[1..], b[1..]);
    }
  }

  lemma {:induction false} LexAntisymmetric(a: string, b: string)
    requires LexLe(a, b) && LexLe(b, a)
    ensures a == b
  {
    if |a| > 0 && |b| > 0 {
      LexAntisymmetric(a[1..], b[1..]);
      assert a == [a[0]] + a[1..] && b == [b[0]] + b[1..];
    }
  }

  lemma {:induction false} LexTransitive(a: string, b: string, c: string)
    requires LexLe(a, b) && LexLe(b, c)
    ensures LexLe(a, c)
  {
    if |a| > 0 && |b| > 0 && |c| > 0 && a[0] == b[0] && b[0] == c[0] {
      LexTransitive(a[1..], b[1..], c[1..]);
    }
  }

  /** `x` may be listed before `y`: the sort key `(-count, name)` of `x`
      is at most that of `y`. A higher count always comes first, whatever
      the names. */
  predicate Before(x: Entry, y: Entry)
    ensures Before(x, y) ==> x.count >= y.count
    ensures x.count > y.count ==> Before(x, y)
  {
    x.count > y.count || (x.count == y.count && LexLe(x.name, y.name))
  }

  lemma BeforeReflexive(x: Entry)
    ensures Before(x, x)
  {
    LexReflexive(x.name);
  }

  lemma BeforeTotal(x: Entry, y: Entry)
    ensures Before(x, y) || Before(y, x)
  {
    LexTotal(x.name, y.name);
  }

  lemma BeforeTransitive(x: Entry, y: Entry, z: Entry)
    requires Before(x, y) && Before(y, z)
    ensures Before(x, z)
  {
    if x.count == y.count == z.count {
      LexTransitive(x.name, y.name, z.name);
    }
  }

  /** Entries related both ways have the same key, and so are equal. */
  lemma BeforeAntisymmetric(x: Entry, y: Entry)
    requires Before(x, y) && Before(y, x)
    ensures x == y
  {
    LexAntisymmetric(x.name, y.name);
  }

  /** Every entry is listed before every later one. */
  ghost predicate Ordered(s: seq<Entry>) {
    forall i, j :: 0 <= i < j < |s| ==> Before(s[i], s[j])
  }

  /** An entry listed before every entry of an ordered list can go in
      front of it. */
  lemma OrderedCons(h: Entry, t: seq<Entry>)
    requires Ordered(t)
    requires forall y :: y in t ==> Before(h, y)
    ensures Ordered([h] + t)
  {
  }

  /** Places `x` into an ordered list at its place. */
  function Insert(x: Entry, s: seq<Entry>): (r: seq<Entry>)
    requires Ordered(s)
    ensures Ordered(r)
    ensures multiset(r) == multiset(s) + multiset{x}
    ensures |r| == |s| + 1
  {
    if |s| == 0 then [x]
    else if Before(x, s[0]) then
      forall y | y in s ensures Before(x, y) {
        var j :| 0 <= j < |s| && s[j] == y;
        if j > 0 {
          BeforeTransitive(x, s[0], s[j]);
        }
      }
      OrderedCons(x, s);
      [x] + s
    else
      BeforeTotal(x, s[0]);
      var t := Insert(x, s[1..]);
      forall y | y in t ensures Before(s[0], y) {
        assert y in multiset(t);
        if y != x {
          assert y in s[1..];
        }
      }
      OrderedCons(s[0], t);
      assert s == [s[0]] + s[1..];
      [s[0]] + t
  }

  /** Inserting adds the entry's name and count and, for a name not yet
      present, keeps the names distinct and the counts positive. */
  lemma {:induction false} InsertKeeps(x: Entry, s: seq<Entry>)
    requires Ordered(s)
    ensures Keys(Insert(x, s)) == Keys(s) + {x.name}
    ensures Total(Insert(x, s)) == Total(s) + x.count
    ensures Valid(s) && x.count >= 1 && x.name !in Keys(s) ==> Valid(Insert(x, s))
    decreases |s|
  {
    var r := Insert(x, s);
    if |s| == 0 {
    } else if Before(x, s[0]) {
      assert r == [x] + s && r[1..] == s;
    } else {
      InsertKeeps(x, s[1..]);
      assert r[1..] == Insert(x, s[1..]);
    }
  }

  /** `sorted(counts.items(), key=...)`: the same entries, ordered. The
      result of a counter lists each of its names exactly once with a
      positive count. */
  function Sort(c: Counter): (r: seq<Entry>)
    ensures Ordered(r)
    ensures multiset(r) == multiset(c)
    ensures |r| == |c|
    ensures Keys(r) == Keys(c)
    ensures Valid(c) ==> Valid(r)
    ensures Total(r) == Total(c)
  {
    if |c| == 0 then []
    else
      assert c == [c[0]] + c[1..];
      var t := Sort(c[1..]);
      InsertKeeps(c[0], t);
      Insert(c[0], t)
  }

  /** An ordered list is determined by its elements: two ordered
      arrangements of the same entries are the same list. So `Sort` lists
      the entries in exactly the order Python's `sorted` does. */
  lemma {:induction false} OrderedUnique(a: seq<Entry>, b: seq<Entry>)
    requires Ordered(a) && Ordered(b)
    requires multiset(a) == multiset(b)
    ensures a == b
    decreases |a|
  {
    assert |a| == |multiset(a)| == |multiset(b)| == |b|;
    if |a| > 0 {
      OrderedHeads(a, b);
      SameTails(a, b);
      OrderedUnique(a[1..], b[1..]);
      assert a == [a[0]] + a[1..] && b == [b[0]] + b[1..];
    }
  }

  /** Two ordered arrangements of the same entries start alike. */
  lemma OrderedHeads(a: seq<Entry>, b: seq<Entry>)
    requires Ordered(a) && Ordered(b)
    requires multiset(a) == multiset(b) && |a| > 0
    ensures |b| > 0 && a[0] == b[0]
  {
    assert a[0] in multiset(b);
    assert b[0] in multiset(a) by {
      assert b[0] in multiset(b);
    }
    var i :| 0 <= i < |b| && b[i] == a[0];
    var j :| 0 <= j < |a| && a[j] == b[0];
    BeforeReflexive(a[0]);
    BeforeReflexive(b[0]);
    assert Before(a[0], a[j]);
    assert Before(b[0], b[i]);
    BeforeAntisymmetric(a[0], b[0]);
  }

  lemma SameTails(a: seq<Entry>, b: seq<Entry>)
    requires |a| > 0 && |b| > 0 && a[0] == b[0]
    requires multiset(a) == multiset(b)
    ensures multiset(a[1..]) == multiset(b[1..])
  {
    assert a == [a[0]] + a[1..] && b == [b[0]] + b[1..];
    assert multiset(a) == multiset{a[0]} + multiset(a[1..]);
    assert multiset(b) == multiset{b[0]} + multiset(b[1..]);
    var A, B := multiset(a[1..]), multiset(b[1..]);
    forall e ensures A[e] == B[e] {
      assert multiset(a)[e] == multiset{a[0]}[e] + A[e];
      assert multiset(b)[e] == multiset{a[0]}[e] + B[e];
    }
  }
}
