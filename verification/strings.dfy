/**
 The two Python string operations the program relies on, stated over
 `string` (a sequence of code points):
 - `str.split(sep)` with a one-character separator, and its inverse `sep.join`;
 - `str.strip()` with no argument, which removes leading and trailing
   whitespace as `str.isspace` defines it.
 */
module Strings {

  /** The code points for which Python's `str.isspace` holds. */
  predicate IsSpace(c: char) {
    var n := c as int;
    || (0x09 <= n <= 0x0D)
    || (0x1C <= n <= 0x20)
    || n == 0x85 || n == 0xA0 || n == 0x1680
    || (0x2000 <= n <= 0x200A)
    || n == 0x2028 || n == 0x2029 || n == 0x202F || n == 0x205F || n == 0x3000
  }

  /* ---------------------------------------------------------------------
     Splitting and joining on a one-character separator
     --------------------------------------------------------------------- */

  /** `s.split(d)`: the pieces of `s` between occurrences of `d`, in order.
      The result is never empty. */
  function Split(s: string, d: char): (pieces: seq<string>)
    ensures |pieces| >= 1
    decreases |s|
  {
    if |s| == 0 then [""]
    else
      var rest := Split(s[1..], d);
      if s[0] == d then [""] + rest
      else [[s[0]] + rest[0]] + rest[1..]
  }

  /** There is one more piece than there are separators. */
  lemma {:induction false} SplitCount(s: string, d: char)
    ensures |Split(s, d)| == multiset(s)[d] + 1
    decreases |s|
  {
    if |s| > 0 {
      SplitCount(s[1..], d);
      assert s == [s[0]] + s[1..];
      assert multiset(s) == multiset{s[0]} + multiset(s[1..]);
    }
  }

  /** No piece of a split contains the separator. */
  lemma {:induction false} SplitOmitsSeparator(s: string, d: char)
    ensures forall i :: 0 <= i < |Split(s, d)| ==> d !in Split(s, d)[i]
    decreases |s|
  {
    if |s| > 0 {
      SplitOmitsSeparator(s[1..], d);
      var rest := Split(s[1..], d);
      if s[0] != d {
        assert Split(s, d) == [[s[0]] + rest[0]] + rest[1..];
      } else {
        assert Split(s, d) == [""] + rest;
      }
    }
  }

  /** `d.join(pieces)`: the pieces with one `d` between neighbours. */
  function Join(pieces: seq<string>, d: char): string
  {
    if |pieces| == 0 then ""
    else if |pieces| == 1 then pieces[0]
    else pieces[0] + [d] + Join(pieces[1..], d)
  }

  /** Joining a piece in front of at least one more adds one separator. */
  lemma JoinCons(x: string, rest: seq<string>, d: char)
    requires |rest| >= 1
    ensures Join([x] + rest, d) == x + [d] + Join(rest, d)
  {
  }

  /** Extending the first piece by one character extends the join by it. */
  lemma JoinExtendFirst(c: char, rest: seq<string>, d: char)
    requires |rest| >= 1
    ensures Join([[c] + rest[0]] + rest[1..], d) == [c] + Join(rest, d)
  {
  }

  /** Joining the pieces of a split gives back the text it came from. */
  lemma {:induction false} JoinSplit(s: string, d: char)
    ensures Join(Split(s, d), d) == s
    decreases |s|
  {
    if |s| > 0 {
      var rest := Split(s[1..], d);
      JoinSplit(s[1..], d);
      assert s == [s[0]] + s[1..];
      if s[0] == d {
        assert Split(s, d) == [""] + rest;
        JoinCons("", rest, d);
        assert "" + [d] + s[1..] == s;
      } else {
        assert Split(s, d) == [[s[0]] + rest[0]] + rest[1..];
        JoinExtendFirst(s[0], rest, d);
      }
    }
  }

  /** Text without the separator extends the first piece of whatever
      follows it, and leaves the later pieces alone. */
  lemma {:induction false} SplitPrefix(a: string, t: string, d: char)
    requires d !in a
    ensures Split(a + t, d) == [a + Split(t, d)[0]] + Split(t, d)[1..]
    decreases |a|
  {
    if |a| > 0 {
      assert (a + t)[0] == a[0];
      assert (a + t)[1..] == a[1..] + t;
      SplitPrefix(a[1..], t, d);
      assert [a[0]] + (a[1..] + Split(t, d)[0]) == a + Split(t, d)[0];
    } else {
      var p := Split(t, d);
      assert a + t == t;
      assert a + p[0] == p[0];
      assert [p[0]] + p[1..] == p;
    }
  }

  /** A separator-free text followed by the separator splits off as the
      first piece. */
  lemma SplitAtFirst(a: string, t: string, d: char)
    requires d !in a
    ensures Split(a + [d] + t, d) == [a] + Split(t, d)
  {
    var u := [d] + t;
    assert a + [d] + t == a + u;
    assert u[0] == d && u[1..] == t;
    var p := Split(u, d);
    assert p == [""] + Split(t, d);
    SplitPrefix(a, u, d);
    assert a + p[0] == a;
    assert p[1..] == Split(t, d);
  }

  /** Splitting the join of separator-free pieces gives back the pieces:
      `Split` and `Join` are inverse to each other in both directions. */
  lemma {:induction false} SplitJoin(pieces: seq<string>, d: char)
    requires |pieces| >= 1
    requires forall i :: 0 <= i < |pieces| ==> d !in pieces[i]
    ensures Split(Join(pieces, d), d) == pieces
    decreases |pieces|
  {
    if |pieces| == 1 {
      SplitPrefix(pieces[0], "", d);
      assert pieces[0] + "" == pieces[0];
    } else {
      SplitJoin(pieces[1..], d);
      SplitAtFirst(pieces[0], Join(pieces[1..], d), d);
      assert [pieces[0]] + pieces[1..] == pieces;
    }
  }

  /** A text that ends with the separator has an empty last piece, one
      piece more than the text without that final separator. */
  lemma {:induction false} SplitTrailing(t: string, d: char)
    ensures Split(t + [d], d) == Split(t, d) + [""]
    decreases |t|
  {
    if |t| == 0 {
      assert t + [d] == [d];
      assert Split([d], d) == [""] + Split([], d);
    } else {
      assert (t + [d])[0] == t[0];
      assert (t + [d])[1..] == t[1..] + [d];
      SplitTrailing(t[1..], d);
    }
  }

  /** Position of piece `i` inside `Join(pieces, d)`. */
  function Offset(pieces: seq<string>, i: nat): nat
    requires i < |pieces|
  {
    if i == 0 then 0 else |pieces[0]| + 1 + Offset(pieces[1..], i - 1)
  }

  /** Piece `i` sits in the joined text at `Offset(pieces, i)`; every piece
      but the first is preceded by the separator and every piece but the
      last is followed by it. So the pieces keep their order. */
  lemma {:induction false} PieceAt(pieces: seq<string>, d: char, i: nat)
    requires i < |pieces|
    ensures Offset(pieces, i) + |pieces[i]| <= |Join(pieces, d)|
    ensures Join(pieces, d)[Offset(pieces, i)..Offset(pieces, i) + |pieces[i]|] == pieces[i]
    ensures i > 0 ==> Join(pieces, d)[Offset(pieces, i) - 1] == d
    ensures i < |pieces| - 1 ==> Offset(pieces, i) + |pieces[i]| < |Join(pieces, d)|
    ensures i < |pieces| - 1 ==> Join(pieces, d)[Offset(pieces, i) + |pieces[i]|] == d
    decreases i
  {
    if |pieces| > 1 {
      var head := pieces[0] + [d];
      var tail := Join(pieces[1..], d);
      JoinCons(pieces[0], pieces[1..], d);
      assert [pieces[0]] + pieces[1..] == pieces;
      assert Join(pieces, d) == head + tail;
      if i > 0 {
        PieceAt(pieces[1..], d, i - 1);
        var o := Offset(pieces[1..], i - 1);
        assert pieces[1..][i - 1] == pieces[i];
        ConcatShift(head, tail, o, |pieces[i]|);
      }
    }
  }

  /** Positions in the second part of a concatenation. */
  lemma ConcatShift(a: string, b: string, o: nat, n: nat)
    requires o + n <= |b|
    ensures (a + b)[|a| + o..|a| + o + n] == b[o..o + n]
    ensures o > 0 ==> (a + b)[|a| + o - 1] == b[o - 1]
    ensures o + n < |b| ==> (a + b)[|a| + o + n] == b[o + n]
  {
  }

  /* ---------------------------------------------------------------------
     Stripping whitespace
     --------------------------------------------------------------------- */

  /** `s` without its leading whitespace. */
  function TrimStart(s: string): (r: string)
    ensures |r| <= |s| && r == s[|s| - |r|..]
    ensures forall k :: 0 <= k < |s| - |r| ==> IsSpace(s[k])
    ensures |r| == 0 || !IsSpace(r[0])
    decreases |s|
  {
    if |s| > 0 && IsSpace(s[0]) then TrimStart(s[1..]) else s
  }

  /** `s` without its trailing whitespace. */
  function TrimEnd(s: string): (r: string)
    ensures |r| <= |s| && r == s[..|r|]
    ensures forall k :: |r| <= k < |s| ==> IsSpace(s[k])
    ensures |r| == 0 || !IsSpace(r[|r| - 1])
    decreases |s|
  {
    if |s| > 0 && IsSpace(s[|s| - 1]) then TrimEnd(s[..|s| - 1]) else s
  }

  /** `s.strip()`: `s` without leading or trailing whitespace. */
  function Strip(s: string): (r: string)
    ensures |r| == 0 || (!IsSpace(r[0]) && !IsSpace(r[|r| - 1]))
    decreases |s|
  {
    if |s| > 0 && IsSpace(s[0]) then Strip(s[1..]) else TrimEnd(s)
  }

  /** Text that neither starts nor ends with whitespace is left alone. */
  lemma StripTrimmed(s: string)
    requires |s| == 0 || (!IsSpace(s[0]) && !IsSpace(s[|s| - 1]))
    ensures Strip(s) == s
  {
  }

  /** `s.strip()` removes exactly the leading whitespace and then the
      trailing whitespace, and nothing else. */
  lemma {:induction false} StripIsTrims(s: string)
    ensures Strip(s) == TrimEnd(TrimStart(s))
    decreases |s|
  {
    if |s| > 0 && IsSpace(s[0]) {
      StripIsTrims(s[1..]);
    }
  }

  /** Stripping twice is the same as stripping once. */
  lemma StripIdempotent(s: string)
    ensures Strip(Strip(s)) == Strip(s)
  {
  }

  /** A trailing whitespace character, such as the newline `print` adds,
      makes no difference to the stripped text. */
  lemma {:induction false} StripTrailingSpace(s: string, c: char)
    requires IsSpace(c)
    ensures Strip(s + [c]) == Strip(s)
    decreases |s|
  {
    if |s| == 0 {
      assert s + [c] == [c];
      assert [c][1..] == [];
    } else {
      assert (s + [c])[0] == s[0];
      if IsSpace(s[0]) {
        assert (s + [c])[1..] == s[1..] + [c];
        StripTrailingSpace(s[1..], c);
      } else {
        assert (s + [c])[..|s|] == s;
      }
    }
  }
}
