/** The searches and cuts of `std::string_view` the parsers are written with. */
module Strings {
  function IndexFrom(s: string, c: char, from: nat): (i: nat)
    requires from <= |s|
    ensures from <= i <= |s| && (i < |s| ==> s[i] == c)
    ensures forall k :: from <= k < i ==> s[k] != c
    decreases |s| - from
  {
    if from == |s| || s[from] == c then from else IndexFrom(s, c, from + 1)
  }

  /** `find`: the first index of `c`, or the length when there is none. */
  function IndexOf(s: string, c: char): (i: nat)
    ensures i <= |s| && (i < |s| ==> s[i] == c)
    ensures forall k :: 0 <= k < i ==> s[k] != c
  {
    IndexFrom(s, c, 0)
  }

  function LastIndexBelow(s: string, c: char, n: nat): (i: int)
    requires n <= |s|
    ensures -1 <= i < n && (i >= 0 ==> s[i] == c)
    ensures forall k :: i < k < n ==> s[k] != c
  {
    if n == 0 then -1 else if s[n - 1] == c then n - 1 else LastIndexBelow(s, c, n - 1)
  }

  /** `rfind`: the last index of `c`, or -1 when there is none. */
  function LastIndexOf(s: string, c: char): (i: int)
    ensures -1 <= i < |s| && (i >= 0 ==> s[i] == c)
    ensures forall k :: i < k < |s| ==> s[k] != c
  {
    LastIndexBelow(s, c, |s|)
  }

  /** The first `c` of `a + [c] + b` follows `a` if `a` has none, the last one precedes `b` if `b` has none. */
  lemma IndexAround(a: string, c: char, b: string)
    ensures var s := a + [c] + b;
            && s[..|a|] == a && s[|a| + 1..] == b
            && (c !in a ==> IndexOf(s, c) == |a|)
            && (c !in b ==> LastIndexOf(s, c) == |a|)
  {
    var s := a + [c] + b;
    var i, j := IndexOf(s, c), LastIndexOf(s, c);
    assert s[|a|] == c;
    assert i <= |a| <= j;
    if i < |a| {
      assert a[i] == s[i];
    }
    if j > |a| {
      assert b[j - |a| - 1] == s[j];
    }
  }

  lemma IndexOfAbsent(s: string, c: char)
    requires c !in s
    ensures IndexOf(s, c) == |s|
  {}

  function Split(s: string, sep: char): (ps: seq<string>)
    ensures |ps| > 0
    decreases |s|
  {
    var i := IndexOf(s, sep);
    if i == |s| then [s[..i]] else [s[..i]] + Split(s[i + 1..], sep)
  }

  lemma ConsParts<T>(x: T, rest: seq<T>)
    ensures ([x] + rest)[0] == x && ([x] + rest)[1..] == rest
  {}

  /** What the first cut leaves. */
  lemma SplitHead(s: string, sep: char)
    ensures var i, ps := IndexOf(s, sep), Split(s, sep);
            && ps[0] == s[..i]
            && (i == |s| <==> |ps| == 1)
            && (i < |s| ==> ps[1..] == Split(s[i + 1..], sep))
  {
    if IndexOf(s, sep) < |s| {
      ConsParts(s[..IndexOf(s, sep)], Split(s[IndexOf(s, sep) + 1..], sep));
    }
  }

  lemma {:induction false} SplitPieces(s: string, sep: char)
    ensures forall i :: 0 <= i < |Split(s, sep)| ==> sep !in Split(s, sep)[i]
    decreases |s|
  {
    var i := IndexOf(s, sep);
    SplitHead(s, sep);
    if i < |s| {
      SplitPieces(s[i + 1..], sep);
    }
  }

  function Join(ps: seq<string>, sep: char): string
    requires |ps| > 0
  {
    if |ps| == 1 then ps[0] else ps[0] + [sep] + Join(ps[1..], sep)
  }

  lemma JoinCons(p: string, ps: seq<string>, sep: char)
    requires |ps| > 0
    ensures Join([p] + ps, sep) == p + [sep] + Join(ps, sep)
  {
    ConsParts(p, ps);
  }

  lemma CutAround(s: string, i: nat)
    requires i < |s|
    ensures s == s[..i] + [s[i]] + s[i + 1..]
  {}

  lemma {:induction false} JoinSplit(s: string, sep: char)
    ensures Join(Split(s, sep), sep) == s
    decreases |s|
  {
    var i := IndexOf(s, sep);
    if i < |s| {
      JoinSplit(s[i + 1..], sep);
      JoinCons(s[..i], Split(s[i + 1..], sep), sep);
      CutAround(s, i);
    }
  }

  lemma SplitStep(a: string, sep: char, b: string)
    requires sep !in a
    ensures Split(a + [sep] + b, sep) == [a] + Split(b, sep)
    ensures Split(a, sep) == [a]
  {
    IndexAround(a, sep, b);
    IndexOfAbsent(a, sep);
    assert a[..|a|] == a;
  }

  lemma {:induction false} SplitJoin(ps: seq<string>, sep: char)
    requires |ps| > 0 && forall i :: 0 <= i < |ps| ==> sep !in ps[i]
    ensures Split(Join(ps, sep), sep) == ps
  {
    if |ps| == 1 {
      SplitStep(ps[0], sep, "");
    } else {
      SplitJoin(ps[1..], sep);
      SplitStep(ps[0], sep, Join(ps[1..], sep));
    }
  }

  lemma Regroup(x: string, y: string, z: string)
    ensures x + (y + z) == (x + y) + z
  {}

  /** Appending one more piece at the end, the way the printers build their text. */
  lemma {:induction false} JoinAppend(ps: seq<string>, p: string, sep: char)
    requires |ps| > 0
    ensures Join(ps + [p], sep) == Join(ps, sep) + [sep] + p
  {
    if |ps| > 1 {
      JoinAppend(ps[1..], p, sep);
      assert (ps + [p])[1..] == ps[1..] + [p];
      Regroup(ps[0] + [sep], Join(ps[1..], sep) + [sep], p);
      Regroup(ps[0] + [sep], Join(ps[1..], sep), [sep]);
    } else {
      assert (ps + [p])[1..] == [p];
    }
  }

  /** A character of a joined text is the separator or a character of one of the pieces. */
  lemma {:induction false} JoinChars(ps: seq<string>, sep: char, c: char)
    requires |ps| > 0
    ensures c in Join(ps, sep) && c != sep ==> exists i :: 0 <= i < |ps| && c in ps[i]
    ensures (exists i :: 0 <= i < |ps| && c in ps[i]) ==> c in Join(ps, sep)
  {
    if |ps| > 1 {
      JoinChars(ps[1..], sep, c);
      var s := ps[0] + [sep] + Join(ps[1..], sep);
      assert c in s <==> c in ps[0] || c == sep || c in Join(ps[1..], sep);
      assert forall i :: 1 <= i < |ps| ==> ps[i] == ps[1..][i - 1];
      if c in Join(ps[1..], sep) && c != sep {
        var i :| 0 <= i < |ps[1..]| && c in ps[1..][i];
        assert c in ps[i + 1];
      }
    }
  }
}
