/**
 The texts of section 2.2 of RFC 4291 as a grammar, without any order of reading, and the proof that the reader takes
 exactly these, whatever the case of their digits.
 */
module Ipv6Grammar {
  import opened Wrappers
  import opened Numerals
  import opened Strings
  import opened ByteOrder
  import Ipv4
  import opened Rfc4291
  import Ipv6Text
  import Rfc5952

  // ---- The grammar ----

  predicate GroupSpelled(p: string, v: u16) {
    1 <= |p| <= 4 && AllDigits(Hex, p) && Value(Hex, p) == v
  }

  predicate GroupsSpelled(ps: seq<string>, gs: seq<u16>) {
    |ps| == |gs| && forall i :: 0 <= i < |ps| ==> GroupSpelled(ps[i], gs[i])
  }

  /** Groups with a colon between them. */
  predicate PlainSide(s: string, ps: seq<string>, gs: seq<u16>) {
    ps != [] && s == Join(ps, ':') && GroupsSpelled(ps, gs)
  }

  /** Any groups, and the text of an IPv4 address in place of the last two. */
  predicate QuadSide(s: string, ps: seq<string>, a: Ipv4.Ipv4Address, gs: seq<u16>) {
    && s == Join(ps + [Ipv4.Text(a)], ':')
    && |gs| == |ps| + 2 && GroupsSpelled(ps, gs[..|ps|]) && gs[|ps|..] == QuadGroups(a)
  }

  ghost predicate SideSpelled(s: string, quad: bool, gs: seq<u16>) {
    || (s == "" && gs == [])
    || (exists ps :: PlainSide(s, ps, gs))
    || (quad && exists ps, a :: QuadSide(s, ps, a, gs))
  }

  /** What stands on both sides of a `::`, and the zeros it stands for, at least one. */
  ghost predicate Gapped(s: string, x: string, y: string, l: seq<u16>, r: seq<u16>, g: Segments) {
    && s == x + "::" + y && SideSpelled(x, false, l) && SideSpelled(y, true, r)
    && |l| + |r| <= 7 && g == l + Zeros(8 - |l| - |r|) + r
  }

  ghost predicate Spelled(s: string, g: Segments) {
    SideSpelled(s, true, g) || exists x, y, l, r :: Gapped(s, x, y, l, r, g)
  }

  // ---- One side ----

  lemma SpelledChars(p: string, v: u16)
    requires GroupSpelled(p, v)
    ensures ':' !in p && '.' !in p && p != "" && ReadGroup(p) == Some(v)
  {
    assert !IsDigit(Hex, ':') && !IsDigit(Hex, '.');
  }

  lemma AllSpelledChars(ps: seq<string>, gs: seq<u16>)
    requires GroupsSpelled(ps, gs)
    ensures forall i :: 0 <= i < |ps| ==> ':' !in ps[i] && '.' !in ps[i] && ps[i] != "" && ReadGroup(ps[i]) == Some(gs[i])
    ensures ReadGroups(ps) == Some(gs)
  {
    forall i | 0 <= i < |ps|
      ensures ':' !in ps[i] && '.' !in ps[i] && ps[i] != "" && ReadGroup(ps[i]) == Some(gs[i])
    {
      SpelledChars(ps[i], gs[i]);
    }
    assert ReadGroups(ps).value == gs;
  }

  lemma QuadChars(a: Ipv4.Ipv4Address)
    ensures var t := Ipv4.Text(a); ':' !in t && '.' in t && t != "" && Ipv4.StrictQuad(t) == Some(a)
  {
    Ipv4.TextShape(a);
    Ipv4.StrictQuadIsText(Ipv4.Text(a), a);
    if '.' !in Ipv4.Text(a) {
      SplitStep(Ipv4.Text(a), '.', "");
    }
    assert !IsDigit(Decimal, ':');
  }

  lemma PlainSideReads(s: string, quad: bool, ps: seq<string>, gs: seq<u16>)
    requires PlainSide(s, ps, gs)
    ensures ReadSide(s, quad) == Some(gs) && s != "" && GapAt(s) == |s| && s[|s| - 1] != ':'
  {
    AllSpelledChars(ps, gs);
    SplitJoin(ps, ':');
    JoinHasNoGap(ps);
  }

  lemma QuadSideReads(s: string, ps: seq<string>, a: Ipv4.Ipv4Address, gs: seq<u16>)
    requires QuadSide(s, ps, a, gs)
    ensures ReadSide(s, true) == Some(gs) && s != "" && GapAt(s) == |s|
  {
    var all := ps + [Ipv4.Text(a)];
    AllSpelledChars(ps, gs[..|ps|]);
    QuadChars(a);
    SplitJoin(all, ':');
    JoinHasNoGap(all);
    assert all[..|all| - 1] == ps;
    assert gs == gs[..|ps|] + gs[|ps|..];
  }

  lemma SideReads(s: string, quad: bool, gs: seq<u16>)
    requires SideSpelled(s, quad, gs)
    ensures ReadSide(s, quad) == Some(gs) && GapAt(s) == |s| && (!quad ==> s == "" || s[|s| - 1] != ':')
  {
    if s == "" && gs == [] {
    } else if ps :| PlainSide(s, ps, gs) {
      PlainSideReads(s, quad, ps, gs);
    } else {
      var ps, a :| QuadSide(s, ps, a, gs);
      QuadSideReads(s, ps, a, gs);
    }
  }

  lemma ReadPlainSpelled(s: string, ps: seq<string>, gs: seq<u16>)
    requires ps == Split(s, ':') && |gs| == |ps| && forall i :: 0 <= i < |ps| ==> ReadGroup(ps[i]) == Some(gs[i])
    ensures PlainSide(s, ps, gs)
  {
    JoinSplit(s, ':');
  }

  lemma ReadQuadSpelled(s: string, init: seq<string>, last: string, gs: seq<u16>)
    requires Split(s, ':') == init + [last] && |gs| == |init| + 2
    requires forall i :: 0 <= i < |init| ==> ReadGroup(init[i]) == Some(gs[i])
    requires Ipv4.StrictQuad(last).Some? && gs[|init|..] == QuadGroups(Ipv4.StrictQuad(last).value)
    ensures QuadSide(s, init, Ipv4.StrictQuad(last).value, gs)
  {
    JoinSplit(s, ':');
    Ipv4.StrictQuadIsText(last, Ipv4.StrictQuad(last).value);
  }

  lemma ReadSideSpelled(s: string, quad: bool, gs: seq<u16>)
    requires ReadSide(s, quad) == Some(gs)
    ensures SideSpelled(s, quad, gs)
  {
    if s != "" {
      var ps := Split(s, ':');
      SidePieces(s, quad);
      if quad && '.' in s {
        var init, last := ps[..|ps| - 1], ps[|ps| - 1];
        assert ps == init + [last];
        assert forall i :: 0 <= i < |init| ==> init[i] == ps[i];
        ReadQuadSpelled(s, init, last, gs);
      } else {
        ReadPlainSpelled(s, ps, gs);
      }
    }
  }

  // ---- Main results ----

  lemma GappedIsRead(s: string, x: string, y: string, l: seq<u16>, r: seq<u16>, g: Segments)
    requires Gapped(s, x, y, l, r, g)
    ensures InetPton(s) == Some(g)
  {
    SideReads(x, false, l);
    SideReads(y, true, r);
    Ipv6Text.ReadGapped(x, y, l, r, g);
  }

  lemma UngappedIsRead(s: string, g: Segments)
    requires SideSpelled(s, true, g)
    ensures InetPton(s) == Some(g)
  {
    SideReads(s, true, g);
  }

  lemma ReadIsGapped(s: string, g: Segments)
    requires InetPton(s) == Some(g) && GapAt(s) < |s|
    ensures exists x, y, l, r :: Gapped(s, x, y, l, r, g)
  {
    var x, y := Left(s), Right(s);
    var l, r := ReadSide(x, false).value, ReadSide(y, true).value;
    ReadSideSpelled(x, false, l);
    ReadSideSpelled(y, true, r);
    Rfc5952.GappedSides(s, g, l, r);
    assert Gapped(s, x, y, l, r, g);
  }

  /** The reader takes exactly the texts of the grammar, and reads them as the groups they spell. */
  lemma InetPtonMeaning(s: string, g: Segments)
    ensures InetPton(s) == Some(g) <==> Spelled(s, g)
  {
    if InetPton(s) == Some(g) {
      if GapAt(s) == |s| {
        ReadSideSpelled(s, true, g);
      } else {
        ReadIsGapped(s, g);
      }
    }
    if Spelled(s, g) {
      SpelledIsRead(s, g);
    }
  }

  lemma SpelledIsRead(s: string, g: Segments)
    requires Spelled(s, g)
    ensures InetPton(s) == Some(g)
  {
    if x, y, l, r :| Gapped(s, x, y, l, r, g) {
      GappedIsRead(s, x, y, l, r, g);
    } else {
      UngappedIsRead(s, g);
    }
  }

  // ---- The case of the digits ----

  predicate SameChar(c: char, d: char) {
    c == d || (DigitOf(c) == DigitOf(d) && c != ':' && c != '.' && d != ':' && d != '.')
  }

  /** Two texts that differ in the case of letters at most. */
  predicate SameText(s: string, t: string) {
    |s| == |t| && forall i :: 0 <= i < |s| ==> SameChar(s[i], t[i])
  }

  lemma {:induction false} SameValue(s: string, t: string)
    requires SameText(s, t) && AllDigits(Hex, s)
    ensures AllDigits(Hex, t) && Value(Hex, s) == Value(Hex, t)
  {
    forall i | 0 <= i < |t|
      ensures IsDigit(Hex, t[i])
    {
      assert IsDigit(Hex, s[i]) && SameChar(s[i], t[i]);
    }
    if s != "" {
      var n := |s| - 1;
      AllDigitsPrefix(Hex, s, n);
      SameValue(s[..n], t[..n]);
      assert SameChar(s[n], t[n]);
    }
  }

  lemma SameGroup(p: string, q: string)
    requires SameText(p, q)
    ensures ReadGroup(p).Some? ==> ReadGroup(p) == ReadGroup(q)
  {
    if AllDigits(Hex, p) {
      SameValue(p, q);
    }
  }

  lemma SameQuad(p: string, q: string)
    requires SameText(p, q) && Ipv4.StrictQuad(p).Some?
    ensures p == q
  {
    Ipv4.StrictQuadIsText(p, Ipv4.StrictQuad(p).value);
    Ipv4.TextShape(Ipv4.StrictQuad(p).value);
    forall i | 0 <= i < |p|
      ensures p[i] == q[i]
    {
      assert p[i] in p && SameChar(p[i], q[i]);
      SameDecimal(p[i], q[i]);
    }
  }

  lemma SameDecimal(c: char, d: char)
    requires SameChar(c, d) && (c == '.' || IsDigit(Decimal, c))
    ensures c == d
  {}

  lemma SameIndex(s: string, t: string)
    requires SameText(s, t)
    ensures IndexOf(s, ':') == IndexOf(t, ':')
  {
    var i, j := IndexOf(s, ':'), IndexOf(t, ':');
    if i < |s| { assert SameChar(s[i], t[i]); }
    if j < |t| { assert SameChar(s[j], t[j]); }
  }

  predicate SamePieces(ps: seq<string>, qs: seq<string>) {
    |ps| == |qs| && forall i :: 0 <= i < |ps| ==> SameText(ps[i], qs[i])
  }

  lemma SameSlice(s: string, t: string, i: nat, j: nat)
    requires SameText(s, t) && i <= j <= |s|
    ensures SameText(s[i..j], t[i..j])
  {
    forall k | 0 <= k < j - i
      ensures SameChar(s[i..j][k], t[i..j][k])
    {
      assert SameChar(s[i + k], t[i + k]);
    }
  }

  lemma ConsSame(p: string, q: string, ps: seq<string>, qs: seq<string>)
    requires SameText(p, q) && SamePieces(ps, qs)
    ensures SamePieces([p] + ps, [q] + qs)
  {}

  lemma {:induction false} SameSplit(s: string, t: string)
    requires SameText(s, t)
    ensures SamePieces(Split(s, ':'), Split(t, ':'))
    decreases |s|
  {
    var i := IndexOf(s, ':');
    SameIndex(s, t);
    SameSlice(s, t, 0, i);
    assert s[0..i] == s[..i] && t[0..i] == t[..i];
    if i < |s| {
      SameSlice(s, t, i + 1, |s|);
      assert s[i + 1..|s|] == s[i + 1..] && t[i + 1..|t|] == t[i + 1..];
      SameSplit(s[i + 1..], t[i + 1..]);
      ConsSame(s[..i], t[..i], Split(s[i + 1..], ':'), Split(t[i + 1..], ':'));
    }
  }

  lemma SameGroups(ps: seq<string>, qs: seq<string>)
    requires SamePieces(ps, qs) && ReadGroups(ps).Some?
    ensures ReadGroups(qs) == ReadGroups(ps)
  {
    forall i | 0 <= i < |ps|
      ensures ReadGroup(ps[i]) == ReadGroup(qs[i])
    {
      SameGroup(ps[i], qs[i]);
    }
    assert ReadGroups(qs).value == ReadGroups(ps).value;
  }

  lemma SameDot(p: string, q: string)
    requires SameText(p, q)
    ensures '.' in p <==> '.' in q
  {
    forall i | 0 <= i < |p|
      ensures p[i] == '.' <==> q[i] == '.'
    {
      assert SameChar(p[i], q[i]);
    }
    if '.' in p { var i :| 0 <= i < |p| && p[i] == '.'; assert q[i] == '.'; }
    if '.' in q { var i :| 0 <= i < |q| && q[i] == '.'; assert p[i] == '.'; }
  }

  lemma SameSide(s: string, t: string, quad: bool)
    requires SameText(s, t) && ReadSide(s, quad).Some?
    ensures ReadSide(t, quad) == ReadSide(s, quad)
  {
    if s != "" {
      var ps, qs := Split(s, ':'), Split(t, ':');
      var n := |ps| - 1;
      SameSplit(s, t);
      SameDot(ps[n], qs[n]);
      if quad && '.' in ps[n] {
        SameGroups(ps[..n], qs[..n]);
        SameQuad(ps[n], qs[n]);
      } else {
        SameGroups(ps, qs);
      }
    }
  }

  lemma SameGap(s: string, t: string)
    requires SameText(s, t)
    ensures GapAt(s) == GapAt(t)
  {
    forall j | 0 <= j < |s|
      ensures ColonPair(s, j) <==> ColonPair(t, j)
    {
      assert SameChar(s[j], t[j]);
      if j + 1 < |s| { assert SameChar(s[j + 1], t[j + 1]); }
    }
    var i, j := GapAt(s), GapAt(t);
    if i < |s| { assert ColonPair(t, i); }
    if j < |t| { assert ColonPair(s, j); }
  }

  lemma SameSides(s: string, t: string)
    requires SameText(s, t) && GapAt(s) == GapAt(t) < |s|
    ensures SameText(Left(s), Left(t)) && SameText(Right(s), Right(t))
  {
    var i := GapAt(s);
    SameSlice(s, t, 0, i);
    SameSlice(s, t, i + 2, |s|);
    assert s[0..i] == s[..i] && t[0..i] == t[..i];
    assert s[i + 2..|s|] == s[i + 2..] && t[i + 2..|t|] == t[i + 2..];
  }

  lemma SameGapped(s: string, t: string)
    requires GapAt(s) < |s| && GapAt(t) < |t| && InetPton(s).Some?
    requires ReadSide(Left(t), false) == ReadSide(Left(s), false) && ReadSide(Right(t), true) == ReadSide(Right(s), true)
    ensures InetPton(t) == InetPton(s)
  {}

  lemma SameUngapped(s: string, t: string)
    requires GapAt(s) == |s| && GapAt(t) == |t| && ReadSide(t, true) == ReadSide(s, true)
    ensures InetPton(t) == InetPton(s)
  {}

  lemma SidesAreRead(s: string)
    requires InetPton(s).Some?
    ensures if GapAt(s) == |s| then ReadSide(s, true).Some?
            else ReadSide(Left(s), false).Some? && ReadSide(Right(s), true).Some?
  {}

  lemma SameReadsOneWay(s: string, t: string)
    requires SameText(s, t) && InetPton(s).Some?
    ensures InetPton(t) == InetPton(s)
  {
    SameGap(s, t);
    SidesAreRead(s);
    if GapAt(s) == |s| {
      SameSide(s, t, true);
      SameUngapped(s, t);
    } else {
      SameSides(s, t);
      SameSide(Left(s), Left(t), false);
      SameSide(Right(s), Right(t), true);
      SameGapped(s, t);
    }
  }

  function LowerChar(c: char): char {
    if 'A' <= c <= 'Z' then (c as int - 'A' as int + 'a' as int) as char else c
  }

  function Lower(s: string): string {
    seq(|s|, i requires 0 <= i < |s| => LowerChar(s[i]))
  }

  lemma SameSymmetric(s: string, t: string)
    requires SameText(s, t)
    ensures SameText(t, s)
  {
    forall i | 0 <= i < |s|
      ensures SameChar(t[i], s[i])
    {
      assert SameChar(s[i], t[i]);
    }
  }

  /** A text and its lower-case form are read alike: both as the same address, or neither as any. */
  lemma LowerReadsAlike(s: string)
    ensures InetPton(Lower(s)) == InetPton(s)
  {
    var t := Lower(s);
    assert SameText(s, t);
    SameSymmetric(s, t);
    if InetPton(s).Some? {
      SameReadsOneWay(s, t);
    } else if InetPton(t).Some? {
      SameReadsOneWay(t, s);
    }
  }
}
