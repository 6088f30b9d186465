/** How long the printed text of an IPv6 address is, measured against every spelling of it. */
module Ipv6Length {
  import opened Wrappers
  import opened Numerals
  import opened Strings
  import opened ByteOrder
  import Ipv4
  import opened Rfc4291
  import opened Ipv6
  import opened Ipv6Text
  import opened Rfc5952

  /** Any RFC 4291 spelling, with or without a dotted quad at its end. */
  predicate Spells(s: string, g: Segments) {
    InetPton(s) == Some(g)
  }

  function Digits(gs: seq<u16>): nat {
    if gs == [] then 0 else |Numeral(Hex, gs[0])| + Digits(gs[1..])
  }

  function Edges(sp: Span): nat {
    (if sp.start == 0 then 1 else 0) + (if sp.start + sp.length == 8 then 1 else 0)
  }

  lemma {:induction false} DigitsAppend(x: seq<u16>, y: seq<u16>)
    ensures Digits(x + y) == Digits(x) + Digits(y)
  {
    if x == [] {
      assert x + y == y;
    } else {
      DigitsAppend(x[1..], y);
      assert (x + y)[1..] == x[1..] + y;
    }
  }

  lemma {:induction false} DigitsBounds(gs: seq<u16>)
    ensures |gs| <= Digits(gs) <= 4 * |gs|
    ensures (forall i :: 0 <= i < |gs| ==> gs[i] == 0) ==> Digits(gs) == |gs|
  {
    if gs != [] {
      DigitsBounds(gs[1..]);
      HexLength(gs[0]);
      assert Numeral(Hex, 0) == "0";
    }
  }

  lemma {:induction false} GroupsLength(gs: seq<u16>)
    ensures |GroupsText(gs)| == if gs == [] then 0 else Digits(gs) + |gs| - 1
  {
    if |gs| > 1 {
      GroupsLength(gs[1..]);
      assert HexPieces(gs)[1..] == HexPieces(gs[1..]);
    } else if |gs| == 1 {
      assert Digits(gs[1..]) == 0;
    }
  }

  lemma GappedDigits(g: Segments, sp: Span)
    requires ZeroRun(g, sp)
    ensures Digits(g) == Digits(g[..sp.start]) + sp.length + Digits(g[sp.start + sp.length..])
  {
    var end := sp.start + sp.length;
    var l, z, r := g[..sp.start], g[sp.start..end], g[end..];
    assert g == l + (z + r);
    DigitsAppend(l, z + r);
    DigitsAppend(z, r);
    DigitsBounds(z);
  }

  lemma GappedLength(g: Segments, sp: Span)
    requires ZeroRun(g, sp) && sp.length > 0
    ensures |GappedText(g, sp)| == Digits(g) + 8 - 2 * sp.length + Edges(sp)
  {
    var l, r := g[..sp.start], g[sp.start + sp.length..];
    GappedDigits(g, sp);
    GroupsLength(l);
    GroupsLength(r);
    assert |GappedText(g, sp)| == |GroupsText(l)| + 2 + |GroupsText(r)|;
    assert Digits([]) == 0 && |l| == sp.start && |r| == 8 - sp.start - sp.length;
  }

  lemma {:induction false} JoinLonger(ps: seq<string>, qs: seq<string>)
    requires |ps| == |qs| > 0 && forall i :: 0 <= i < |ps| ==> |ps[i]| >= |qs[i]|
    ensures |Join(ps, ':')| >= |Join(qs, ':')|
  {
    if |ps| > 1 {
      JoinLonger(ps[1..], qs[1..]);
    }
  }

  lemma PiecesLength(ps: seq<string>, gs: seq<u16>)
    requires |ps| == |gs| && forall i :: 0 <= i < |ps| ==> ReadGroup(ps[i]) == Some(gs[i])
    ensures |ps| > 0 ==> |Join(ps, ':')| >= |GroupsText(gs)|
  {
    if |ps| > 0 {
      forall i | 0 <= i < |ps|
        ensures |ps[i]| >= |HexPieces(gs)[i]|
      {
        assert ReadGroup(ps[i]) == Some(gs[i]);
        NumeralIsShortest(Hex, ps[i]);
      }
      JoinLonger(ps, HexPieces(gs));
    }
  }

  /** Two octets take no more room as one group than with a dot between them. */
  lemma GroupVersusOctets(x: u8, y: u8)
    ensures |Numeral(Hex, 256 * (x as nat) + y as nat)| <= |Numeral(Decimal, x)| + 1 + |Numeral(Decimal, y)|
  {
    var n: nat := 256 * (x as nat) + y as nat;
    HexLength(n);
    var q := Quot(Hex, n);
    var p := Quot(Hex, q);
    assert x < 16 ==> p < 16 && |Numeral(Hex, p)| == 1 && |Numeral(Hex, q)| <= 2;
    assert x >= 10 ==> |Numeral(Decimal, x)| >= 2;
  }

  lemma GroupsTextConcat(x: seq<u16>, y: seq<u16>)
    requires x != [] && y != []
    ensures |GroupsText(x + y)| == |GroupsText(x)| + 1 + |GroupsText(y)|
  {
    DigitsAppend(x, y);
    GroupsLength(x);
    GroupsLength(y);
    GroupsLength(x + y);
  }

  lemma QuadLength(a: Ipv4.Ipv4Address)
    ensures |GroupsText(QuadGroups(a))| <= |Ipv4.Text(a)|
  {
    var ps, gs := Ipv4.Pieces(a), QuadGroups(a);
    GroupVersusOctets(a.octets[0], a.octets[1]);
    GroupVersusOctets(a.octets[2], a.octets[3]);
    assert gs == [gs[0]] + [gs[1]];
    GroupsTextConcat([gs[0]], [gs[1]]);
    FourJoined(ps);
  }

  lemma FourJoined(ps: seq<string>)
    requires |ps| == 4
    ensures |Join(ps, '.')| == |ps[0]| + 1 + |ps[1]| + 1 + |ps[2]| + 1 + |ps[3]|
  {
    assert ps[1..][1..] == ps[2..] && ps[2..][1..] == ps[3..];
    assert |Join(ps[2..], '.')| == |ps[2]| + 1 + |ps[3]|;
    assert |Join(ps[1..], '.')| == |ps[1]| + 1 + |Join(ps[2..], '.')|;
  }

  /** Some groups and then a quad, against the same groups and then the two groups of the quad. */
  lemma GroupsThenQuad(ps: seq<string>, gs: seq<u16>, a: Ipv4.Ipv4Address)
    requires |ps| == |gs| && forall i :: 0 <= i < |ps| ==> ReadGroup(ps[i]) == Some(gs[i])
    ensures |Join(ps + [Ipv4.Text(a)], ':')| >= |GroupsText(gs + QuadGroups(a))|
  {
    QuadLength(a);
    if |ps| > 0 {
      PiecesLength(ps, gs);
      JoinAppend(ps, Ipv4.Text(a), ':');
      GroupsTextConcat(gs, QuadGroups(a));
    } else {
      assert ps + [Ipv4.Text(a)] == [Ipv4.Text(a)] && gs + QuadGroups(a) == QuadGroups(a);
    }
  }

  lemma QuadSideParts(s: string, gs: seq<u16>) returns (ps: seq<string>, front: seq<u16>, a: Ipv4.Ipv4Address)
    requires ReadSide(s, true) == Some(gs) && '.' in s
    ensures s == Join(ps + [Ipv4.Text(a)], ':') && gs == front + QuadGroups(a)
    ensures |ps| == |front| && forall i :: 0 <= i < |ps| ==> ReadGroup(ps[i]) == Some(front[i])
  {
    var all := Split(s, ':');
    var n := |all| - 1;
    SidePieces(s, true);
    JoinSplit(s, ':');
    a := Ipv4.StrictQuad(all[n]).value;
    Ipv4.StrictQuadIsText(all[n], a);
    ps, front := all[..n], gs[..n];
    CutLast(all, n);
    CutGroups(gs, n);
    forall i | 0 <= i < n
      ensures ReadGroup(ps[i]) == Some(front[i])
    {
      assert ps[i] == all[i] && front[i] == gs[i];
    }
  }

  lemma CutLast(ps: seq<string>, n: nat)
    requires |ps| == n + 1
    ensures ps == ps[..n] + [ps[n]]
  {}

  lemma CutGroups(gs: seq<u16>, n: nat)
    requires n <= |gs|
    ensures gs == gs[..n] + gs[n..]
  {}

  lemma QuadSideLength(s: string, gs: seq<u16>)
    requires ReadSide(s, true) == Some(gs) && '.' in s
    ensures |s| >= |GroupsText(gs)|
  {
    var ps, front, a := QuadSideParts(s, gs);
    GroupsThenQuad(ps, front, a);
  }

  lemma SideLength(s: string, quad: bool, gs: seq<u16>)
    requires ReadSide(s, quad) == Some(gs)
    ensures |s| >= |GroupsText(gs)|
  {
    if s != "" {
      SidePieces(s, quad);
      JoinSplit(s, ':');
      if quad && '.' in s {
        QuadSideLength(s, gs);
      } else {
        PiecesLength(Split(s, ':'), gs);
      }
    }
  }

  /** Every spelling is at least as long as the minimal one with the same groups left out. */
  lemma SpellingLength(s: string, g: Segments)
    requires Spells(s, g)
    ensures if GapAt(s) == |s| then |s| >= Digits(g) + 7
            else var sp := Elided(s);
              ZeroRun(g, sp) && sp.length > 0 && |s| >= Digits(g) + 8 - 2 * sp.length + Edges(sp)
  {
    if GapAt(s) == |s| {
      WholeIsLeft(s);
      SideLength(s, true, g);
      GroupsLength(g);
    } else {
      var l, r := ReadSide(Left(s), false).value, ReadSide(Right(s), true).value;
      GappedSides(s, g, l, r);
      SideLength(Left(s), false, l);
      SideLength(Right(s), true, r);
      GappedLength(g, Elided(s));
    }
  }

  lemma HexTextLength(g: Segments)
    ensures var run := LongestRun(g);
            |HexText(g)| == if run.length > 1 then Digits(g) + 8 - 2 * run.length + Edges(run) else Digits(g) + 7
  {
    LongestRunMeaning(g);
    if LongestRun(g).length > 1 {
      GappedLength(g, LongestRun(g));
    } else {
      GroupsLength(g);
    }
  }

  /** A zero run away from both ends that a shorter text could have left out instead. */
  ghost predicate InnerTie(g: Segments) {
    var run := LongestRun(g);
    && (run.length == 1 || (run.length > 1 && Edges(run) > 0))
    && exists sp: Span :: ZeroRun(g, sp) && sp.length == run.length && Edges(sp) == 0
  }

  lemma HexTextNearlyShortest(s: string, g: Segments)
    requires Spells(s, g)
    ensures |HexText(g)| <= |s| + 1
    ensures !InnerTie(g) ==> |HexText(g)| <= |s|
  {
    SpellingLength(s, g);
    HexTextLength(g);
    LongestRunMeaning(g);
    var run := LongestRun(g);
    assert ZeroRun(g, run);
    if GapAt(s) < |s| {
      var sp := Elided(s);
      assert ZeroRun(g, sp) && sp.length <= run.length;
      assert sp.length == run.length == 8 ==> sp == run;
    }
  }

  /** The printed text is at most one character longer than any spelling, and no longer at all without an inner tie. */
  lemma PrintedIsNearlyShortest(a: Ipv6Address, s: string)
    requires !IsMapped(a) && Spells(s, SegmentsOf(a))
    ensures |Text(a)| <= |s| + 1
    ensures !InnerTie(SegmentsOf(a)) ==> |Text(a)| <= |s|
  {
    HexTextNearlyShortest(s, SegmentsOf(a));
  }

  /** The printed text is a shortest spelling exactly when there is no inner tie. */
  lemma ShortestIffNoInnerTie(a: Ipv6Address)
    requires !IsMapped(a)
    ensures (forall s :: Spells(s, SegmentsOf(a)) ==> |Text(a)| <= |s|) <==> !InnerTie(SegmentsOf(a))
  {
    var g := SegmentsOf(a);
    forall s | Spells(s, g)
      ensures !InnerTie(g) ==> |Text(a)| <= |s|
    {
      PrintedIsNearlyShortest(a, s);
    }
    if InnerTie(g) {
      var s := ShorterSpelling(g);
      assert Spells(s, g);
    }
  }

  lemma ShorterSpelling(g: Segments) returns (s: string)
    requires InnerTie(g)
    ensures Spells(s, g) && |s| < |HexText(g)|
  {
    var sp: Span :| ZeroRun(g, sp) && sp.length == LongestRun(g).length && Edges(sp) == 0;
    s := GappedText(g, sp);
    GappedReads(g, sp);
    GappedLength(g, sp);
    HexTextLength(g);
  }

  /** Ties do happen: 0:0:1:0:0:1:1:1 is printed with its first run left out, one character longer than need be. */
  lemma TieExample()
    ensures InnerTie([0, 0, 1, 0, 0, 1, 1, 1])
  {
    var g: Segments := [0, 0, 1, 0, 0, 1, 1, 1];
    TieLongest(g);
    LongestRunMeaning(g);
    LeftmostLongestUnique(g, LongestRun(g), Span(0, 2));
    assert ZeroRun(g, Span(3, 2));
  }

  lemma TieLongest(g: Segments)
    requires g[0] == g[1] == 0 && g[2] != 0 && g[5] != 0 && g[6] != 0 && g[7] != 0
    ensures LeftmostLongest(g, Span(0, 2))
  {
    forall other: Span | ZeroRun(g, other) && other.length >= 2
      ensures other.length == 2
    {
      assert other.start <= 2 ==> other.start + other.length <= 2;
      assert other.start > 2 ==> other.start + other.length <= 5;
    }
  }

  /** From `::` to eight four-digit groups; the reserved 39 characters always suffice. */
  lemma TextLengthBounds(a: Ipv6Address)
    ensures 2 <= |Text(a)| <= 39
    ensures IsMapped(a) ==> 14 <= |Text(a)| <= 22
  {
    var g := SegmentsOf(a);
    DigitsBounds(g);
    HexTextLength(g);
    LongestRunMeaning(g);
    if IsMapped(a) {
      Ipv4.TextShape(Mapped(a).value);
    }
  }
}
