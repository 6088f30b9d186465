/**
 The canonical text of section 4 and section 5 of RFC 5952, stated on a text and the address it spells,
 and the proof that the printer writes exactly these texts.
 */
module Rfc5952 {
  import opened Wrappers
  import opened Numerals
  import opened Strings
  import opened ByteOrder
  import Ipv4
  import opened Rfc4291
  import opened Ipv6
  import opened Ipv6Text

  // ---- The canonical form ----

  /** Sections 4.1 and 4.3: no group of this side has a leading zero or an upper-case digit. */
  predicate MinimalSide(side: string) {
    var ps := Split(side, ':');
    forall i :: 0 <= i < |ps| && '.' !in ps[i] ==> Minimal(ps[i])
  }

  /** The groups that `::` stands for in an accepted text. */
  function Elided(s: string): Span
    requires InetPton(s).Some? && GapAt(s) < |s|
  {
    var l, r := ReadSide(Left(s), false).value, ReadSide(Right(s), true).value;
    Span(|l|, 8 - |l| - |r|)
  }

  predicate MappedPrefix(g: Segments) {
    (forall i :: 0 <= i < 5 ==> g[i] == 0) && g[5] == 0xffff
  }

  /** Sections 4.2.1 to 4.2.3: `::` is used when it can be, not for one group, and for the leftmost longest run. */
  ghost predicate BestGap(s: string, g: Segments)
    requires InetPton(s) == Some(g)
  {
    if GapAt(s) == |s| then forall sp: Span :: ZeroRun(g, sp) ==> sp.length <= 1
    else Elided(s).length >= 2 && LeftmostLongest(g, Elided(s))
  }

  ghost predicate Canonical(s: string) {
    && InetPton(s).Some?
    && MinimalSide(Left(s)) && MinimalSide(Right(s))
    && ('.' in s <==> MappedPrefix(InetPton(s).value))  // section 5
    && BestGap(s, InetPton(s).value)
  }

  lemma SplitEmpty()
    ensures Split("", ':') == [""]
  {}

  lemma GroupsTextMinimal(gs: seq<u16>)
    ensures MinimalSide(GroupsText(gs))
  {
    GroupsTextShape(gs);
    SplitEmpty();
    forall i | 0 <= i < |gs|
      ensures Minimal(HexPieces(gs)[i])
    {
      NumeralValue(Hex, gs[i]);
    }
  }

  /** A dotless side that is minimal is the printer's text of its groups. */
  lemma MinimalSideIsText(s: string, quad: bool, gs: seq<u16>)
    requires ReadSide(s, quad) == Some(gs) && '.' !in s && MinimalSide(s)
    ensures s == GroupsText(gs)
  {
    if s != "" {
      SidePieces(s, quad);
      DotInPieces(s);
      var ps := Split(s, ':');
      forall i | 0 <= i < |ps|
        ensures ps[i] == HexPieces(gs)[i]
      {
        MinimalIsNumeral(Hex, ps[i]);
      }
      assert ps == HexPieces(gs);
      JoinSplit(s, ':');
    }
  }

  lemma QuadGroupsInjective(x: Ipv4.Ipv4Address, y: Ipv4.Ipv4Address)
    requires QuadGroups(x) == QuadGroups(y)
    ensures x == y
  {
    var p, q := QuadGroups(x), QuadGroups(y);
    assert p[0] == q[0] && p[1] == q[1];
    assert x.octets == y.octets;
  }

  /** A minimal side of three groups that begins with ffff and ends in a quad. */
  lemma MinimalQuadSideIsText(s: string, v4: Ipv4.Ipv4Address)
    requires ReadSide(s, true) == Some([0xffff] + QuadGroups(v4)) && '.' in s && MinimalSide(s)
    ensures s == "ffff" + [':'] + Ipv4.Text(v4)
  {
    var gs := [0xffff] + QuadGroups(v4);
    var ps := Split(s, ':');
    SidePieces(s, true);
    assert |ps| == 2;
    var v := Ipv4.StrictQuad(ps[1]).value;
    assert gs[1..] == QuadGroups(v4);
    QuadGroupsInjective(v, v4);
    Ipv4.StrictQuadIsText(ps[1], v4);
    if '.' in ps[0] { DotIsNoGroup(ps[0]); }
    MinimalIsNumeral(Hex, ps[0]);
    FfffIsNumeral();
    JoinSplit(s, ':');
    assert ps == ["ffff", Ipv4.Text(v4)] && ps[1..] == [Ipv4.Text(v4)];
  }

  lemma MappedRun(g: Segments)
    requires MappedPrefix(g)
    ensures LeftmostLongest(g, Span(0, 5)) && LongestRun(g) == Span(0, 5)
  {
    forall other: Span | ZeroRun(g, other) && other.length >= 5
      ensures other.length == 5 && other.start == 0
    {
      assert g[5] != 0;
    }
    LongestRunMeaning(g);
    LeftmostLongestUnique(g, Span(0, 5), LongestRun(g));
  }

  /** The printer's two paths, told apart by the groups alone. */
  lemma TextOfGroups(g: Segments)
    ensures var a := FromSegments(g);
            && SegmentsOf(a) == g
            && (IsMapped(a) <==> MappedPrefix(g))
            && (if IsMapped(a) then g == Zeros(5) + ([0xffff] + QuadGroups(Mapped(a).value)) else Text(a) == HexText(g))
  {
    var a := FromSegments(g);
    SegmentsBijection(a, g);
    MappedSegments(a);
    if IsMapped(a) {
      MappedGroups(g);
      assert [] + Zeros(5) == Zeros(5);
    }
  }

  lemma NoLongRun(g: Segments)
    requires forall sp: Span :: ZeroRun(g, sp) ==> sp.length <= 1
    ensures !MappedPrefix(g) && HexText(g) == GroupsText(g)
  {
    LongestRunMeaning(g);
    assert ZeroRun(g, LongestRun(g));
    assert !ZeroRun(g, Span(0, 5));
  }

  lemma UngappedIsPrinted(s: string, g: Segments)
    requires InetPton(s) == Some(g) && Canonical(s) && GapAt(s) == |s|
    ensures s == Text(FromSegments(g))
  {
    NoLongRun(g);
    TextOfGroups(g);
    WholeIsLeft(s);
    MinimalSideIsText(s, true, g);
  }

  lemma WholeIsLeft(s: string)
    requires GapAt(s) == |s|
    ensures Left(s) == s
  {}

  lemma DotsOnTheRight(s: string)
    requires InetPton(s).Some? && GapAt(s) < |s|
    ensures '.' !in Left(s) && ('.' in s <==> '.' in Right(s))
  {
    SidesOf(s);
    if Left(s) != "" {
      SidePieces(Left(s), false);
    }
  }

  lemma GappedSides(s: string, g: Segments, l: seq<u16>, r: seq<u16>)
    requires InetPton(s) == Some(g) && GapAt(s) < |s|
    requires ReadSide(Left(s), false) == Some(l) && ReadSide(Right(s), true) == Some(r)
    ensures |l| + |r| <= 7 && g == l + Zeros(8 - |l| - |r|) + r
    ensures l == g[..|l|] && r == g[8 - |r|..] && Elided(s) == Span(|l|, 8 - |l| - |r|)
    ensures ZeroRun(g, Elided(s)) && s == Left(s) + "::" + Right(s)
  {
    SidesOf(s);
    ElidedSlices(l, 8 - |l| - |r|, r);
    assert g == l + Zeros(8 - |l| - |r|) + r;
  }

  lemma ElidedSlices(l: seq<u16>, k: nat, r: seq<u16>)
    ensures var g := l + Zeros(k) + r;
            g[..|l|] == l && g[|l| + k..] == r && ZeroRun(g, Span(|l|, k))
  {}

  lemma GappedIsPrinted(s: string, g: Segments)
    requires InetPton(s) == Some(g) && Canonical(s) && GapAt(s) < |s|
    ensures s == Text(FromSegments(g))
  {
    var l, r := ReadSide(Left(s), false).value, ReadSide(Right(s), true).value;
    GappedSides(s, g, l, r);
    DotsOnTheRight(s);
    LongestRunMeaning(g);
    LeftmostLongestUnique(g, Elided(s), LongestRun(g));
    PrintedFromSides(Left(s), Right(s), l, r, g);
  }

  lemma PrintedFromSides(x: string, y: string, l: seq<u16>, r: seq<u16>, g: Segments)
    requires ReadSide(x, false) == Some(l) && ReadSide(y, true) == Some(r)
    requires MinimalSide(x) && MinimalSide(y) && '.' !in x && ('.' in y <==> MappedPrefix(g))
    requires |l| + |r| <= 6 && LongestRun(g) == Span(|l|, 8 - |l| - |r|)
    requires l == g[..|l|] && r == g[8 - |r|..]
    ensures x + "::" + y == Text(FromSegments(g))
  {
    MinimalSideIsText(x, false, l);
    if MappedPrefix(g) {
      MappedRun(g);
      assert l == [] && |r| == 3;
      MappedFromSide(y, g);
    } else {
      MinimalSideIsText(y, true, r);
      HexFromGroups(l, r, g);
    }
  }

  lemma HexFromGroups(l: seq<u16>, r: seq<u16>, g: Segments)
    requires |l| + |r| <= 6 && LongestRun(g) == Span(|l|, 8 - |l| - |r|)
    requires l == g[..|l|] && r == g[8 - |r|..] && !MappedPrefix(g)
    ensures GroupsText(l) + "::" + GroupsText(r) == Text(FromSegments(g))
  {
    TextOfGroups(g);
    var sp := LongestRun(g);
    HexFromSides(g, sp, 8 - |r|, l, r);
  }

  lemma MappedFromSide(y: string, g: Segments)
    requires MappedPrefix(g) && ReadSide(y, true) == Some(g[5..]) && '.' in y && MinimalSide(y)
    ensures "" + "::" + y == Text(FromSegments(g))
  {
    TextOfGroups(g);
    var v4 := Mapped(FromSegments(g)).value;
    assert g[5..] == [0xffff] + QuadGroups(v4);
    MinimalQuadSideIsText(y, v4);
    MappedTextCut(Ipv4.Text(v4));
  }

  lemma HexFromSides(g: Segments, sp: Span, end: nat, l: seq<u16>, r: seq<u16>)
    requires sp == LongestRun(g) && sp.length > 1 && sp.start + sp.length == end <= 8
    requires l == g[..sp.start] && r == g[end..]
    ensures HexText(g) == GroupsText(l) + "::" + GroupsText(r)
  {
    LongestRunMeaning(g);
  }

  lemma MappedSidesMinimal(v4: Ipv4.Ipv4Address)
    ensures MinimalSide("") && MinimalSide("ffff" + [':'] + Ipv4.Text(v4))
    ensures '.' in "ffff" + [':'] + Ipv4.Text(v4)
  {
    SplitEmpty();
    FfffIsNumeral();
    SideWithQuad("ffff", 0xffff, v4);
    NumeralValue(Hex, 0xffff);
  }

  lemma MappedTextIsCanonical(a: Ipv6Address)
    requires IsMapped(a)
    ensures Canonical(Text(a))
  {
    var v4, g := Mapped(a).value, SegmentsOf(a);
    MappedReads(a);
    MappedSegments(a);
    MappedRun(g);
    MappedSidesMinimal(v4);
    DotsOnTheRight(Text(a));
    FfffIsNumeral();
    SideWithQuad("ffff", 0xffff, v4);
    assert Elided(Text(a)) == Span(0, 5);
  }

  lemma HexTextIsCanonical(g: Segments)
    requires !MappedPrefix(g)
    ensures Canonical(HexText(g))
  {
    LongestRunMeaning(g);
    HexTextHasNoDot(g);
    var s := HexText(g);
    if LongestRun(g).length > 1 {
      GappedTextIsCanonical(g, LongestRun(g));
      assert s == GappedText(g, LongestRun(g));
    } else {
      UngappedTextIsCanonical(g);
      assert s == GroupsText(g);
    }
  }

  lemma HexTextHasNoDot(g: Segments)
    ensures '.' !in HexText(g)
  {
    if '.' in HexText(g) {
      HexTextChars(g, '.');
    }
  }

  lemma UngappedTextIsCanonical(g: Segments)
    requires LeftmostLongest(g, LongestRun(g)) && LongestRun(g).length <= 1
    ensures var s := GroupsText(g);
            InetPton(s) == Some(g) && MinimalSide(Left(s)) && MinimalSide(Right(s)) && BestGap(s, g)
  {
    UngappedReads(g);
    GroupsTextMinimal(g);
    SplitEmpty();
    WholeIsLeft(GroupsText(g));
    forall sp: Span | ZeroRun(g, sp)
      ensures sp.length <= 1
    {
    }
  }

  lemma GappedTextIsCanonical(g: Segments, sp: Span)
    requires LeftmostLongest(g, sp) && sp.length > 1
    ensures var s := GappedText(g, sp); MinimalSide(Left(s)) && MinimalSide(Right(s))
    ensures InetPton(GappedText(g, sp)) == Some(g) && BestGap(GappedText(g, sp), g)
  {
    var s, l, r := GappedText(g, sp), g[..sp.start], g[sp.start + sp.length..];
    GappedReads(g, sp);
    GroupsTextMinimal(l);
    GroupsTextMinimal(r);
    SideOfGroups(l, false);
    SideOfGroups(r, true);
    assert Elided(s) == sp;
  }

  /** The printer writes the canonical text of every address, and a text is canonical only if the printer writes it. */
  lemma CanonicalIsPrinted(s: string)
    ensures Canonical(s) <==> InetPton(s).Some? && s == Text(FromSegments(InetPton(s).value))
  {
    if InetPton(s).Some? {
      var g := InetPton(s).value;
      var a := FromSegments(g);
      SegmentsBijection(a, g);
      MappedSegments(a);
      if Canonical(s) {
        if GapAt(s) == |s| { UngappedIsPrinted(s, g); } else { GappedIsPrinted(s, g); }
      }
      if s == Text(a) {
        if IsMapped(a) { MappedTextIsCanonical(a); } else { HexTextIsCanonical(g); }
      }
    }
  }

  /** Printing what was read turns every spelling into the one canonical spelling of the same address. */
  lemma NormalisingIsCanonical(s: string)
    requires InetPton(s).Some?
    ensures var t := Text(FromSegments(InetPton(s).value));
            && Canonical(t) && InetPton(t) == InetPton(s)
            && (forall u :: Canonical(u) && InetPton(u) == InetPton(s) ==> u == t)
  {
    var g := InetPton(s).value;
    var t := Text(FromSegments(g));
    SegmentsBijection(FromSegments(g), g);
    TextReads(FromSegments(g));
    CanonicalIsPrinted(t);
    forall u | Canonical(u) && InetPton(u) == InetPton(s)
      ensures u == t
    {
      CanonicalIsPrinted(u);
    }
  }
}
