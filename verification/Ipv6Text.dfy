/** The IPv6 printer against the RFC 4291 reader: what the reader makes of printed groups, and the round trip. */
module Ipv6Text {
  import opened Wrappers
  import opened Numerals
  import opened Strings
  import opened ByteOrder
  import Ipv4
  import opened Rfc4291
  import opened Ipv6

  // ---- Reading back what the printer writes ----

  predicate GroupChar(c: char) {
    c == ':' || IsDigit(Hex, c)
  }

  /** The pieces of a printed side: digits only. */
  lemma HexPiecesChars(gs: seq<u16>)
    ensures forall i :: 0 <= i < |gs| ==> HexPieces(gs)[i] != "" && ':' !in HexPieces(gs)[i] && '.' !in HexPieces(gs)[i]
    ensures forall i, c :: 0 <= i < |gs| && c in HexPieces(gs)[i] ==> IsDigit(Hex, c)
  {
    forall i | 0 <= i < |gs|
      ensures HexPieces(gs)[i] != "" && forall c :: c in HexPieces(gs)[i] ==> IsDigit(Hex, c)
    {
      assert AllDigits(Hex, HexPieces(gs)[i]);
    }
    assert !IsDigit(Hex, ':') && !IsDigit(Hex, '.');
  }

  lemma GroupsTextShape(gs: seq<u16>)
    ensures var s := GroupsText(gs);
            && GapAt(s) == |s|
            && (gs == [] <==> s == "")
            && (gs != [] ==> s[0] != ':' && s[|s| - 1] != ':' && Split(s, ':') == HexPieces(gs))
  {
    if gs != [] {
      HexPiecesChars(gs);
      JoinHasNoGap(HexPieces(gs));
      SplitJoin(HexPieces(gs), ':');
    }
  }

  lemma GroupsTextChars(gs: seq<u16>, c: char)
    requires c in GroupsText(gs)
    ensures GroupChar(c)
  {
    if gs != [] && c != ':' {
      HexPiecesChars(gs);
      JoinChars(HexPieces(gs), ':', c);
    }
  }

  lemma GroupOfNumeral(g: u16)
    ensures ReadGroup(Numeral(Hex, g)) == Some(g)
  {
    HexLength(g);
    NumeralValue(Hex, g);
  }

  lemma SideOfGroups(gs: seq<u16>, quad: bool)
    ensures ReadSide(GroupsText(gs), quad) == Some(gs)
    ensures '.' !in GroupsText(gs)
  {
    GroupsTextShape(gs);
    if '.' in GroupsText(gs) {
      GroupsTextChars(gs, '.');
    }
    if gs != [] {
      var ps := HexPieces(gs);
      HexPiecesChars(gs);
      forall i | 0 <= i < |ps|
        ensures ReadGroup(ps[i]) == Some(gs[i])
      {
        GroupOfNumeral(gs[i]);
      }
      assert ReadGroups(ps).value == gs;
    }
  }

  lemma ReadGapped(x: string, y: string, l: seq<u16>, r: seq<u16>, g: Segments)
    requires GapAt(x) == |x| && (x == "" || x[|x| - 1] != ':')
    requires ReadSide(x, false) == Some(l) && ReadSide(y, true) == Some(r)
    requires |l| + |r| <= 7 && g == l + Zeros(8 - |l| - |r|) + r
    ensures var s := x + "::" + y;
            InetPton(s) == Some(g) && GapAt(s) == |x| < |s| && Left(s) == x && Right(s) == y
  {
    GapAfter(x, y);
  }

  /** Any zero run of an address may be written `::`, whatever stands on either side of it. */
  lemma GappedReads(g: Segments, sp: Span)
    requires ZeroRun(g, sp) && sp.length > 0
    ensures var s, l, r := GappedText(g, sp), g[..sp.start], g[sp.start + sp.length..];
            && InetPton(s) == Some(g)
            && GapAt(s) == |GroupsText(l)| < |s| && Left(s) == GroupsText(l) && Right(s) == GroupsText(r)
  {
    var l, r := g[..sp.start], g[sp.start + sp.length..];
    GroupsTextShape(l);
    SideOfGroups(l, false);
    SideOfGroups(r, true);
    assert g == l + Zeros(8 - |l| - |r|) + r;
    ReadGapped(GroupsText(l), GroupsText(r), l, r, g);
  }

  lemma UngappedReads(g: Segments)
    ensures var s := GroupsText(g); InetPton(s) == Some(g) && GapAt(s) == |s|
  {
    GroupsTextShape(g);
    SideOfGroups(g, true);
  }

  lemma FfffIsNumeral()
    ensures Numeral(Hex, 0xffff) == "ffff" && ReadGroup("ffff") == Some(0xffff)
  {
    assert Numeral(Hex, 0xf) == "f" && Numeral(Hex, 0xff) == "ff";
    assert Numeral(Hex, 0xfff) == "fff";
    GroupOfNumeral(0xffff);
  }

  lemma QuadHasDot(v4: Ipv4.Ipv4Address)
    ensures '.' in Ipv4.Text(v4)
  {
    Ipv4.TextShape(v4);
    if '.' !in Ipv4.Text(v4) {
      SplitStep(Ipv4.Text(v4), '.', "");
    }
  }

  /** A group, a colon and a dotted quad. */
  lemma SideWithQuad(p: string, x: u16, v4: Ipv4.Ipv4Address)
    requires ':' !in p && ReadGroup(p) == Some(x)
    ensures var quad := Ipv4.Text(v4);
            && ReadSide(p + [':'] + quad, true) == Some([x] + QuadGroups(v4))
            && Split(p + [':'] + quad, ':') == [p, quad] && '.' in quad
  {
    var quad := Ipv4.Text(v4);
    Ipv4.TextShape(v4);
    SplitStep(quad, ':', "");
    SplitStep(p, ':', quad);
    QuadHasDot(v4);
    Ipv4.StrictQuadIsText(quad, v4);
    var ps := Split(p + [':'] + quad, ':');
    assert ps == [p, quad] && ps[..1] == [p];
    OneGroup(p, x);
  }

  lemma OneGroup(p: string, x: u16)
    requires ReadGroup(p) == Some(x)
    ensures ReadGroups([p]) == Some([x])
  {
    assert ReadGroups([p]).value == [x];
  }

  lemma MappedReads(a: Ipv6Address)
    requires IsMapped(a)
    ensures var s, y := Text(a), "ffff" + [':'] + Ipv4.Text(Mapped(a).value);
            && InetPton(s) == Some(SegmentsOf(a))
            && GapAt(s) == 0 && |s| > 2 && Left(s) == "" && Right(s) == y
  {
    var g, v4 := SegmentsOf(a), Mapped(a).value;
    var y := "ffff" + [':'] + Ipv4.Text(v4);
    FfffIsNumeral();
    SideWithQuad("ffff", 0xffff, v4);
    MappedSegments(a);
    MappedGroups(g);
    ReadGapped("", y, [], [0xffff] + QuadGroups(v4), g);
    MappedTextCut(Ipv4.Text(v4));
  }

  lemma MappedTextCut(quad: string)
    ensures "::ffff:" + quad == "" + "::" + ("ffff" + [':'] + quad)
  {}

  lemma MappedGroups(g: Segments)
    requires (forall i :: 0 <= i < 5 ==> g[i] == 0) && g[5] == 0xffff
    ensures g == [] + Zeros(5) + ([0xffff] + g[6..])
  {}

  lemma HexTextReads(g: Segments)
    ensures InetPton(HexText(g)) == Some(g)
  {
    LongestRunMeaning(g);
    if LongestRun(g).length > 1 {
      GappedReads(g, LongestRun(g));
    } else {
      UngappedReads(g);
    }
  }

  lemma HexTextChars(g: Segments, c: char)
    requires c in HexText(g)
    ensures GroupChar(c)
  {
    LongestRunMeaning(g);
    var sp := LongestRun(g);
    var l, r := g[..sp.start], g[sp.start + sp.length..];
    if sp.length > 1 {
      if c in GroupsText(l) { GroupsTextChars(l, c); }
      if c in GroupsText(r) { GroupsTextChars(r, c); }
    } else {
      GroupsTextChars(g, c);
    }
  }

  lemma TextChars(a: Ipv6Address)
    ensures forall c :: c in Text(a) ==> c == '.' || GroupChar(c)
    ensures !IsMapped(a) ==> '.' !in Text(a)
  {
    if IsMapped(a) {
      Ipv4.TextShape(Mapped(a).value);
      assert forall c :: c in "::ffff:" ==> GroupChar(c);
    } else {
      forall c | c in Text(a)
        ensures GroupChar(c)
      {
        HexTextChars(SegmentsOf(a), c);
      }
      assert !GroupChar('.');
    }
  }

  lemma TextSpells(a: Ipv6Address)
    ensures InetPton(Text(a)) == Some(SegmentsOf(a))
  {
    if IsMapped(a) {
      MappedReads(a);
    } else {
      HexTextReads(SegmentsOf(a));
    }
  }

  lemma ReadsSpelling(s: string, g: Segments)
    requires '\0' !in s && InetPton(s) == Some(g)
    ensures Read(s) == Ok(FromSegments(g))
  {
    NoNulIsWhole(s);
  }

  /** Reading the printed text gives the address back, on every path of the printer. */
  lemma TextReads(a: Ipv6Address)
    ensures InetPton(Text(a)) == Some(SegmentsOf(a))
    ensures Read(Text(a)) == Ok(a)
  {
    TextSpells(a);
    TextChars(a);
    assert !GroupChar('\0');
    SegmentsBijection(a, SegmentsOf(a));
    ReadsSpelling(Text(a), SegmentsOf(a));
  }

  lemma NoNulIsWhole(s: string)
    requires '\0' !in s
    ensures CStr(s) == s
  {}
}
